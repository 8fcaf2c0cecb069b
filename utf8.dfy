/**
 * UTF-8 (RFC 3629) for `String.toByteArray(StandardCharsets.UTF_8)`. A Dafny
 * `char` is a Unicode scalar value, so no lone surrogate ever reaches the
 * encoder.
 */
module Utf8 {
  import opened Common

  /** The one to four bytes of a single scalar value. */
  function EncodeChar(c: char): (r: seq<byte>)
    ensures 1 <= |r| <= 4
    ensures (c as int < 0x80) <==> |r| == 1
    ensures |r| == 1 ==> r == [c as int]
  {
    var cp := c as int;
    if cp < 0x80 then [cp]
    else if cp < 0x800 then [0xC0 + cp / 64, 0x80 + cp % 64]
    else if cp < 0x10000 then [0xE0 + cp / 4096, 0x80 + (cp / 64) % 64, 0x80 + cp % 64]
    else [0xF0 + cp / 262144, 0x80 + (cp / 4096) % 64, 0x80 + (cp / 64) % 64, 0x80 + cp % 64]
  }

  function Encode(s: string): (r: seq<byte>)
    ensures |r| >= |s|
  {
    if s == [] then [] else EncodeChar(s[0]) + Encode(s[1..])
  }

  predicate IsContinuation(b: byte) { 0x80 <= b < 0xC0 }

  predicate IsScalar(cp: int) { 0 <= cp < 0xD800 || 0xE000 <= cp < 0x110000 }

  /** Decodes one well-formed, shortest-form sequence at `pos`. */
  function DecodeChar(bytes: seq<byte>, pos: nat): (r: Option<(char, nat)>)
    requires pos <= |bytes|
    ensures r.Some? ==> pos < r.value.1 <= |bytes|
  {
    if pos == |bytes| then None
    else
      var b0: int := bytes[pos];
      if b0 < 0x80 then Some((b0 as char, pos + 1))
      else if b0 < 0xC2 || b0 >= 0xF5 then None
      else if b0 < 0xE0 then
        if pos + 2 > |bytes| || !IsContinuation(bytes[pos + 1]) then None
        else Some((((b0 - 0xC0) * 64 + (bytes[pos + 1] as int - 0x80)) as char, pos + 2))
      else if b0 < 0xF0 then
        if pos + 3 > |bytes| || !IsContinuation(bytes[pos + 1]) || !IsContinuation(bytes[pos + 2]) then None
        else
          var cp := (b0 - 0xE0) * 4096 + (bytes[pos + 1] as int - 0x80) * 64 + (bytes[pos + 2] as int - 0x80);
          if cp < 0x800 || !IsScalar(cp) then None else Some((cp as char, pos + 3))
      else
        if pos + 4 > |bytes| || !IsContinuation(bytes[pos + 1]) || !IsContinuation(bytes[pos + 2])
           || !IsContinuation(bytes[pos + 3]) then None
        else
          var cp := (b0 - 0xF0) * 262144 + (bytes[pos + 1] as int - 0x80) * 4096
                    + (bytes[pos + 2] as int - 0x80) * 64 + (bytes[pos + 3] as int - 0x80);
          if cp < 0x10000 || !IsScalar(cp) then None else Some((cp as char, pos + 4))
  }

  function DecodeFrom(bytes: seq<byte>, pos: nat): Option<string>
    requires pos <= |bytes|
    decreases |bytes| - pos
  {
    if pos == |bytes| then Some([])
    else
      var first := DecodeChar(bytes, pos);
      if first.None? then None
      else
        var rest := DecodeFrom(bytes, first.value.1);
        if rest.None? then None else Some([first.value.0] + rest.value)
  }

  function Decode(bytes: seq<byte>): Option<string>
  {
    DecodeFrom(bytes, 0)
  }

  /** Each scalar value's bytes decode back to it. */
  lemma CharRoundTrip(c: char, bytes: seq<byte>, pos: nat)
    requires pos + |EncodeChar(c)| <= |bytes|
    requires bytes[pos..pos + |EncodeChar(c)|] == EncodeChar(c)
    ensures DecodeChar(bytes, pos) == Some((c, pos + |EncodeChar(c)|))
  {
    var e := EncodeChar(c);
    var cp := c as int;
    assert bytes[pos] == e[0];
    if cp < 0x80 {
    } else if cp < 0x800 {
      assert bytes[pos + 1] == e[1];
      TwoByteRoundTrip(c, bytes, pos);
    } else if cp < 0x10000 {
      assert bytes[pos + 1] == e[1] && bytes[pos + 2] == e[2];
      ThreeByteRoundTrip(c, bytes, pos);
    } else {
      assert bytes[pos + 1] == e[1] && bytes[pos + 2] == e[2] && bytes[pos + 3] == e[3];
      FourByteRoundTrip(c, bytes, pos);
    }
  }

  lemma TwoByteRoundTrip(c: char, bytes: seq<byte>, pos: nat)
    requires 0x80 <= c as int < 0x800 && pos + 2 <= |bytes|
    requires bytes[pos] == 0xC0 + c as int / 64 && bytes[pos + 1] == 0x80 + c as int % 64
    ensures DecodeChar(bytes, pos) == Some((c, pos + 2))
  {
    var cp := c as int;
    assert (cp / 64) * 64 + cp % 64 == cp;
  }

  lemma ThreeByteRoundTrip(c: char, bytes: seq<byte>, pos: nat)
    requires 0x800 <= c as int < 0x10000 && pos + 3 <= |bytes|
    requires bytes[pos] == 0xE0 + c as int / 4096
    requires bytes[pos + 1] == 0x80 + (c as int / 64) % 64 && bytes[pos + 2] == 0x80 + c as int % 64
    ensures DecodeChar(bytes, pos) == Some((c, pos + 3))
  {
    var cp := c as int;
    assert (cp / 4096) * 4096 + ((cp / 64) % 64) * 64 + cp % 64 == cp;
  }

  lemma FourByteRoundTrip(c: char, bytes: seq<byte>, pos: nat)
    requires 0x10000 <= c as int && pos + 4 <= |bytes|
    requires bytes[pos] == 0xF0 + c as int / 262144 && bytes[pos + 1] == 0x80 + (c as int / 4096) % 64
    requires bytes[pos + 2] == 0x80 + (c as int / 64) % 64 && bytes[pos + 3] == 0x80 + c as int % 64
    ensures DecodeChar(bytes, pos) == Some((c, pos + 4))
  {
    var cp := c as int;
    var hi, mid := cp / 4096, cp / 64;
    assert cp == mid * 64 + cp % 64;
    assert mid == hi * 64 + mid % 64;
    assert hi == (cp / 262144) * 64 + hi % 64;
    assert cp / 262144 <= 4;
  }

  /** How decoding proceeds once one character is read. */
  lemma DecodeFromStep(bytes: seq<byte>, pos: nat, c: char, next: nat, t: string)
    requires pos < |bytes| && DecodeChar(bytes, pos) == Some((c, next)) && DecodeFrom(bytes, next) == Some(t)
    ensures DecodeFrom(bytes, pos) == Some([c] + t)
  {
  }

  /** A character's bytes followed by decodable text decode to that character and the text. */
  lemma DecodeFromCons(c: char, bytes: seq<byte>, pos: nat, t: string)
    requires pos + |EncodeChar(c)| <= |bytes|
    requires bytes[pos..pos + |EncodeChar(c)|] == EncodeChar(c)
    requires DecodeFrom(bytes, pos + |EncodeChar(c)|) == Some(t)
    ensures DecodeFrom(bytes, pos) == Some([c] + t)
  {
    CharRoundTrip(c, bytes, pos);
    DecodeFromStep(bytes, pos, c, pos + |EncodeChar(c)|, t);
  }

  /** The bytes of the first character, then those of the rest. */
  lemma SplitFirst(s: string, bytes: seq<byte>, pos: nat)
    requires s != [] && pos + |Encode(s)| == |bytes| && bytes[pos..] == Encode(s)
    ensures pos + |EncodeChar(s[0])| + |Encode(s[1..])| == |bytes|
    ensures bytes[pos..pos + |EncodeChar(s[0])|] == EncodeChar(s[0])
    ensures bytes[pos + |EncodeChar(s[0])|..] == Encode(s[1..])
  {
    var e := EncodeChar(s[0]);
    assert Encode(s) == e + Encode(s[1..]);
    assert bytes[pos..pos + |e|] == bytes[pos..][..|e|];
  }

  lemma {:induction false} RoundTripFrom(s: string, bytes: seq<byte>, pos: nat)
    requires pos + |Encode(s)| == |bytes|
    requires bytes[pos..] == Encode(s)
    ensures DecodeFrom(bytes, pos) == Some(s)
    decreases s
  {
    if s != [] {
      SplitFirst(s, bytes, pos);
      RoundTripFrom(s[1..], bytes, pos + |EncodeChar(s[0])|);
      DecodeFromCons(s[0], bytes, pos, s[1..]);
      assert [s[0]] + s[1..] == s;
    }
  }

  /** Decoding undoes encoding, so `Encode` is injective. */
  lemma RoundTrip(s: string)
    ensures Decode(Encode(s)) == Some(s)
  {
    RoundTripFrom(s, Encode(s), 0);
  }

  predicate IsAscii(s: string) { forall i :: 0 <= i < |s| ==> s[i] as int < 0x80 }

  /** ASCII text (every field name of a request) encodes one byte per character. */
  lemma {:induction false} AsciiEncoding(s: string)
    requires IsAscii(s)
    ensures |Encode(s)| == |s|
    ensures forall i :: 0 <= i < |s| ==> Encode(s)[i] == s[i] as int
    decreases s
  {
    if s != [] {
      AsciiEncoding(s[1..]);
    }
  }
}
