/**
 * Unsigned LEB128 as given in section 7.6 of DWARF version 4: seven payload
 * bits per byte, least-significant group first, the high bit set on every
 * byte except the last. The repository's own `Leb128` object is not part of
 * this model; this is the standard encoding it is assumed to implement.
 */
module Leb128 {
  import opened Common

  /** `Leb128.writeUnsigned`: the bytes written for `n`. */
  function EncodeUnsigned(n: nat): (r: seq<byte>)
    ensures |r| >= 1
    decreases n
  {
    if n < 128 then [n] else [n % 128 + 128] + EncodeUnsigned(n / 128)
  }

  /** `Leb128.sizeUnsigned`: the byte count predicted before writing. */
  function SizeUnsigned(n: nat): (k: nat)
    ensures k >= 1
    decreases n
  {
    if n < 128 then 1 else 1 + SizeUnsigned(n / 128)
  }

  /** The value of the groups' payloads, least significant first. */
  function ValueOf(bytes: seq<byte>): nat
  {
    if bytes == [] then 0 else bytes[0] % 128 + 128 * ValueOf(bytes[1..])
  }

  datatype ReadError = UnexpectedEndOfInput

  /** `Leb128.readUnsigned`: the value at `pos` and the position after it. */
  function ReadUnsigned(input: seq<byte>, pos: nat): (r: Result<(nat, nat), ReadError>)
    requires pos <= |input|
    ensures r.Ok? ==> pos < r.value.1 <= |input|
    decreases |input| - pos
  {
    if pos == |input| then Err(UnexpectedEndOfInput)
    else if input[pos] < 128 then Ok((input[pos], pos + 1))
    else
      match ReadUnsigned(input, pos + 1)
      case Err(e) => Err(e)
      case Ok((m, q)) => Ok((input[pos] - 128 + 128 * m, q))
  }

  /** The value read is the value of the groups consumed. */
  lemma {:induction false} ReadUnsignedValue(input: seq<byte>, pos: nat)
    requires pos <= |input|
    ensures var r := ReadUnsigned(input, pos);
      r.Ok? ==> r.value.0 == ValueOf(input[pos..r.value.1])
    decreases |input| - pos
  {
    if pos < |input| {
      if input[pos] < 128 {
        assert input[pos..pos + 1] == [input[pos]];
      } else if ReadUnsigned(input, pos + 1).Ok? {
        ReadUnsignedValue(input, pos + 1);
        var q := ReadUnsigned(input, pos + 1).value.1;
        assert input[pos..q][1..] == input[pos + 1..q];
      }
    }
  }

  /** Every byte of an encoding but the last has its high bit set. */
  lemma {:induction false} EncodingStopBits(n: nat)
    ensures var r := EncodeUnsigned(n);
      r[|r| - 1] < 128 && forall i :: 0 <= i < |r| - 1 ==> r[i] >= 128
    decreases n
  {
    if n >= 128 {
      EncodingStopBits(n / 128);
    }
  }

  /**
   * Reading stops at the first byte below 128 from `pos` on, and fails
   * exactly when the input ends before one.
   */
  lemma {:induction false} ReadUnsignedStops(input: seq<byte>, pos: nat)
    requires pos <= |input|
    ensures var r := ReadUnsigned(input, pos);
      && (r.Ok? ==> input[r.value.1 - 1] < 128 && forall i :: pos <= i < r.value.1 - 1 ==> input[i] >= 128)
      && (r.Err? <==> forall i :: pos <= i < |input| ==> input[i] >= 128)
    decreases |input| - pos
  {
    if pos < |input| && input[pos] >= 128 {
      ReadUnsignedStops(input, pos + 1);
    }
  }

  /** The size predicted is the size written. */
  lemma {:induction false} SizeMatchesEncoding(n: nat)
    ensures |EncodeUnsigned(n)| == SizeUnsigned(n)
    decreases n
  {
    if n >= 128 {
      SizeMatchesEncoding(n / 128);
    }
  }

  /** The encoding's payload groups spell the value. */
  lemma {:induction false} ValueOfEncoding(n: nat)
    ensures ValueOf(EncodeUnsigned(n)) == n
    decreases n
  {
    if n >= 128 {
      ValueOfEncoding(n / 128);
      assert EncodeUnsigned(n)[1..] == EncodeUnsigned(n / 128);
    }
  }

  /** Reading at a position where the encoding of `n` was written. */
  lemma {:induction false} ReadEncoded(input: seq<byte>, pos: nat, n: nat)
    requires pos + |EncodeUnsigned(n)| <= |input|
    requires input[pos..pos + |EncodeUnsigned(n)|] == EncodeUnsigned(n)
    ensures ReadUnsigned(input, pos) == Ok((n, pos + SizeUnsigned(n)))
    decreases n
  {
    var e := EncodeUnsigned(n);
    assert input[pos] == e[0];
    if n >= 128 {
      var tail := EncodeUnsigned(n / 128);
      assert e == [n % 128 + 128] + tail;
      assert input[pos + 1..pos + 1 + |tail|] == input[pos..pos + |e|][1..];
      ReadEncoded(input, pos + 1, n / 128);
    }
  }

  /** Reading back what was written, whatever precedes and follows it. */
  lemma RoundTrip(prefix: seq<byte>, n: nat, rest: seq<byte>)
    ensures ReadUnsigned(prefix + EncodeUnsigned(n) + rest, |prefix|)
         == Ok((n, |prefix| + SizeUnsigned(n)))
  {
    var e := EncodeUnsigned(n);
    var input := prefix + e + rest;
    assert input[|prefix|..|prefix| + |e|] == e;
    ReadEncoded(input, |prefix|, n);
  }

}
