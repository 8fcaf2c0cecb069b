/**
 * The behaviour of the `ValueSer` objects that `transpileRecord` and
 * `transpileVariant` emit, as runtime-dispatched functions over a closed
 * type and value algebra: `calcSizeBytes` is `SizeOf`, `ser` is `Ser`
 * (appending to what the buffer already holds) and `deser` is `Deser`
 * (a cursor over immutable input). `NatType` stands for the primitive
 * leaf serialisers, which write unsigned LEB128.
 */
module Codec {
  import opened Common
  import opened Leb128

  datatype IdlType =
    | NullType
    | NatType
    | RecordType(fields: seq<Field>)
    | VariantType(fields: seq<Field>)

  /** `IDLFieldType`: an optional name, the declared `idx`, the field's type. */
  datatype Field = Field(name: Option<string>, idx: nat, ty: IdlType)

  /**
   * Values of the generated classes: a record holds its constructor
   * arguments in field-list order; a variant is the branch at position `tag`
   * (a Null branch's object carries `NullValue`).
   */
  datatype Value =
    | NullValue
    | NatValue(n: nat)
    | RecordValue(items: seq<Value>)
    | VariantValue(tag: nat, payload: Value)

  /** What a failing `deser` throws: buffer underflow, or the `else` branch of the tag `when`. */
  datatype DecodeError = BufferUnderflow | UnknownVariantTag

  /** The Kotlin type of the generated class accepts the value. */
  predicate Conforms(t: IdlType, v: Value)
    decreases t
  {
    match t
    case NullType => v.NullValue?
    case NatType => v.NatValue?
    case RecordType(fs) =>
      && v.RecordValue? && |v.items| == |fs|
      && forall i :: 0 <= i < |fs| ==> Conforms(fs[i].ty, v.items[i])
    case VariantType(fs) =>
      && v.VariantValue? && v.tag < |fs|
      && Conforms(fs[v.tag].ty, v.payload)
  }

  predicate FieldsConform(fs: seq<Field>, vs: seq<Value>, i: nat)
  {
    i <= |fs| == |vs| && forall j :: i <= j < |fs| ==> Conforms(fs[j].ty, vs[j])
  }

  // ---------------------------------------------------------------------
  // calcSizeBytes
  // ---------------------------------------------------------------------

  /** `calcSizeBytes`. */
  function SizeOf(t: IdlType, v: Value): nat
    requires Conforms(t, v)
    decreases t, 1, 0
  {
    match t
    case NullType => 0
    case NatType => SizeUnsigned(v.n)
    case RecordType(fs) => SizeOfFields(fs, v.items, 0)
    case VariantType(fs) =>
      if fs[v.tag].ty.NullType? then SizeUnsigned(v.tag)
      else SizeUnsigned(v.tag) + SizeOf(fs[v.tag].ty, v.payload)
  }

  /** The record's `field1 + field2 + ...` from field `i` on; `0` when none remain. */
  function SizeOfFields(fs: seq<Field>, vs: seq<Value>, i: nat): nat
    requires FieldsConform(fs, vs, i)
    decreases RecordType(fs), 0, |fs| - i
  {
    if i == |fs| then 0 else SizeOf(fs[i].ty, vs[i]) + SizeOfFields(fs, vs, i + 1)
  }

  // ---------------------------------------------------------------------
  // ser
  // ---------------------------------------------------------------------

  /** `ser(buf, value)`: `out` is what the buffer held before, the result what it holds after. */
  function Ser(t: IdlType, v: Value, out: seq<byte>): seq<byte>
    requires Conforms(t, v)
    decreases t, 1, 0
  {
    match t
    case NullType => out
    case NatType => out + EncodeUnsigned(v.n)
    case RecordType(fs) => SerFields(fs, v.items, 0, out)
    case VariantType(fs) =>
      if fs[v.tag].ty.NullType? then out + EncodeUnsigned(v.tag)
      else Ser(fs[v.tag].ty, v.payload, out + EncodeUnsigned(v.tag))
  }

  /** The record's `ser` statements for fields `i..`, one after another. */
  function SerFields(fs: seq<Field>, vs: seq<Value>, i: nat, out: seq<byte>): seq<byte>
    requires FieldsConform(fs, vs, i)
    decreases RecordType(fs), 0, |fs| - i
  {
    if i == |fs| then out else SerFields(fs, vs, i + 1, Ser(fs[i].ty, vs[i], out))
  }

  /** The bytes `ser` writes into an empty buffer. */
  function Encode(t: IdlType, v: Value): seq<byte>
    requires Conforms(t, v)
  {
    Ser(t, v, [])
  }

  // ---------------------------------------------------------------------
  // deser
  // ---------------------------------------------------------------------

  /** `deser(buf)` with the buffer's position at `pos`: the value and the position after it. */
  function Deser(t: IdlType, input: seq<byte>, pos: nat): (r: Result<(Value, nat), DecodeError>)
    requires pos <= |input|
    ensures r.Ok? ==> pos <= r.value.1 <= |input| && Conforms(t, r.value.0)
    decreases t, 1, 0
  {
    match t
    case NullType => Ok((NullValue, pos))
    case NatType =>
      (match ReadUnsigned(input, pos)
       case Err(_) => Err(BufferUnderflow)
       case Ok((n, p)) => Ok((NatValue(n), p)))
    case RecordType(fs) =>
      (match DeserFields(fs, input, pos, 0)
       case Err(e) => Err(e)
       case Ok((vs, p)) => Ok((RecordValue(vs), p)))
    case VariantType(fs) =>
      match ReadUnsigned(input, pos)
      case Err(_) => Err(BufferUnderflow)
      case Ok((idx, p)) =>
        if idx < |fs| then
          if fs[idx].ty.NullType? then Ok((VariantValue(idx, NullValue), p))
          else
            (match Deser(fs[idx].ty, input, p)
             case Err(e) => Err(e)
             case Ok((payload, q)) => Ok((VariantValue(idx, payload), q)))
        else Err(UnknownVariantTag)
  }

  /** The record constructor's arguments `deser(buf), deser(buf), ...` for fields `i..`. */
  function DeserFields(fs: seq<Field>, input: seq<byte>, pos: nat, i: nat): (r: Result<(seq<Value>, nat), DecodeError>)
    requires pos <= |input| && i <= |fs|
    ensures r.Ok? ==> pos <= r.value.1 <= |input| && FieldsConform(fs[i..], r.value.0, 0)
    decreases RecordType(fs), 0, |fs| - i
  {
    if i == |fs| then Ok(([], pos))
    else
      match Deser(fs[i].ty, input, pos)
      case Err(e) => Err(e)
      case Ok((v, p)) =>
        match DeserFields(fs, input, p, i + 1)
        case Err(e) => Err(e)
        case Ok((vs, q)) =>
          assert forall j :: 1 <= j < |fs[i..]| ==> fs[i..][j] == fs[i + 1..][j - 1];
          Ok(([v] + vs, q))
  }

  // ---------------------------------------------------------------------
  // ser appends
  // ---------------------------------------------------------------------

  /** `ser` leaves what the buffer held untouched and writes after it. */
  lemma {:induction false} SerAppends(t: IdlType, v: Value, out: seq<byte>)
    requires Conforms(t, v)
    ensures Ser(t, v, out) == out + Encode(t, v)
    decreases t, 1, 0
  {
    match t
    case NullType =>
    case NatType =>
      assert Encode(t, v) == EncodeUnsigned(v.n);
    case RecordType(fs) =>
      SerFieldsAppends(fs, v.items, 0, out);
    case VariantType(fs) =>
      var tag := EncodeUnsigned(v.tag);
      assert [] + tag == tag;
      if !fs[v.tag].ty.NullType? {
        var u := fs[v.tag].ty;
        SerAppends(u, v.payload, out + tag);
        SerAppends(u, v.payload, tag);
        calc {
          Ser(t, v, out);
          Ser(u, v.payload, out + tag);
          out + tag + Encode(u, v.payload);
          out + (tag + Encode(u, v.payload));
          out + Ser(u, v.payload, tag);
          out + Encode(t, v);
        }
      }
  }

  lemma {:induction false} SerFieldsAppends(fs: seq<Field>, vs: seq<Value>, i: nat, out: seq<byte>)
    requires FieldsConform(fs, vs, i)
    ensures SerFields(fs, vs, i, out) == out + SerFields(fs, vs, i, [])
    decreases RecordType(fs), 0, |fs| - i
  {
    if i < |fs| {
      var e := Encode(fs[i].ty, vs[i]);
      SerAppends(fs[i].ty, vs[i], out);
      SerFieldsAppends(fs, vs, i + 1, out + e);
      SerFieldsAppends(fs, vs, i + 1, e);
      assert SerFields(fs, vs, i, []) == SerFields(fs, vs, i + 1, e);
    }
  }

  // ---------------------------------------------------------------------
  // Size agrees with ser
  // ---------------------------------------------------------------------

  /** `calcSizeBytes(v)` is the number of bytes `ser` writes for `v`. */
  lemma {:induction false} SizeMatchesSer(t: IdlType, v: Value)
    requires Conforms(t, v)
    ensures |Encode(t, v)| == SizeOf(t, v)
    decreases t, 1, 0
  {
    match t
    case NullType =>
    case NatType =>
      SizeMatchesEncoding(v.n);
    case RecordType(fs) =>
      SizeMatchesSerFields(fs, v.items, 0);
    case VariantType(fs) =>
      SizeMatchesEncoding(v.tag);
      if !fs[v.tag].ty.NullType? {
        SerAppends(fs[v.tag].ty, v.payload, [] + EncodeUnsigned(v.tag));
        SizeMatchesSer(fs[v.tag].ty, v.payload);
      }
  }

  lemma {:induction false} SizeMatchesSerFields(fs: seq<Field>, vs: seq<Value>, i: nat)
    requires FieldsConform(fs, vs, i)
    ensures |SerFields(fs, vs, i, [])| == SizeOfFields(fs, vs, i)
    decreases RecordType(fs), 0, |fs| - i
  {
    if i < |fs| {
      var e := Encode(fs[i].ty, vs[i]);
      SizeMatchesSer(fs[i].ty, vs[i]);
      SerFieldsAppends(fs, vs, i + 1, e);
      SizeMatchesSerFields(fs, vs, i + 1);
    }
  }

  // ---------------------------------------------------------------------
  // Record layout
  // ---------------------------------------------------------------------

  function Join(parts: seq<seq<byte>>): seq<byte>
  {
    if parts == [] then [] else parts[0] + Join(parts[1..])
  }

  function Sum(ns: seq<nat>): nat
  {
    if ns == [] then 0 else ns[0] + Sum(ns[1..])
  }

  /** Each field's own encoding, in field-list order. */
  function FieldEncodings(fs: seq<Field>, vs: seq<Value>): (es: seq<seq<byte>>)
    requires FieldsConform(fs, vs, 0)
    ensures |es| == |fs| && forall i :: 0 <= i < |fs| ==> es[i] == Encode(fs[i].ty, vs[i])
  {
    seq(|fs|, i requires 0 <= i < |fs| => Encode(fs[i].ty, vs[i]))
  }

  function FieldSizes(fs: seq<Field>, vs: seq<Value>): (ns: seq<nat>)
    requires FieldsConform(fs, vs, 0)
    ensures |ns| == |fs| && forall i :: 0 <= i < |fs| ==> ns[i] == SizeOf(fs[i].ty, vs[i])
  {
    seq(|fs|, i requires 0 <= i < |fs| => SizeOf(fs[i].ty, vs[i]))
  }

  lemma {:induction false} SerFieldsIsJoin(fs: seq<Field>, vs: seq<Value>, i: nat)
    requires FieldsConform(fs, vs, 0) && i <= |fs|
    ensures SerFields(fs, vs, i, []) == Join(FieldEncodings(fs, vs)[i..])
    ensures SizeOfFields(fs, vs, i) == Sum(FieldSizes(fs, vs)[i..])
    decreases |fs| - i
  {
    if i < |fs| {
      SerFieldsIsJoin(fs, vs, i + 1);
      SerFieldsAppends(fs, vs, i + 1, Encode(fs[i].ty, vs[i]));
      assert FieldEncodings(fs, vs)[i..][1..] == FieldEncodings(fs, vs)[i + 1..];
      assert FieldSizes(fs, vs)[i..][1..] == FieldSizes(fs, vs)[i + 1..];
    }
  }

  /**
   * A record writes its fields' encodings one after another in field-list
   * order, and its size is the sum of its fields' sizes (0 without fields).
   */
  lemma RecordLayout(fs: seq<Field>, vs: seq<Value>)
    requires Conforms(RecordType(fs), RecordValue(vs))
    ensures Encode(RecordType(fs), RecordValue(vs)) == Join(FieldEncodings(fs, vs))
    ensures SizeOf(RecordType(fs), RecordValue(vs)) == Sum(FieldSizes(fs, vs))
    ensures fs == [] ==> SizeOf(RecordType(fs), RecordValue(vs)) == 0 && Encode(RecordType(fs), RecordValue(vs)) == []
  {
    SerFieldsIsJoin(fs, vs, 0);
    assert FieldEncodings(fs, vs)[0..] == FieldEncodings(fs, vs);
    assert FieldSizes(fs, vs)[0..] == FieldSizes(fs, vs);
  }

  // ---------------------------------------------------------------------
  // Variant layout
  // ---------------------------------------------------------------------

  /**
   * A branch is written as its position in the field list (whatever its
   * declared `idx`) in unsigned LEB128, then its payload unless it is
   * a Null branch; the size is `sizeUnsigned(position)` plus the payload's.
   */
  lemma VariantLayout(fs: seq<Field>, k: nat, payload: Value)
    requires Conforms(VariantType(fs), VariantValue(k, payload))
    ensures fs[k].ty.NullType? ==> Encode(VariantType(fs), VariantValue(k, payload)) == EncodeUnsigned(k)
    ensures !fs[k].ty.NullType? ==>
      Encode(VariantType(fs), VariantValue(k, payload)) == EncodeUnsigned(k) + Encode(fs[k].ty, payload)
    ensures fs[k].ty.NullType? ==> SizeOf(VariantType(fs), VariantValue(k, payload)) == SizeUnsigned(k)
    ensures !fs[k].ty.NullType? ==>
      SizeOf(VariantType(fs), VariantValue(k, payload)) == SizeUnsigned(k) + SizeOf(fs[k].ty, payload)
  {
    assert [] + EncodeUnsigned(k) == EncodeUnsigned(k);
    if !fs[k].ty.NullType? {
      SerAppends(fs[k].ty, payload, EncodeUnsigned(k));
    }
  }

  /** A tag outside `0..|fs|-1` is rejected; one inside selects that branch. */
  lemma VariantTagDecoding(fs: seq<Field>, input: seq<byte>, pos: nat)
    requires pos <= |input| && ReadUnsigned(input, pos).Ok?
    ensures ReadUnsigned(input, pos).value.0 >= |fs| ==> Deser(VariantType(fs), input, pos) == Err(UnknownVariantTag)
    ensures Deser(VariantType(fs), input, pos).Ok? ==>
      Deser(VariantType(fs), input, pos).value.0.tag == ReadUnsigned(input, pos).value.0 < |fs|
    ensures var (idx, p) := ReadUnsigned(input, pos).value;
      idx < |fs| && fs[idx].ty.NullType? ==> Deser(VariantType(fs), input, pos) == Ok((VariantValue(idx, NullValue), p))
  {
  }

  // ---------------------------------------------------------------------
  // Round trip
  // ---------------------------------------------------------------------

  /** `bytes` occur in `input` starting at `pos`. */
  predicate EncodedAt(input: seq<byte>, pos: nat, bytes: seq<byte>)
  {
    pos + |bytes| <= |input| && input[pos..pos + |bytes|] == bytes
  }

  lemma SplitAt(input: seq<byte>, pos: nat, a: seq<byte>, b: seq<byte>)
    requires EncodedAt(input, pos, a + b)
    ensures EncodedAt(input, pos, a) && EncodedAt(input, pos + |a|, b)
  {
    assert input[pos..pos + |a|] == (a + b)[..|a|];
    assert input[pos + |a|..pos + |a| + |b|] == (a + b)[|a|..];
  }

  /** How `deser` of a variant proceeds once the tag is read. */
  lemma DeserVariantStep(fs: seq<Field>, input: seq<byte>, pos: nat, k: nat, p: nat)
    requires pos <= |input| && ReadUnsigned(input, pos) == Ok((k, p)) && k < |fs|
    ensures fs[k].ty.NullType? ==> Deser(VariantType(fs), input, pos) == Ok((VariantValue(k, NullValue), p))
    ensures !fs[k].ty.NullType? && Deser(fs[k].ty, input, p).Ok? ==>
      Deser(VariantType(fs), input, pos)
        == Ok((VariantValue(k, Deser(fs[k].ty, input, p).value.0), Deser(fs[k].ty, input, p).value.1))
  {
  }

  /** Wherever `ser`'s bytes for `v` occur, `deser` there returns `v` and the position just after them. */
  lemma {:induction false} DecodeAt(t: IdlType, v: Value, input: seq<byte>, pos: nat)
    requires Conforms(t, v) && EncodedAt(input, pos, Encode(t, v))
    ensures Deser(t, input, pos) == Ok((v, pos + SizeOf(t, v)))
    decreases t, 1, 0
  {
    match t
    case NullType =>
    case NatType =>
      DecodeNat(t, v, input, pos);
    case RecordType(fs) =>
      DecodeRecord(t, v, input, pos);
    case VariantType(fs) =>
      DecodeVariant(t, v, input, pos);
  }

  lemma DecodeNat(t: IdlType, v: Value, input: seq<byte>, pos: nat)
    requires t.NatType? && Conforms(t, v) && EncodedAt(input, pos, Encode(t, v))
    ensures Deser(t, input, pos) == Ok((v, pos + SizeOf(t, v)))
  {
    assert Encode(t, v) == EncodeUnsigned(v.n);
    ReadEncoded(input, pos, v.n);
  }

  lemma {:induction false} DecodeRecord(t: IdlType, v: Value, input: seq<byte>, pos: nat)
    requires t.RecordType? && Conforms(t, v) && EncodedAt(input, pos, Encode(t, v))
    ensures Deser(t, input, pos) == Ok((v, pos + SizeOf(t, v)))
    decreases t, 0, |t.fields| + 1
  {
    assert Encode(t, v) == SerFields(t.fields, v.items, 0, []);
    DecodeFieldsAt(t.fields, v.items, 0, input, pos);
    assert v.items[0..] == v.items;
  }

  lemma {:induction false} DecodeVariant(t: IdlType, v: Value, input: seq<byte>, pos: nat)
    requires t.VariantType? && Conforms(t, v) && EncodedAt(input, pos, Encode(t, v))
    ensures Deser(t, input, pos) == Ok((v, pos + SizeOf(t, v)))
    decreases t, 0, 0
  {
    var fs, k := t.fields, v.tag;
    VariantLayout(fs, k, v.payload);
    if fs[k].ty.NullType? {
      DecodeNullBranch(fs, k, input, pos);
    } else {
      DecodePayloadBranch(fs, k, v.payload, input, pos);
    }
  }

  /** A Null branch is decoded from its tag alone. */
  lemma DecodeNullBranch(fs: seq<Field>, k: nat, input: seq<byte>, pos: nat)
    requires k < |fs| && fs[k].ty.NullType? && EncodedAt(input, pos, EncodeUnsigned(k))
    ensures Deser(VariantType(fs), input, pos) == Ok((VariantValue(k, NullValue), pos + SizeUnsigned(k)))
  {
    ReadEncoded(input, pos, k);
    DeserVariantStep(fs, input, pos, k, pos + SizeUnsigned(k));
  }

  /** Any other branch is decoded from its tag, then its payload. */
  lemma {:induction false} DecodePayloadBranch(fs: seq<Field>, k: nat, payload: Value, input: seq<byte>, pos: nat)
    requires k < |fs| && !fs[k].ty.NullType? && Conforms(fs[k].ty, payload)
    requires EncodedAt(input, pos, EncodeUnsigned(k) + Encode(fs[k].ty, payload))
    ensures Deser(VariantType(fs), input, pos)
         == Ok((VariantValue(k, payload), pos + SizeUnsigned(k) + SizeOf(fs[k].ty, payload)))
    decreases fs[k].ty, 2, 0
  {
    var tag := EncodeUnsigned(k);
    SplitAt(input, pos, tag, Encode(fs[k].ty, payload));
    SizeMatchesEncoding(k);
    ReadEncoded(input, pos, k);
    DecodeAt(fs[k].ty, payload, input, pos + |tag|);
    DeserVariantStep(fs, input, pos, k, pos + |tag|);
  }

  /** The record's field `deser`s, from field `i` on, read back what its field `ser`s wrote. */
  lemma {:induction false} DecodeFieldsAt(fs: seq<Field>, vs: seq<Value>, i: nat, input: seq<byte>, pos: nat)
    requires FieldsConform(fs, vs, i) && EncodedAt(input, pos, SerFields(fs, vs, i, []))
    ensures DeserFields(fs, input, pos, i) == Ok((vs[i..], pos + SizeOfFields(fs, vs, i)))
    decreases RecordType(fs), 0, |fs| - i
  {
    if i == |fs| {
      assert vs[i..] == [];
    } else {
      var p := pos + SizeOf(fs[i].ty, vs[i]);
      DecodeFirstField(fs, vs, i, input, pos);
      DecodeFieldsAt(fs, vs, i + 1, input, p);
      DeserFieldsStep(fs, input, pos, i, p);
      assert [vs[i]] + vs[i + 1..] == vs[i..];
    }
  }

  /** Field `i` is read back, and the remaining fields' bytes follow it. */
  lemma {:induction false} DecodeFirstField(fs: seq<Field>, vs: seq<Value>, i: nat, input: seq<byte>, pos: nat)
    requires FieldsConform(fs, vs, i) && i < |fs| && EncodedAt(input, pos, SerFields(fs, vs, i, []))
    ensures Deser(fs[i].ty, input, pos) == Ok((vs[i], pos + SizeOf(fs[i].ty, vs[i])))
    ensures EncodedAt(input, pos + SizeOf(fs[i].ty, vs[i]), SerFields(fs, vs, i + 1, []))
    decreases RecordType(fs), 0, |fs| - i - 1
  {
    var e := Encode(fs[i].ty, vs[i]);
    SerFieldsAppends(fs, vs, i + 1, e);
    assert SerFields(fs, vs, i, []) == e + SerFields(fs, vs, i + 1, []);
    SplitAt(input, pos, e, SerFields(fs, vs, i + 1, []));
    DecodeAt(fs[i].ty, vs[i], input, pos);
    SizeMatchesSer(fs[i].ty, vs[i]);
  }

  /** How the record's field `deser`s proceed once field `i` is read. */
  lemma DeserFieldsStep(fs: seq<Field>, input: seq<byte>, pos: nat, i: nat, p: nat)
    requires pos <= |input| && i < |fs|
    requires Deser(fs[i].ty, input, pos).Ok? && Deser(fs[i].ty, input, pos).value.1 == p
    requires DeserFields(fs, input, p, i + 1).Ok?
    ensures DeserFields(fs, input, pos, i)
         == Ok(([Deser(fs[i].ty, input, pos).value.0] + DeserFields(fs, input, p, i + 1).value.0,
                DeserFields(fs, input, p, i + 1).value.1))
  {
  }

  /** `deser` reads back exactly what `ser` wrote, whatever surrounds it. */
  lemma RoundTrip(t: IdlType, v: Value, prefix: seq<byte>, rest: seq<byte>)
    requires Conforms(t, v)
    ensures Deser(t, prefix + Encode(t, v) + rest, |prefix|) == Ok((v, |prefix| + SizeOf(t, v)))
  {
    var e := Encode(t, v);
    assert (prefix + e + rest)[|prefix|..|prefix| + |e|] == e;
    DecodeAt(t, v, prefix + e + rest, |prefix|);
  }

  /** The same for a record's fields from `i` on. */
  lemma RoundTripFields(fs: seq<Field>, vs: seq<Value>, i: nat, prefix: seq<byte>, rest: seq<byte>)
    requires FieldsConform(fs, vs, i)
    ensures DeserFields(fs, prefix + SerFields(fs, vs, i, []) + rest, |prefix|, i)
         == Ok((vs[i..], |prefix| + SizeOfFields(fs, vs, i)))
  {
    var e := SerFields(fs, vs, i, []);
    assert (prefix + e + rest)[|prefix|..|prefix| + |e|] == e;
    DecodeFieldsAt(fs, vs, i, prefix + e + rest, |prefix|);
  }
}
