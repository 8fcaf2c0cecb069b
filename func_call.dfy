/**
 * What the class `transpileFunc` emits does when invoked: the static
 * payload baked into its companion object, the send buffer, the choice
 * between `call` and `query`, and the decoding of the results by arity.
 * `TypeTable`, `getTypeSerForType`, `MAGIC_PREFIX` and
 * `TypeDeser.deserUntilM` are not part of this model: the first two are
 * inputs given as the size they report and the bytes they write, the
 * prefix is an input, and `deserUntilM` is a function parameter.
 */
module FuncCall {
  import opened Common
  import opened Leb128
  import opened ByteBuffers
  import opened Codec
  import opened Requests

  /** `IDLFuncAnn`. */
  datatype FuncAnn = Oneway | Query

  /** `IDLType.Reference.Func`: argument types, result types and annotations. */
  datatype FuncType = FuncType(arguments: seq<IdlType>, results: seq<IdlType>, annotations: seq<FuncAnn>)

  /** A serialised artefact whose writer is not modelled: the size it reports and the bytes it writes. */
  datatype Image = Image(sizeBytes: nat, bytes: seq<byte>)

  /** The one contract assumed of `TypeTable` and the type serialisers: the size reported is the size written. */
  predicate Consistent(img: Image)
  {
    img.sizeBytes == |img.bytes|
  }

  predicate AllConsistent(imgs: seq<Image>)
  {
    forall i :: 0 <= i < |imgs| ==> Consistent(imgs[i])
  }

  function JoinImages(imgs: seq<Image>): seq<byte>
  {
    if imgs == [] then [] else imgs[0].bytes + JoinImages(imgs[1..])
  }

  function SumSizes(imgs: seq<Image>): nat
  {
    if imgs == [] then 0 else imgs[0].sizeBytes + SumSizes(imgs[1..])
  }

  lemma {:induction false} JoinImagesSize(imgs: seq<Image>)
    requires AllConsistent(imgs)
    ensures |JoinImages(imgs)| == SumSizes(imgs)
  {
    if imgs != [] {
      JoinImagesSize(imgs[1..]);
    }
  }

  /** Moving image `i` from the images still to write onto what has been written. */
  lemma JoinStep(imgs: seq<Image>, i: nat, written: seq<byte>)
    requires i < |imgs|
    ensures written + JoinImages(imgs[i..]) == written + imgs[i].bytes + JoinImages(imgs[i + 1..])
    ensures |JoinImages(imgs[i..])| == |imgs[i].bytes| + |JoinImages(imgs[i + 1..])|
  {
    assert imgs[i..][1..] == imgs[i + 1..];
  }

  /** `MAGIC_PREFIX.size + requestTypeTable.sizeBytes() + typesSizeBytes`. */
  function StaticPayloadSize(magic: seq<byte>, table: Image, argTypeSers: seq<Image>): nat
  {
    |magic| + table.sizeBytes + (SizeUnsigned(|argTypeSers|) + SumSizes(argTypeSers))
  }

  /**
   * The static payload: `MAGIC_PREFIX`, the type table, the argument count
   * in LEB128, each argument's type in argument order; the buffer allocated
   * for it is exactly filled.
   */
  method BuildStaticPayload(magic: seq<byte>, table: Image, argTypeSers: seq<Image>) returns (payload: seq<byte>)
    requires Consistent(table) && AllConsistent(argTypeSers)
    ensures payload == magic + table.bytes + EncodeUnsigned(|argTypeSers|) + JoinImages(argTypeSers)
    ensures |payload| == StaticPayloadSize(magic, table, argTypeSers)
  {
    var size := StaticPayloadSize(magic, table, argTypeSers);
    JoinImagesSize(argTypeSers);
    SizeMatchesEncoding(|argTypeSers|);
    var buf := new ByteBuffer.Allocate(size);
    assert buf.Holds([]);
    Append(buf, [], magic);
    assert [] + magic == magic;
    Append(buf, magic, table.bytes);
    Append(buf, magic + table.bytes, EncodeUnsigned(|argTypeSers|));
    ghost var header := magic + table.bytes + EncodeUnsigned(|argTypeSers|);
    ghost var written := header;
    assert argTypeSers[0..] == argTypeSers;
    for i := 0 to |argTypeSers|
      invariant buf.Valid() && buf.data.Length == size
      invariant buf.Holds(written)
      invariant written + JoinImages(argTypeSers[i..]) == header + JoinImages(argTypeSers)
      invariant |written| + |JoinImages(argTypeSers[i..])| == size
    {
      var b: seq<byte> := argTypeSers[i].bytes;
      JoinStep(argTypeSers, i, written);
      Append(buf, written, b);
      written := written + b;
    }
    buf.Rewind();
    var ok;
    ok, payload := buf.Get(size);
    assert buf.data[0..size] == buf.data[..];
  }

  // ---------------------------------------------------------------------
  // The send buffer
  // ---------------------------------------------------------------------

  predicate ArgsConform(ts: seq<IdlType>, vs: seq<Value>)
  {
    |ts| == |vs| && forall i :: 0 <= i < |ts| ==> Conforms(ts[i], vs[i])
  }

  /** The `argN ValueSer.ser(sendBuf, argN)` statements, in argument order, after `out`. */
  function SerArgs(ts: seq<IdlType>, vs: seq<Value>, out: seq<byte>): seq<byte>
    requires ArgsConform(ts, vs)
  {
    if ts == [] then out else SerArgs(ts[1..], vs[1..], Ser(ts[0], vs[0], out))
  }

  /** `valueSizeBytes`: `0 + arg0 size + arg1 size + ...`. */
  function ArgsSize(ts: seq<IdlType>, vs: seq<Value>): nat
    requires ArgsConform(ts, vs)
  {
    if ts == [] then 0 else SizeOf(ts[0], vs[0]) + ArgsSize(ts[1..], vs[1..])
  }

  /**
   * `sendBuf`: allocated with `staticPayload.size + valueSizeBytes`, filled
   * with the static payload and then each argument; `array()` returns it whole.
   */
  method BuildSendBuffer(staticPayload: seq<byte>, ts: seq<IdlType>, args: seq<Value>) returns (sendBytes: seq<byte>)
    requires ArgsConform(ts, args)
    ensures sendBytes == SerArgs(ts, args, staticPayload)
    ensures |sendBytes| == |staticPayload| + ArgsSize(ts, args)
  {
    var valueSizeBytes := ArgsSize(ts, args);
    var sendBuf := new ByteBuffer.Allocate(|staticPayload| + valueSizeBytes);
    assert sendBuf.Holds([]);
    Append(sendBuf, [], staticPayload);
    assert [] + staticPayload == staticPayload;
    ghost var written := staticPayload;
    for i := 0 to |ts|
      invariant sendBuf.Valid() && sendBuf.data.Length == |staticPayload| + valueSizeBytes
      invariant sendBuf.Holds(written)
      invariant ArgsConform(ts[i..], args[i..])
      invariant SerArgs(ts[i..], args[i..], written) == SerArgs(ts, args, staticPayload)
      invariant |written| + ArgsSize(ts[i..], args[i..]) == |staticPayload| + valueSizeBytes
    {
      assert ts[i..][1..] == ts[i + 1..] && args[i..][1..] == args[i + 1..];
      SerAppends(ts[i], args[i], written);
      SizeMatchesSer(ts[i], args[i]);
      Append(sendBuf, written, Encode(ts[i], args[i]));
      written := written + Encode(ts[i], args[i]);
    }
    sendBytes := sendBuf.BackingArray();
  }

  /** The arguments, as a positional record (`idx.toString()` names, positions as `idx`). */
  function PositionalFields(ts: seq<IdlType>): (fs: seq<Field>)
    ensures |fs| == |ts| && forall i :: 0 <= i < |ts| ==> fs[i] == Field(None, i, ts[i])
  {
    seq(|ts|, i requires 0 <= i < |ts| => Field(None, i, ts[i]))
  }

  lemma {:induction false} SerArgsAsFields(ts: seq<IdlType>, vs: seq<Value>, out: seq<byte>, i: nat)
    requires ArgsConform(ts, vs) && i <= |ts|
    ensures ArgsConform(ts[i..], vs[i..]) && FieldsConform(PositionalFields(ts), vs, i)
    ensures SerArgs(ts[i..], vs[i..], out) == SerFields(PositionalFields(ts), vs, i, out)
    ensures ArgsSize(ts[i..], vs[i..]) == SizeOfFields(PositionalFields(ts), vs, i)
    decreases |ts| - i
  {
    if i < |ts| {
      assert ts[i..][1..] == ts[i + 1..] && vs[i..][1..] == vs[i + 1..];
      SerArgsAsFields(ts, vs, Ser(ts[i], vs[i], out), i + 1);
    }
  }

  /**
   * The send buffer is the static payload followed by the arguments'
   * encodings in order, as many bytes as the static payload and the
   * arguments' sizes.
   */
  lemma SendBufferLayout(staticPayload: seq<byte>, ts: seq<IdlType>, args: seq<Value>)
    requires ArgsConform(ts, args)
    ensures Conforms(RecordType(PositionalFields(ts)), RecordValue(args))
    ensures SerArgs(ts, args, staticPayload)
         == staticPayload + Join(FieldEncodings(PositionalFields(ts), args))
    ensures |SerArgs(ts, args, staticPayload)| == |staticPayload| + Sum(FieldSizes(PositionalFields(ts), args))
  {
    var fs := PositionalFields(ts);
    SerArgsAsFields(ts, args, staticPayload, 0);
    assert ts[0..] == ts && args[0..] == args;
    RecordLayout(fs, args);
    SerFieldsAppends(fs, args, 0, staticPayload);
    SizeMatchesSerFields(fs, args, 0);
  }

  /**
   * Reading the arguments back from just after the static payload returns
   * them all, in order, and ends at the end of the send buffer.
   */
  lemma SendBufferDecodes(staticPayload: seq<byte>, ts: seq<IdlType>, args: seq<Value>)
    requires ArgsConform(ts, args)
    ensures FieldsConform(PositionalFields(ts), args, 0)
    ensures staticPayload <= SerArgs(ts, args, staticPayload)
    ensures DeserFields(PositionalFields(ts), SerArgs(ts, args, staticPayload), |staticPayload|, 0)
         == Ok((args, |SerArgs(ts, args, staticPayload)|))
  {
    var fs := PositionalFields(ts);
    SerArgsAsFields(ts, args, staticPayload, 0);
    assert ts[0..] == ts && args[0..] == args;
    SerFieldsAppends(fs, args, 0, staticPayload);
    SizeMatchesSerFields(fs, args, 0);
    RoundTripFields(fs, args, 0, staticPayload, []);
    assert staticPayload + SerFields(fs, args, 0, []) + [] == SerFields(fs, args, 0, staticPayload);
  }

  // ---------------------------------------------------------------------
  // call or query
  // ---------------------------------------------------------------------

  /** `query` for a func annotated `query`, `call` for every other. */
  function SendOperation(annotations: seq<FuncAnn>): (op: RequestType)
    ensures op == RequestType.Query <==> FuncAnn.Query in annotations
    ensures op == RequestType.Call <==> FuncAnn.Query !in annotations
  {
    if FuncAnn.Query in annotations then RequestType.Query else RequestType.Call
  }

  // ---------------------------------------------------------------------
  // Results
  // ---------------------------------------------------------------------

  /** What `invoke` returns: nothing, the single result, or the `<Func>Result` data class. */
  datatype ReturnValue = NoResult | Single(value: Value) | Tuple(values: seq<Value>)

  /** The return value is of the shape and types the func declares. */
  predicate ReturnConforms(results: seq<IdlType>, rv: ReturnValue)
  {
    match rv
    case NoResult => |results| == 0
    case Single(v) => |results| == 1 && Conforms(results[0], v)
    case Tuple(vs) => |results| >= 2 && Conforms(RecordType(PositionalFields(results)), RecordValue(vs))
  }

  /** The results' part of the reply: what a callee's serialisers write for `rv`. */
  function EncodeResults(results: seq<IdlType>, rv: ReturnValue): seq<byte>
    requires ReturnConforms(results, rv)
  {
    match rv
    case NoResult => []
    case Single(v) => Encode(results[0], v)
    case Tuple(vs) => Encode(RecordType(PositionalFields(results)), RecordValue(vs))
  }

  /** The `deserBody` of `invoke`, reading `receiveBuf` from `pos` on. */
  function DecodeResults(results: seq<IdlType>, input: seq<byte>, pos: nat): (r: Result<ReturnValue, DecodeError>)
    requires pos <= |input|
    ensures r.Ok? ==> ReturnConforms(results, r.value)
    ensures |results| == 0 ==> r == Ok(NoResult)
  {
    if |results| == 1 then
      match Deser(results[0], input, pos)
      case Err(e) => Err(e)
      case Ok((v, _)) => Ok(Single(v))
    else if |results| > 0 then
      match Deser(RecordType(PositionalFields(results)), input, pos)
      case Err(e) => Err(e)
      case Ok((v, _)) => Ok(Tuple(v.items))
    else Ok(NoResult)
  }

  /**
   * The results come back as written: one result is returned directly,
   * several in order in the tuple class, none as nothing; whatever follows
   * them in the reply is ignored.
   */
  lemma ResultsRoundTrip(results: seq<IdlType>, rv: ReturnValue, prefix: seq<byte>, rest: seq<byte>)
    requires ReturnConforms(results, rv)
    ensures DecodeResults(results, prefix + EncodeResults(results, rv) + rest, |prefix|) == Ok(rv)
  {
    match rv
    case NoResult =>
    case Single(v) =>
      Codec.RoundTrip(results[0], v, prefix, rest);
    case Tuple(vs) =>
      Codec.RoundTrip(RecordType(PositionalFields(results)), RecordValue(vs), prefix, rest);
  }

  /** The tuple's components are the results' encodings one after another. */
  lemma TupleLayout(results: seq<IdlType>, vs: seq<Value>)
    requires ReturnConforms(results, Tuple(vs))
    ensures EncodeResults(results, Tuple(vs)) == Join(FieldEncodings(PositionalFields(results), vs))
  {
    RecordLayout(PositionalFields(results), vs);
  }

  // ---------------------------------------------------------------------
  // invoke
  // ---------------------------------------------------------------------

  /** `service.call` / `service.query`: operation, method name and argument bytes to reply bytes. */
  type Transport = (RequestType, string, seq<byte>) -> seq<byte>

  /** `TypeDeser.deserUntilM`: the position after the reply's header, or an error. */
  type HeaderReader = seq<byte> -> Result<nat, DecodeError>

  datatype InvokeError = NullService | NullFuncName | DecodeFailure(error: DecodeError)

  /** Everything after the network call: the header, then the results. */
  function Receive(results: seq<IdlType>, deserUntilM: HeaderReader, receiveBytes: seq<byte>): (r: Result<ReturnValue, InvokeError>)
    ensures r.Ok? ==> ReturnConforms(results, r.value)
  {
    match deserUntilM(receiveBytes)
    case Err(e) => Err(DecodeFailure(e))
    case Ok(pos) =>
      if pos > |receiveBytes| then Err(DecodeFailure(BufferUnderflow))
      else
        match DecodeResults(results, receiveBytes, pos)
        case Err(e) => Err(DecodeFailure(e))
        case Ok(rv) => Ok(rv)
  }

  /**
   * The generated `invoke`: the send buffer is built first; then
   * `this.service!!` and `this.funcName!!` are checked in that order, the
   * bytes go out with `call` or `query`, and the reply is decoded.
   */
  method Invoke(fn: FuncType, staticPayload: seq<byte>, funcName: Option<string>, service: Option<Transport>,
                deserUntilM: HeaderReader, args: seq<Value>) returns (r: Result<ReturnValue, InvokeError>)
    requires ArgsConform(fn.arguments, args)
    ensures service.None? ==> r == Err(NullService)
    ensures service.Some? && funcName.None? ==> r == Err(NullFuncName)
    ensures service.Some? && funcName.Some? ==>
      r == Receive(fn.results, deserUntilM,
                   service.value(SendOperation(fn.annotations), funcName.value, SerArgs(fn.arguments, args, staticPayload)))
    ensures r.Ok? ==> ReturnConforms(fn.results, r.value)
  {
    var sendBytes := BuildSendBuffer(staticPayload, fn.arguments, args);
    if service.None? {
      return Err(NullService);
    }
    if funcName.None? {
      return Err(NullFuncName);
    }
    var receiveBytes := service.value(SendOperation(fn.annotations), funcName.value, sendBytes);
    r := Receive(fn.results, deserUntilM, receiveBytes);
  }
}
