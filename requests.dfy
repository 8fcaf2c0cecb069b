/**
 * `ICRequest`, its authentication and its CBOR envelope, and
 * `ByteBufferBackedOutputStream`. SHA-256 and Ed25519 signing are
 * parameters; the CBOR byte encoder of the external library is a parameter.
 */
module Requests {
  import opened Common
  import Utf8
  import opened ByteBuffers
  import opened RequestId

  /** `hash(String)`: the digest of the text's UTF-8 bytes (`hash(ByteArray)` is `sha` itself). */
  function HashText(sha: Sha256, value: string): Digest
  {
    sha(Utf8.Encode(value))
  }

  /** For ASCII text the hashed bytes are exactly the character codes. */
  lemma HashTextOfAscii(sha: Sha256, value: string)
    requires Utf8.IsAscii(value)
    ensures HashText(sha, value) == sha(seq(|value|, i requires 0 <= i < |value| => value[i] as int))
  {
    Utf8.AsciiEncoding(value);
    assert Utf8.Encode(value) == seq(|value|, i requires 0 <= i < |value| => value[i] as int);
  }

  /** Two texts hash alike whenever their UTF-8 bytes do, and only distinct texts have distinct bytes. */
  lemma HashTextInjectiveEncoding(sha: Sha256, a: string, b: string)
    requires Utf8.Encode(a) == Utf8.Encode(b)
    ensures a == b && HashText(sha, a) == HashText(sha, b)
  {
    Utf8.RoundTrip(a);
    Utf8.RoundTrip(b);
  }

  /** `IDLFuncRequestType` and its wire `value`. */
  datatype RequestType = Call | Query {
    function Value(): string
    {
      if Call? then "call" else "query"
    }
  }

  /** `SimpleIDLPrincipal`; its `id` is nullable. */
  datatype Principal = Principal(id: Option<seq<byte>>)

  /**
   * `ICRequest`. `canisterId` stays an array because `equals` compares it by
   * reference; `arg` and `nonce` are only ever read by content. The nonce
   * (`randomBytes(9)` by default) is an input.
   */
  datatype ICRequest = ICRequest(
    requestType: RequestType,
    canisterId: array<byte>,
    methodName: string,
    arg: seq<byte>,
    sender: Principal,
    nonce: seq<byte>)

  const FieldNames: seq<string> := ["arg", "canister_id", "method_name", "nonce", "request_type", "sender"]

  /** The bytes hashed for each field, in the order of `FieldNames`; strings as UTF-8. */
  function FieldValues(req: ICRequest, canisterId: seq<byte>, senderId: seq<byte>): (vs: seq<seq<byte>>)
    ensures |vs| == |FieldNames|
  {
    [req.arg, canisterId, Utf8.Encode(req.methodName), req.nonce, Utf8.Encode(req.requestType.Value()), senderId]
  }

  /**
   * The six `Pair(hash(name), hash(value))` of `traversed`, in listing order;
   * `sender.id!!` fails on a sender without bytes.
   */
  function Traversed(sha: Sha256, req: ICRequest): (r: Result<seq<HashPair>, RequestFailure>)
    reads req.canisterId
    ensures r.Ok? <==> req.sender.id.Some?
    ensures r.Err? ==> r.error == NullSenderId
    ensures r.Ok? ==> |r.value| == |FieldNames|
    ensures r.Ok? ==> forall i :: 0 <= i < |FieldNames| ==>
      r.value[i] == HashPair(HashText(sha, FieldNames[i]), sha(FieldValues(req, req.canisterId[..], req.sender.id.value)[i]))
  {
    match req.sender.id
    case None => Err(NullSenderId)
    case Some(senderId) =>
      var values := FieldValues(req, req.canisterId[..], senderId);
      Ok(seq(|FieldNames|, i requires 0 <= i < |FieldNames| => HashPair(HashText(sha, FieldNames[i]), sha(values[i]))))
  }

  /** The value of the lazy `id`. */
  function IdOf(sha: Sha256, req: ICRequest): Result<Digest, RequestFailure>
    reads req.canisterId
  {
    match Traversed(sha, req)
    case Err(e) => Err(e)
    case Ok(traversed) => IdOfPairs(sha, traversed)
  }

  /** `ICRequest.id`: traversal, sort, concatenation into a ByteBuffer, final hash. */
  method Id(sha: Sha256, req: ICRequest) returns (id: Result<Digest, RequestFailure>)
    ensures id == IdOf(sha, req)
  {
    var traversed :- Traversed(sha, req);
    var sorted :- SortedWith(traversed);
    var concatenated := Concatenate(sorted);
    id := Ok(sha(concatenated));
  }

  /** The six field-name hashes are pairwise distinct. */
  predicate NameHashesDistinct(sha: Sha256)
  {
    forall i, j :: 0 <= i < j < |FieldNames| ==> HashText(sha, FieldNames[i]) != HashText(sha, FieldNames[j])
  }

  lemma TraversedDistinct(sha: Sha256, req: ICRequest)
    requires req.sender.id.Some?
    ensures Traversed(sha, req).Ok?
    ensures DistinctNames(Traversed(sha, req).value) <==> NameHashesDistinct(sha)
  {
    var t := Traversed(sha, req).value;
    if DistinctNames(t) {
      forall i, j | 0 <= i < j < |FieldNames| ensures HashText(sha, FieldNames[i]) != HashText(sha, FieldNames[j]) {
        assert t[i].name != t[j].name;
      }
    }
    if NameHashesDistinct(sha) {
      forall i, j | 0 <= i < j < |t| ensures t[i].name != t[j].name {
        assert HashText(sha, FieldNames[i]) != HashText(sha, FieldNames[j]);
      }
    }
  }

  /**
   * The id exists exactly when the sender has bytes and the six name hashes
   * differ (true SHA-256 values of the six names do); otherwise the null
   * check or the comparator throws. When it exists it is the hash of the
   * concatenation of the pairs in strictly ascending name-hash order.
   */
  lemma IdSpec(sha: Sha256, req: ICRequest)
    ensures IdOf(sha, req).Ok? <==> req.sender.id.Some? && NameHashesDistinct(sha)
    ensures req.sender.id.None? ==> IdOf(sha, req) == Err(NullSenderId)
    ensures req.sender.id.Some? && !NameHashesDistinct(sha) ==> IdOf(sha, req) == Err(IndexOutOfBounds)
    ensures IdOf(sha, req).Ok? ==>
      var sorted := SortedWith(Traversed(sha, req).value).value;
      && StrictlySorted(sorted)
      && multiset(sorted) == multiset(Traversed(sha, req).value)
      && IdOf(sha, req).value == sha(Flatten(sorted))
  {
    if req.sender.id.Some? {
      var t := Traversed(sha, req).value;
      SortedWithSpec(t);
      TraversedDistinct(sha, req);
    }
  }

  /** Listing the six fields in any other order gives the same id. */
  lemma IdIndependentOfFieldOrder(sha: Sha256, req: ICRequest, reordered: seq<HashPair>)
    requires req.sender.id.Some?
    requires multiset(reordered) == multiset(Traversed(sha, req).value)
    ensures IdOfPairs(sha, reordered) == IdOf(sha, req)
  {
    IdOrderIndependent(sha, reordered, Traversed(sha, req).value);
  }

  // ---------------------------------------------------------------------
  // Authentication
  // ---------------------------------------------------------------------

  /** `EdDSAKeyPair`: the public key's raw bytes (`pub.abyte`) and the private key. */
  datatype KeyPair = KeyPair(publicKey: seq<byte>, privateKey: seq<byte>)

  /** `signInsecure(priv, message)`, Ed25519 (RFC 8032), left abstract. */
  type Signer = (seq<byte>, seq<byte>) -> seq<byte>

  datatype AuthenticatedRequest = AuthenticatedRequest(content: ICRequest, senderPubKey: seq<byte>, senderSig: seq<byte>)

  /** The envelope `authenticate` builds: the request, the public key, the signature of the id. */
  function EnvelopeOf(sha: Sha256, sign: Signer, req: ICRequest, keyPair: KeyPair): Result<AuthenticatedRequest, RequestFailure>
    reads req.canisterId
  {
    match IdOf(sha, req)
    case Err(e) => Err(e)
    case Ok(id) => Ok(AuthenticatedRequest(req, keyPair.publicKey, sign(keyPair.privateKey, id)))
  }

  /** `ICRequest.authenticate`. */
  method Authenticate(sha: Sha256, sign: Signer, req: ICRequest, keyPair: KeyPair)
    returns (r: Result<AuthenticatedRequest, RequestFailure>)
    ensures r == EnvelopeOf(sha, sign, req, keyPair)
    ensures r.Ok? <==> IdOf(sha, req).Ok?
    ensures r.Err? ==> r.error == IdOf(sha, req).error
    ensures r.Ok? ==>
      && r.value.content == req
      && r.value.senderPubKey == keyPair.publicKey
      && r.value.senderSig == sign(keyPair.privateKey, IdOf(sha, req).value)
  {
    var id :- Id(sha, req);
    var signature := sign(keyPair.privateKey, id);
    r := Ok(AuthenticatedRequest(req, keyPair.publicKey, signature));
  }

  // ---------------------------------------------------------------------
  // Equality
  // ---------------------------------------------------------------------

  /**
   * `ICRequest.equals`: `canisterId` by reference (`!=` on ByteArray), `arg`
   * by content, the nonce not at all.
   */
  predicate RequestEquals(a: ICRequest, b: ICRequest)
  {
    && a.requestType == b.requestType
    && a.canisterId == b.canisterId
    && a.methodName == b.methodName
    && a.arg == b.arg
    && a.sender == b.sender
  }

  /** `AuthenticatedICRequest.equals`. */
  predicate AuthenticatedEquals(a: AuthenticatedRequest, b: AuthenticatedRequest)
  {
    && RequestEquals(a.content, b.content)
    && a.senderPubKey == b.senderPubKey
    && a.senderSig == b.senderSig
  }

  lemma RequestEqualsIsEquivalence(a: ICRequest, b: ICRequest, c: ICRequest)
    ensures RequestEquals(a, a)
    ensures RequestEquals(a, b) ==> RequestEquals(b, a)
    ensures RequestEquals(a, b) && RequestEquals(b, c) ==> RequestEquals(a, c)
  {
  }

  lemma AuthenticatedEqualsIsEquivalence(a: AuthenticatedRequest, b: AuthenticatedRequest, c: AuthenticatedRequest)
    ensures AuthenticatedEquals(a, a)
    ensures AuthenticatedEquals(a, b) ==> AuthenticatedEquals(b, a)
    ensures AuthenticatedEquals(a, b) && AuthenticatedEquals(b, c) ==> AuthenticatedEquals(a, c)
  {
    RequestEqualsIsEquivalence(a.content, b.content, c.content);
  }

  /** Equal envelopes differ at most in the nonce of their content; the keys and signatures are compared by content. */
  lemma AuthenticatedEqualsExactly(a: AuthenticatedRequest, b: AuthenticatedRequest)
    ensures AuthenticatedEquals(a, b) <==> a == b.(content := b.content.(nonce := a.content.nonce))
  {
    RequestEqualsExactly(a.content, b.content);
  }

  /**
   * Authenticating equal requests with the same nonce under the same key
   * pair and signer succeeds for both or fails for both with the same
   * error, and gives equal envelopes.
   */
  lemma EqualRequestsEqualEnvelopes(sha: Sha256, sign: Signer, keyPair: KeyPair, a: ICRequest, b: ICRequest)
    requires RequestEquals(a, b) && a.nonce == b.nonce
    ensures EnvelopeOf(sha, sign, a, keyPair).Ok? == EnvelopeOf(sha, sign, b, keyPair).Ok?
    ensures EnvelopeOf(sha, sign, a, keyPair).Err? ==>
      EnvelopeOf(sha, sign, a, keyPair).error == EnvelopeOf(sha, sign, b, keyPair).error
    ensures EnvelopeOf(sha, sign, a, keyPair).Ok? ==>
      AuthenticatedEquals(EnvelopeOf(sha, sign, a, keyPair).value, EnvelopeOf(sha, sign, b, keyPair).value)
  {
    EqualRequestsSameNonceSameId(sha, a, b);
    RequestEqualsIsEquivalence(a, b, b);
  }

  /** Equal requests differ at most in their nonces. */
  lemma RequestEqualsExactly(a: ICRequest, b: ICRequest)
    ensures RequestEquals(a, b) <==> a == b.(nonce := a.nonce)
  {
  }

  /** Two requests with canister ids in different arrays are never equal, whatever the bytes. */
  lemma CanisterIdComparedByReference(a: ICRequest, b: ICRequest)
    requires a.canisterId != b.canisterId
    ensures !RequestEquals(a, b)
  {
  }

  /**
   * Equal requests with the same nonce have the same id. Since equality
   * ignores the nonce, equal requests can still carry different ids.
   */
  lemma EqualRequestsSameNonceSameId(sha: Sha256, a: ICRequest, b: ICRequest)
    requires RequestEquals(a, b) && a.nonce == b.nonce
    ensures IdOf(sha, a) == IdOf(sha, b)
  {
    assert a == b;
  }

  // ---------------------------------------------------------------------
  // The CBOR envelope
  // ---------------------------------------------------------------------

  /** The data items the envelope is built from (the library's byte encoding is not modelled). */
  datatype CborItem =
    | ByteString(bytes: seq<byte>)
    | TextString(text: string)
    | CborMap(entries: seq<CborEntry>)

  datatype CborEntry = CborEntry(key: string, value: CborItem)

  function Keys(entries: seq<CborEntry>): (ks: seq<string>)
    ensures |ks| == |entries| && forall i :: 0 <= i < |entries| ==> ks[i] == entries[i].key
  {
    seq(|entries|, i requires 0 <= i < |entries| => entries[i].key)
  }

  /** The value stored under the first occurrence of `key`. */
  function Lookup(entries: seq<CborEntry>, key: string): Option<CborItem>
  {
    if entries == [] then None
    else if entries[0].key == key then Some(entries[0].value)
    else Lookup(entries[1..], key)
  }

  /** `ICRequest.cbor(name, builder)`: the nested map it adds under `name`. */
  function ContentEntry(req: ICRequest, name: string): Result<CborEntry, RequestFailure>
    reads req.canisterId
  {
    match req.sender.id
    case None => Err(NullSenderId)
    case Some(senderId) =>
      Ok(CborEntry(name, CborMap([
        CborEntry("arg", ByteString(req.arg)),
        CborEntry("canister_id", ByteString(req.canisterId[..])),
        CborEntry("method_name", TextString(req.methodName)),
        CborEntry("nonce", ByteString(req.nonce)),
        CborEntry("request_type", TextString(req.requestType.Value())),
        CborEntry("sender", ByteString(senderId))])))
  }

  /** The map `AuthenticatedICRequest.cbor` encodes. */
  function EnvelopeItem(auth: AuthenticatedRequest): Result<CborItem, RequestFailure>
    reads auth.content.canisterId
  {
    match ContentEntry(auth.content, "content")
    case Err(e) => Err(e)
    case Ok(content) =>
      Ok(CborMap([content,
                  CborEntry("sender_pubkey", ByteString(auth.senderPubKey)),
                  CborEntry("sender_sig", ByteString(auth.senderSig))]))
  }

  predicate KeysDistinct(entries: seq<CborEntry>)
  {
    forall i, j :: 0 <= i < j < |entries| ==> entries[i].key != entries[j].key
  }

  /** In a map whose keys are all different every key finds its own entry. */
  lemma {:induction false} LookupDistinct(es: seq<CborEntry>, i: nat)
    requires i < |es| && KeysDistinct(es)
    ensures Lookup(es, es[i].key) == Some(es[i].value)
  {
    if i > 0 {
      assert es[0].key != es[i].key;
      assert KeysDistinct(es[1..]) by {
        forall a, b | 0 <= a < b < |es| - 1 ensures es[1..][a].key != es[1..][b].key {
          assert es[1..][a] == es[a + 1] && es[1..][b] == es[b + 1];
        }
      }
      LookupDistinct(es[1..], i - 1);
    }
  }

  /**
   * The envelope holds content, sender_pubkey and sender_sig in that order,
   * each key once; every key finds its own field, with binary fields as byte
   * strings and the public key and signature verbatim.
   */
  lemma EnvelopeLayout(auth: AuthenticatedRequest)
    requires auth.content.sender.id.Some?
    ensures EnvelopeItem(auth).Ok? && EnvelopeItem(auth).value.CborMap?
    ensures Keys(EnvelopeItem(auth).value.entries) == ["content", "sender_pubkey", "sender_sig"]
    ensures KeysDistinct(EnvelopeItem(auth).value.entries)
    ensures Lookup(EnvelopeItem(auth).value.entries, "sender_pubkey") == Some(ByteString(auth.senderPubKey))
    ensures Lookup(EnvelopeItem(auth).value.entries, "sender_sig") == Some(ByteString(auth.senderSig))
    ensures Lookup(EnvelopeItem(auth).value.entries, "content") == Some(ContentEntry(auth.content, "content").value.value)
  {
    var es := EnvelopeItem(auth).value.entries;
    assert |es| == 3 && es[0].key == "content" && es[1].key == "sender_pubkey" && es[2].key == "sender_sig";
    assert "content"[0] != "sender_pubkey"[0] && "content"[0] != "sender_sig"[0];
    assert |"sender_pubkey"| != |"sender_sig"|;
    LookupDistinct(es, 0);
    LookupDistinct(es, 1);
    LookupDistinct(es, 2);
  }

  /** The six field names begin with six different letters. */
  lemma FieldNamesDistinct()
    ensures forall i, j :: 0 <= i < j < |FieldNames| ==> FieldNames[i] != FieldNames[j]
  {
    forall i, j | 0 <= i < j < |FieldNames| ensures FieldNames[i] != FieldNames[j] {
      assert FieldNames[i][0] != FieldNames[j][0];
    }
  }

  /**
   * The content map is built exactly when the sender has an id (`id!!`
   * throws otherwise). It holds arg, canister_id, method_name, nonce,
   * request_type and sender in that order, each key once, and each key
   * finds its field.
   */
  lemma ContentLayout(req: ICRequest, name: string)
    ensures ContentEntry(req, name).Ok? <==> req.sender.id.Some?
    ensures ContentEntry(req, name).Err? ==> ContentEntry(req, name).error == NullSenderId
    ensures req.sender.id.Some? ==>
      ContentEntry(req, name).value.key == name && ContentEntry(req, name).value.value.CborMap?
    ensures req.sender.id.Some? ==> Keys(ContentEntry(req, name).value.value.entries) == FieldNames
    ensures req.sender.id.Some? ==> KeysDistinct(ContentEntry(req, name).value.value.entries)
    ensures req.sender.id.Some? ==>
      var es := ContentEntry(req, name).value.value.entries;
      && Lookup(es, "arg") == Some(ByteString(req.arg))
      && Lookup(es, "canister_id") == Some(ByteString(req.canisterId[..]))
      && Lookup(es, "method_name") == Some(TextString(req.methodName))
      && Lookup(es, "nonce") == Some(ByteString(req.nonce))
      && Lookup(es, "request_type") == Some(TextString(req.requestType.Value()))
      && Lookup(es, "sender") == Some(ByteString(req.sender.id.value))
  {
    if req.sender.id.Some? {
      var es := ContentEntry(req, name).value.value.entries;
      assert Keys(es) == FieldNames;
      FieldNamesDistinct();
      LookupDistinct(es, 0);
      LookupDistinct(es, 1);
      LookupDistinct(es, 2);
      LookupDistinct(es, 3);
      LookupDistinct(es, 4);
      LookupDistinct(es, 5);
    }
  }

  // ---------------------------------------------------------------------
  // ByteBufferBackedOutputStream
  // ---------------------------------------------------------------------

  /** The head of CBOR tag 55799, "self-described CBOR" (section 3.4.6 of RFC 8949). */
  const SelfDescribedPrefix: seq<byte> := [0xD9, 0xD9, 0xF7]

  /** The head of a tag (major type 6) with a number below 65536 (section 3 of RFC 8949). */
  function TagHead(tag: nat): seq<byte>
    requires tag < 65536
  {
    if tag < 24 then [0xC0 + tag]
    else if tag < 256 then [0xD8, tag]
    else [0xD9, tag / 256, tag % 256]
  }

  lemma PrefixIsSelfDescribedTag()
    ensures SelfDescribedPrefix == TagHead(55799)
  {
  }

  /** Every written `Int` truncated with `toByte()`. */
  function TruncatedBytes(written: seq<int>): (r: seq<byte>)
    ensures |r| == |written| && forall i :: 0 <= i < |written| ==> r[i] == ToByte(written[i])
  {
    seq(|written|, i requires 0 <= i < |written| => ToByte(written[i]))
  }

  /**
   * `ByteBufferBackedOutputStream`: `write` collects values, `flush`
   * publishes the self-described prefix and the collected bytes in `out`
   * and empties the collection.
   */
  class ByteBufferBackedOutputStream {
    var buffer: seq<int>
    var out: Option<seq<byte>>

    constructor ()
      ensures buffer == [] && out == None
    {
      buffer := [];
      out := None;
    }

    method Write(b: int)
      modifies this
      ensures buffer == old(buffer) + [b]
      ensures out == old(out)
    {
      buffer := buffer + [b];
    }

    method Flush()
      modifies this
      ensures out == Some(SelfDescribedPrefix + TruncatedBytes(old(buffer)))
      ensures |out.value| == |old(buffer)| + 3
      ensures buffer == []
    {
      var written := buffer;
      var bufSize := |written| + 3;
      var buf := new ByteBuffer.Allocate(bufSize);
      var ok := buf.Put(SelfDescribedPrefix);
      assert ok;
      for i := 0 to |written|
        invariant buf.Valid() && buf.data.Length == bufSize
        invariant buf.position == 3 + i
        invariant buf.data[..buf.position] == SelfDescribedPrefix + TruncatedBytes(written[..i])
      {
        ok := buf.PutByte(ToByte(written[i]));
        assert ok;
        assert TruncatedBytes(written[..i + 1]) == TruncatedBytes(written[..i]) + [ToByte(written[i])];
      }
      assert written[..|written|] == written;
      buf.Rewind();
      var bytes;
      ok, bytes := buf.Get(bufSize);
      assert ok;
      out := Some(bytes);
      buffer := [];
    }
  }

  /** The CBOR byte encoder of the external library, left abstract. */
  type CborEncoder = CborItem -> seq<byte>

  /**
   * `AuthenticatedICRequest.cbor`: the encoder writes the envelope's bytes to
   * a fresh stream, `flush` publishes them behind the self-described prefix.
   */
  method Cbor(encode: CborEncoder, auth: AuthenticatedRequest) returns (r: Result<seq<byte>, RequestFailure>)
    ensures r.Ok? <==> auth.content.sender.id.Some?
    ensures r.Err? ==> r.error == NullSenderId
    ensures r.Ok? ==> r.value == SelfDescribedPrefix + encode(EnvelopeItem(auth).value)
  {
    var os := new ByteBufferBackedOutputStream();
    var items :- EnvelopeItem(auth);
    var bytes := encode(items);
    for i := 0 to |bytes|
      invariant os.buffer == bytes[..i] && os.out == None
    {
      os.Write(bytes[i]);
    }
    assert bytes[..|bytes|] == bytes;
    os.Flush();
    assert TruncatedBytes(bytes) == bytes;
    r := Ok(os.out.value);
  }
}
