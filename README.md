# candid-kt: request identity, envelope framing and the generated codec

This project models two parts of candid-kt, a Kotlin client and code
generator for the Internet Computer's Candid interface language, and proves
properties of the model.

**Requests** (`Requests.kt`) covers the following:
- `ICRequest.id`, the representation-independent request id. It is built in four steps:
  - six pairs (hash of the field name, hash of the field value);
  - a sort of the pairs with a hand-written unsigned byte comparator on the name hash;
  - their concatenation in a `ByteBuffer`;
  - a final hash.
- `authenticate`.
- The equality rules of `ICRequest` and `AuthenticatedICRequest`.
- The keys, in order, of the two CBOR maps.
- `ByteBufferBackedOutputStream`. It collects written values and, on `flush`, publishes them behind the self-described CBOR tag `D9 D9 F7`.

**Complex** (`transpile/Complex.kt`) covers the following:
- `TranspileContext`, with its two anonymous-name counters and name helpers.
- What the serialisers emitted by `transpileRecord` and `transpileVariant` do when they run: `calcSizeBytes`, `ser` and `deser`. These are runtime-dispatched functions over a small type algebra: Null, a LEB128 leaf, Record and Variant.
- What the func classes emitted by `transpileFunc` do when invoked:
  - the static payload;
  - the send buffer;
  - the choice between `call` and `query`;
  - decoding the results by arity.
- `prettyString`.

Modules:

| file | module | what it holds |
|---|---|---|
| common.dfy | `Common` | bytes, digests, `Option`, `Result` |
| byte_buffer.dfy | `ByteBuffers` | `java.nio.ByteBuffer` as a class over an array, with a position |
| leb128.dfy | `Leb128` | unsigned LEB128 |
| utf8.dfy | `Utf8` | UTF-8 encoding and decoding |
| request_id.dfy | `RequestId` | the comparator, the sort, the concatenation, the id of a list of pairs |
| requests.dfy | `Requests` | `ICRequest`, `authenticate`, equality, the CBOR maps, the output stream |
| codec.dfy | `Codec` | the record and variant serialisers |
| func_call.dfy | `FuncCall` | the static payload, the send buffer, `invoke` |
| transpile_context.dfy | `Transpile` | `TranspileContext` and its names |
| pretty.dfy | `Pretty` | `prettyString` and the standard-library functions it uses |

External code is passed in as parameters:
- SHA-256 is a function that returns 32 bytes.
- The Ed25519 signer is a function.
- The CBOR library's byte encoder is a function.
- The network transport (`service.call` / `service.query`) is a function.
- `TypeDeser.deserUntilM` is a function that returns the position after the reply's header.

The request's nonce is an input, so `randomBytes` is not modelled.

The repository's `Leb128` object is not part of this model. The model assumes it implements standard unsigned LEB128, as in section 7.6 of DWARF version 4.

Where the code and the Internet Computer interface specification's definition of the request id (its representation-independent hash) differ, the model follows the code:
- The specification sorts the pairs over the concatenation of both hashes. The code compares only the name hash, and the model does the same (`RequestId.SortedWithIgnoresValues`).
- The specification leaves out a field that is not present. The code always hashes six fields, the nonce included.
- The comparator's loop runs over `0..k1.size` inclusive, and the model keeps that bound. Two equal name hashes make it read past the end of a key, which throws. The sort therefore fails exactly when two name hashes are equal (`RequestId.KeyCompareSpec`, `Requests.IdSpec`).

## Model

| member | source | states |
|---|---|---|
| Requests.HashTextOfAscii | src/main/kotlin/senior/joinu/candid/Requests.kt:58-68 | hashing an ASCII string is SHA-256 applied to its character codes; the string overload goes through the byte overload |
| Requests.HashTextInjectiveEncoding | src/main/kotlin/senior/joinu/candid/Requests.kt:58-62 | two strings of Unicode scalar values with the same UTF-8 bytes are the same string, so the bytes hashed identify the string |
| Utf8.RoundTrip | src/main/kotlin/senior/joinu/candid/Requests.kt:61 | decoding the UTF-8 bytes of any string of Unicode scalar values gives the string back, so the encoding is injective on such strings |
| Requests.Traversed | src/main/kotlin/senior/joinu/candid/Requests.kt:133-140 | succeeds iff the sender has an id, and fails with the null-id error otherwise; six pairs; pair i is (hash of the i-th field name, hash of the i-th field's bytes), in the order arg, canister_id, method_name, nonce, request_type, sender |
| RequestId.CompareKeys | src/main/kotlin/senior/joinu/candid/Requests.kt:142-150 | the comparator loop with `break` returns what the reference comparison `KeyCompare` returns, including the out-of-bounds failure |
| RequestId.KeyCompareSpec | src/main/kotlin/senior/joinu/candid/Requests.kt:143-148 | the comparator fails iff one key is a prefix of the other; otherwise it never answers 0 and agrees with unsigned lexicographic order in both directions |
| RequestId.DigestCompare | src/main/kotlin/senior/joinu/candid/Requests.kt:143-148 | on two 32-byte keys the comparator fails iff the keys are equal, and otherwise orders them unsigned-lexicographically |
| RequestId.SortedWithSpec | src/main/kotlin/senior/joinu/candid/Requests.kt:142-150 | the sort succeeds iff the name hashes are pairwise distinct and otherwise fails out of bounds; on success the result is a permutation of the input, strictly increasing by name hash |
| RequestId.StrictlySortedUnique | src/main/kotlin/senior/joinu/candid/Requests.kt:142-150 | two strictly name-sorted permutations of the same pairs are equal, so every correct sort gives the same list |
| RequestId.OrderIndependent | src/main/kotlin/senior/joinu/candid/Requests.kt:133-150 | permuting the pairs before sorting changes neither the outcome nor the sorted list |
| RequestId.SortedWithIgnoresValues | src/main/kotlin/senior/joinu/candid/Requests.kt:142-150 | the value hashes are never compared: inputs with the same name hashes sort into the same name order, with the same outcome |
| RequestId.Concatenate | src/main/kotlin/senior/joinu/candid/Requests.kt:151-160 | the bytes read back from the buffer are each pair's name hash then its value hash, in sorted order, and their count is the computed `concatenatedSize` |
| RequestId.FlattenSize | src/main/kotlin/senior/joinu/candid/Requests.kt:151 | the concatenation has exactly `concatenatedSize` bytes, which is 64 per pair |
| RequestId.FlattenAt | src/main/kotlin/senior/joinu/candid/Requests.kt:154-157 | pair k's name hash sits at bytes 64k to 64k+32, and its value hash at 64k+32 to 64k+64 |
| RequestId.IdIsHashOfCanonicalOrder | src/main/kotlin/senior/joinu/candid/Requests.kt:142-162 | the id of any list of pairs is the hash of the concatenation of any strictly name-sorted permutation of it |
| RequestId.IdOrderIndependent | src/main/kotlin/senior/joinu/candid/Requests.kt:133-162 | permuting the pairs changes neither the id nor its failure |
| Requests.Id | src/main/kotlin/senior/joinu/candid/Requests.kt:132-163 | the computation, step by step through the buffer, yields the id of the traversed pairs |
| Requests.TraversedDistinct | src/main/kotlin/senior/joinu/candid/Requests.kt:133-148 | the traversed pairs have distinct name hashes iff the hashes of the six field names are distinct |
| Requests.IdSpec | src/main/kotlin/senior/joinu/candid/Requests.kt:132-163 | the id exists iff the sender has an id and the six name hashes differ; no sender id gives the null-id error; equal name hashes give the out-of-bounds error; on success the id is the hash of a strictly name-sorted permutation of the traversed pairs, concatenated |
| Requests.IdIndependentOfFieldOrder | src/main/kotlin/senior/joinu/candid/Requests.kt:133-162 | listing the six pairs in any other order gives the same id |
| Requests.Authenticate | src/main/kotlin/senior/joinu/candid/Requests.kt:165-169 | succeeds iff the id exists, with the same error otherwise; the content is the request itself, the sender key is the key pair's public bytes, and the signature is the signer applied to the private key and the id |
| Requests.AuthenticatedEqualsIsEquivalence | src/main/kotlin/senior/joinu/candid/Requests.kt:75-86 | envelope equality is reflexive, symmetric and transitive |
| Requests.AuthenticatedEqualsExactly | src/main/kotlin/senior/joinu/candid/Requests.kt:75-86 | two envelopes are equal iff they agree on everything except the nonce of their content, with the public key and signature compared by content and the canister id by reference |
| Requests.EqualRequestsEqualEnvelopes | src/main/kotlin/senior/joinu/candid/Requests.kt:165-169 | authenticating equal requests with the same nonce under one key pair and signer succeeds for both or fails for both with the same error, and gives equal envelopes |
| Requests.RequestEqualsIsEquivalence | src/main/kotlin/senior/joinu/candid/Requests.kt:182-195 | request equality is reflexive, symmetric and transitive |
| Requests.RequestEqualsExactly | src/main/kotlin/senior/joinu/candid/Requests.kt:182-195 | two requests are equal iff they agree on everything except the nonce, with the canister id compared as the same array |
| Requests.CanisterIdComparedByReference | src/main/kotlin/senior/joinu/candid/Requests.kt:189 | requests whose canister ids are different arrays are never equal, even when the bytes match |
| Requests.EqualRequestsSameNonceSameId | src/main/kotlin/senior/joinu/candid/Requests.kt:182-195 | equal requests with the same nonce have the same id |
| Requests.ContentLayout | src/main/kotlin/senior/joinu/candid/Requests.kt:171-180 | it is built iff the sender has an id, and fails with the null-id error otherwise (`id!!`); when built, it is added under the given name, its keys are arg, canister_id, method_name, nonce, request_type, sender, in that order and each once, and each key finds its own field |
| Requests.EnvelopeLayout | src/main/kotlin/senior/joinu/candid/Requests.kt:99-107 | the envelope's keys are content, sender_pubkey, sender_sig, in that order and each once; each key finds the content map, the public key or the signature |
| Requests.PrefixIsSelfDescribedTag | src/main/kotlin/senior/joinu/candid/Requests.kt:215 | `D9 D9 F7` is the head of CBOR tag 55799, self-described CBOR (section 3.4.6 of RFC 8949) |
| Requests.ByteBufferBackedOutputStream.constructor | src/main/kotlin/senior/joinu/candid/Requests.kt:207-209 | a new stream has nothing collected and no output |
| Requests.ByteBufferBackedOutputStream.Write | src/main/kotlin/senior/joinu/candid/Requests.kt:224-227 | appends exactly the written value and leaves the output unchanged |
| Requests.ByteBufferBackedOutputStream.Flush | src/main/kotlin/senior/joinu/candid/Requests.kt:211-222 | the output becomes `D9 D9 F7` followed by every collected value truncated to a byte; it is 3 bytes longer than what was collected; the collection is emptied |
| Requests.Cbor | src/main/kotlin/senior/joinu/candid/Requests.kt:95-113 | succeeds iff the sender has an id, and fails with the null-id error otherwise; the bytes are the self-described prefix followed by the encoder's bytes for the envelope |
| ByteBuffers.ByteBuffer.Allocate | src/main/kotlin/senior/joinu/candid/Requests.kt:152 | `ByteBuffer.allocate(n)`: a fresh array of n zero bytes, with the position at 0 |
| ByteBuffers.ByteBuffer.PutByte | src/main/kotlin/senior/joinu/candid/Requests.kt:216 | `put(Byte)`: when a byte remains, writes it at the position and moves the position by one; otherwise nothing changes (Java throws) |
| ByteBuffers.ByteBuffer.Rewind | src/main/kotlin/senior/joinu/candid/Requests.kt:158 | `rewind()`: the position goes back to 0 and the contents stay as they were |
| ByteBuffers.ByteBuffer.BackingArray | src/main/kotlin/senior/joinu/candid/transpile/Complex.kt:387 | `array()`: the whole backing array, whatever the position |
| ByteBuffers.ByteBuffer.Put | src/main/kotlin/senior/joinu/candid/Requests.kt:155-156 | when the bytes fit, they are written at the position and the position moves past them; otherwise nothing changes |
| ByteBuffers.ByteBuffer.Get | src/main/kotlin/senior/joinu/candid/Requests.kt:158-160 | when n bytes remain, returns the n bytes at the position and moves the position past them; otherwise reports failure, returns zeros and leaves the position (Java throws) |
| Transpile.TranspileContext.constructor | src/main/kotlin/senior/joinu/candid/transpile/Complex.kt:22-27 | a new context keeps its package and file names and starts both counters at 0 |
| Transpile.TranspileContext.NextAnonymousTypeName | src/main/kotlin/senior/joinu/candid/transpile/Complex.kt:29-30 | returns `AnonIDLType<count>` in the package, a name never issued before; only the type counter moves, by one |
| Transpile.TranspileContext.NextAnonymousFuncTypeName | src/main/kotlin/senior/joinu/candid/transpile/Complex.kt:32-33 | returns `AnonFunc<count>`, a name never issued before; only the func counter moves, by one |
| Transpile.TranspileContext.TypeNameOrNext | src/main/kotlin/senior/joinu/candid/transpile/Complex.kt:47 | a given name is kept and no counter moves; otherwise the next anonymous type name is taken |
| Transpile.TranspileContext.FuncNameOrNext | src/main/kotlin/senior/joinu/candid/transpile/Complex.kt:271 | a given name is kept and no counter moves; otherwise the next anonymous func name is taken |
| Transpile.TranspileContext.CreateValueSerTypeName | src/main/kotlin/senior/joinu/candid/transpile/Complex.kt:38-39 | the name is the type name followed by `ValueSer`, in the context's package |
| Transpile.TranspileContext.CreateResultValueTypeName | src/main/kotlin/senior/joinu/candid/transpile/Complex.kt:35-36 | the name is the func name followed by `Result`, in the context's package |
| Transpile.AnonymousNamesDistinct | src/main/kotlin/senior/joinu/candid/transpile/Complex.kt:26-39 | different counts give different names; an anonymous type name is never an anonymous func name; neither is ever a `ValueSer` or `Result` name; a `Result` name is never a `ValueSer` name |
| Transpile.DerivedNamesInjective | src/main/kotlin/senior/joinu/candid/transpile/Complex.kt:35-39 | different type names give different `ValueSer` names, and different func names give different `Result` names |
| Transpile.NatToStringInjective | src/main/kotlin/senior/joinu/candid/transpile/Complex.kt:30 | different counts print as different decimal strings |
| Transpile.MemberName | src/main/kotlin/senior/joinu/candid/transpile/Complex.kt:77 | a field's own name when it has one; otherwise decimal digits that parse back to its `idx` |
| Leb128.SizeMatchesEncoding | src/main/kotlin/senior/joinu/candid/transpile/Complex.kt:163-179 | `sizeUnsigned(n)` is the number of bytes `writeUnsigned` writes for n |
| Leb128.EncodingStopBits | src/main/kotlin/senior/joinu/candid/transpile/Complex.kt:174 | every byte of an encoding has its high bit set except the last |
| Leb128.ReadUnsignedStops | src/main/kotlin/senior/joinu/candid/transpile/Complex.kt:152 | reading stops at the first byte below 128, and fails iff no such byte remains |
| Leb128.ReadUnsignedValue | src/main/kotlin/senior/joinu/candid/transpile/Complex.kt:152 | the value read is the value of the 7-bit groups consumed, least significant first |
| Leb128.RoundTrip | src/main/kotlin/senior/joinu/candid/transpile/Complex.kt:152 | reading where n was written returns n and the position just after it, whatever surrounds it |
| Codec.Deser | src/main/kotlin/senior/joinu/candid/transpile/Complex.kt:148-256 | a successful `deser` moves the cursor forward, stays in the input and returns a value of the declared type |
| Codec.SerAppends | src/main/kotlin/senior/joinu/candid/transpile/Complex.kt:213-223 | `ser` leaves what the buffer held and writes the value's bytes after it |
| Codec.SizeMatchesSer | src/main/kotlin/senior/joinu/candid/transpile/Complex.kt:206-223 | `calcSizeBytes` is the number of bytes `ser` writes, for every type and conforming value |
| Codec.RecordLayout | src/main/kotlin/senior/joinu/candid/transpile/Complex.kt:92-103 | a record's bytes are its fields' bytes in field-list order; its size is the sum of the field sizes; with no fields, both are empty or 0 |
| Codec.VariantLayout | src/main/kotlin/senior/joinu/candid/transpile/Complex.kt:155-223 | a branch writes its position in the field list as LEB128; a Null branch writes only that and its size is `sizeUnsigned(position)`; any other branch writes the payload after it and its size adds the payload's |
| Codec.VariantTagDecoding | src/main/kotlin/senior/joinu/candid/transpile/Complex.kt:248-254 | a tag at or beyond the number of branches is rejected with the unknown-tag error; a decoded variant's tag is the tag read, below the number of branches; a Null branch decodes without reading further |
| Codec.DecodeAt | src/main/kotlin/senior/joinu/candid/transpile/Complex.kt:76-108 | wherever a value's bytes occur in the input, `deser` there returns the value and the position just after its bytes |
| Codec.RoundTrip | src/main/kotlin/senior/joinu/candid/transpile/Complex.kt:155-235 | `deser` reads back exactly what `ser` wrote, ending `calcSizeBytes` bytes later, whatever precedes or follows it |
| Codec.RoundTripFields | src/main/kotlin/senior/joinu/candid/transpile/Complex.kt:94-108 | the field `deser`s read back, in order, what the field `ser`s wrote |
| FuncCall.BuildStaticPayload | src/main/kotlin/senior/joinu/candid/transpile/Complex.kt:288-306 | the payload is the magic prefix, the type table's bytes, the LEB128 argument count and each argument type's bytes in order; the buffer allocated for it is exactly filled |
| FuncCall.JoinImagesSize | src/main/kotlin/senior/joinu/candid/transpile/Complex.kt:294-295 | when each type serialiser's reported size is the size it writes, the sizes sum to the bytes all of them write |
| FuncCall.BuildSendBuffer | src/main/kotlin/senior/joinu/candid/transpile/Complex.kt:365-387 | the send buffer is the static payload with each argument serialised after it in order; its length is the static payload's plus the sum of the arguments' sizes |
| FuncCall.SendBufferLayout | src/main/kotlin/senior/joinu/candid/transpile/Complex.kt:365-387 | the send buffer is the static payload followed by the arguments' encodings one after another; its size is the static payload's size plus the sum of the argument sizes |
| FuncCall.SendBufferDecodes | src/main/kotlin/senior/joinu/candid/transpile/Complex.kt:367-385 | reading the arguments back from just after the static payload returns all of them, in order, and ends at the end of the send buffer |
| FuncCall.SendOperation | src/main/kotlin/senior/joinu/candid/transpile/Complex.kt:390-395 | `query` iff the func is annotated query, `call` iff it is not |
| FuncCall.DecodeResults | src/main/kotlin/senior/joinu/candid/transpile/Complex.kt:319-361 | a decoded return value has the declared arity and types; with no results nothing is read and nothing is returned |
| FuncCall.ResultsRoundTrip | src/main/kotlin/senior/joinu/candid/transpile/Complex.kt:319-361 | one result comes back directly, several come back in order in the tuple class and none as nothing, whatever follows them in the reply |
| FuncCall.TupleLayout | src/main/kotlin/senior/joinu/candid/transpile/Complex.kt:338-358 | the tuple's components are read as the results' encodings, one after another |
| FuncCall.Receive | src/main/kotlin/senior/joinu/candid/transpile/Complex.kt:396-403 | a successful reply decodes to a return value of the declared arity and types |
| FuncCall.Invoke | src/main/kotlin/senior/joinu/candid/transpile/Complex.kt:365-403 | a null service fails first, then a null func name; otherwise the send buffer goes out with the chosen operation and the reply is decoded |
| Pretty.Lines | src/main/kotlin/senior/joinu/candid/transpile/Complex.kt:450 | `lineSequence` yields at least one line, and no line holds a line break |
| Pretty.IndentLine | src/main/kotlin/senior/joinu/candid/transpile/Complex.kt:450 | a line that is not blank gets the indent in front; a blank line shorter than the indent becomes the indent; a longer blank line stays as it is |
| Pretty.LinesOfJoin | src/main/kotlin/senior/joinu/candid/transpile/Complex.kt:450 | joining lines that hold no break with `\n` and splitting the result again gives the lines back |
| Pretty.JoinOfLines | src/main/kotlin/senior/joinu/candid/transpile/Complex.kt:450 | splitting text without `\r` into lines and joining them with `\n` gives the text back |
| Pretty.IndentedBlock | src/main/kotlin/senior/joinu/candid/transpile/Complex.kt:450 | the joined, indented items are one line per item: four spaces, the item, then the separator and a line break |
| Pretty.PrettyStringLines | src/main/kotlin/senior/joinu/candid/transpile/Complex.kt:449-451 | for items of any shape without `\r` (blank ones and ones spanning several lines, such as nested `prettyString` output) and a separator without line breaks, the text's lines are `{`, then every line of every item passed through `prependIndent`'s rule for four spaces, with the separator closing each item's last line, then `}` |
| Pretty.PrettyStringLayout | src/main/kotlin/senior/joinu/candid/transpile/Complex.kt:449-451 | with no items the text is `{}`; otherwise it is `{`, then one line per item indented by four spaces and followed by the separator, then `}` (for items that are not blank and hold no line breaks) |

## Left out

- SHA-256 and Ed25519 are not modelled inside (`MessageDigest`, `EdDSAEngine`, `EdDSAKeyPair.fromSeed`, `verify`). They are function parameters; a digest is assumed to be 32 bytes.
- `randomBytes` is left out: it depends on `java.util.Random`, so the nonce is an input.
- The CBOR library's byte encoding (`CborEncoder`, `CborBuilder`) is left out. The library is not visible, so the model keeps just the ordered map entries and an abstract encoder.
- KotlinPoet code construction is not modelled: `TypeSpec` and `FunSpec` builders, the generated source text, `poetize` and the Base64 embedding of the static payload. The model states what the generated code does, not how its text is built.
- `TypeTable`, `copyLabelsForType`, `getTypeSerForType`, `MAGIC_PREFIX` and `TypeDeser.deserUntilM` are not part of this model. The type table and type serialisers are inputs, each given as the size it reports and the bytes it writes. `FuncCall.BuildStaticPayload` requires that each reported size is the size written. `deserUntilM` is a function returning the position after the reply's header.
- `transpileService` and the network calls `service.call` / `service.query` are left out. The transport is a function parameter; suspension and concurrency are not modelled.
- Requests.RequestType.Value: `IDLFuncRequestType` is not part of this model. Its wire values `call` and `query` are assumed, as the Internet Computer interface specification gives them.
- `hashCode` of both request classes is left out, because of its 32-bit overflow arithmetic. `ICRequest.hashCode` uses requestType, canisterId (by identity), methodName, arg (by content) and sender; the nonce is not one of them. `AuthenticatedICRequest.hashCode` uses content, senderPubKey and senderSig (both by content).
- The lazy caching of `id` is left out: `Requests.IdOf` is the value that is cached. `canisterId`, `arg` and `nonce` are mutable byte arrays in the source. If one is changed after the first access to `id`, the source still returns the cached id. `Requests.IdOf` instead follows the current contents. This aliasing is not modelled.
- `RequestId.SortedWith`: the library's TimSort is replaced by a stable insertion sort using the same comparator. TimSort's exact order of comparisons is not modelled. When a comparison throws, both sorts fail, and when all name hashes differ, `RequestId.StrictlySortedUnique` shows every correct sort gives the same list.
- `Transpile.TranspileContext.NextAnonymousTypeName`: Kotlin `Int` counters would wrap after 2^31 - 1 names; the counters here are unbounded.
- The generated code's 32-bit `Int` sizes are unbounded integers.
- `ByteBuffer.order(LITTLE_ENDIAN)` is left out. It does not affect byte-wise LEB128 or `put` of byte arrays.
- Utf8.RoundTrip: strings are modelled as sequences of Unicode scalar values. A Kotlin `String` is UTF-16 and can hold an unpaired surrogate, which `toByteArray(UTF_8)` replaces with `?`. Such strings are not represented, and for them the encoding is not injective.
- Requests.HashTextInjectiveEncoding: for the same reason, a string holding an unpaired surrogate hashes like the same string with `?` in its place; the model has no such strings.
- Requests.RequestEquals: `sender` is compared by its id's content. `SimpleIDLPrincipal` is not part of this model; the model assumes its equality compares the id bytes. If it compared the id array by reference, like `canisterId`, equality would be finer than modelled.
- Pretty.PrettyStringLines: items or separators holding `\r` are not covered, because `\r\n` formed across an item and the next line break would split differently. A separator holding `\n` is not covered either: it would split each item's last line from the separator's tail.
- Pretty.PrettyStringLayout: the single-line statement requires items that are not blank and have no line breaks; `Pretty.PrettyStringLines` states the general layout.
- `Pretty.IndentLine`: the model compares the lengths of a blank line and the indent in Unicode scalar values, while Kotlin counts UTF-16 units. The two agree for every whitespace character, since all of them lie in the Basic Multilingual Plane.
- `Codec.Deser`: the primitive serialisers (integers, floats, text, principals and the rest) are represented by one leaf type written as unsigned LEB128. Reference types (func, service) and nested optional or vector types are not modelled. The serialiser of the Null type is not part of this model. The model assumes it writes and reads zero bytes, as Candid's null does.
- Codec.RoundTrip: the round trip is about the decoded value's contents. The generated class for a record without fields is not a `data` class (src/main/kotlin/senior/joinu/candid/transpile/Complex.kt:48-51). Kotlin's `==` on such a decoded record, or on any value holding one, therefore compares references, and is false against the original. `Codec.RoundTripFields` and `FuncCall.ResultsRoundTrip` have the same reading. Object identity is not modelled.
- `FuncCall.Receive`: like the generated code, it does not check that the results consume the whole reply.
- Field and branch names (`Transpile.MemberName`) are modelled, but the generated Kotlin class and property names built from them are not. So clashes between two fields that get the same name are not modelled.
