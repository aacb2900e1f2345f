# Verification model of the remote procedure call stack

These modules model the path of a remote call: the protobuf-c codec that carries every message, the
generators of the tables which that codec searches, the session protocol of server and client, and
two pieces at the ends, the remote file operations of the client and the placement of call arguments
on the server. Everything is stated for all inputs, all runs and all interleavings; nothing here
executes the original programs.

How the modules build on each other:

- `Bytes`, `Varints`, `Schema`: machine words, base-128 numbers, and descriptors and messages as
  values. A schema is a table of descriptors, so that a message type may contain itself.
- `Wire`, `Scan`, `Parsing`: what the wire format means. `Encode` gives the bytes of a message, `Parse`
  the message that bytes mean, both as functions, with the branches and limits of the C code.
- `Scalars`, `Canonical`, `RoundTrip`, `Reencode`, `ByField`, `Accepted`, `PackedLaw`, `MergeLaw`,
  `MergeLimits`, `Regrouping`, `Concatenation`, `SplitLimits`: the laws of the format, proved of these functions.
- `Format`, `RpcFormat`: the wire format and the session protocol in literal numbers, with which `Encode`,
  `Parse` and the session are proved to agree.
- `VarintPack`, `Pack`, `Sizes`, `Buffer`: the three serializers as loops over an array or a growing
  buffer, each proved against `Encode`.
- `IntRanges`, `FieldTables`, `FieldGenerator`, `Sorting`, `EnumTables`: the tables, from the declaration
  through the generator to the binary searches.
- `Heap`, `Free`, `HeapMerge`, `MemberScan`, `Slabs`, `Bitmap`, `FirstPass`, `MemberParse`, `Filling`,
  `Unpacking`: the two passes of unpacking over allocated storage. Every heap block of a message has
  an address here; `Owned` collects the addresses and `Erase` forgets them. Each method keeps the
  equation `live == rest + Owned(message)`, where `rest` is whatever else the caller has allocated,
  and is proved against `Parse` and `Merge`. The allocator may refuse any request.
- `EndToEnd`: serializers and unpacking composed.
- `Framing`, `RpcMessages`, `Session`, `Client`: length-prefixed frames under arbitrary short transfers,
  the session messages as messages of the codec, the server's loop, and the interleavings of the
  client's tasks.
- `FsTree`, `FsCopy`, `Strings`, `CallAbi`: traversal, removal and copying of trees, the string helpers
  of the generator, and argument placement.

What the code does that its documentation does not say:

- A message of more than 134217712 members is packed but cannot be unpacked, because the slabs for
  scanned members end there. The round trip therefore holds if and only if every message fits;
  `RoundTrip.SomeMessageDoesNotFit` gives a message of 268435426 bytes that does not.
- A field number 0 is refused in a key of one byte and accepted in a longer one. What was unpacked can be
  packed and unpacked again if and only if no unknown field has that number.
- The comment at `merge_messages` promises that the later singular value wins and that submessages are
  merged. The code also makes a merge fail when a oneof is unset in both messages, lets present but
  empty bytes count as absent, never carries an earlier unlabelled scalar over, replaces a required
  submessage and a submessage of a oneof, and drops the unknown fields of the earlier message.
  `Concatenation` says field by field, in terms of the bytes, exactly when the promise is kept;
  `SplitLimits` has concrete inputs.
- With a oneof it can matter which two of three messages are merged first, and so whether a submessage
  is sent in one input or two. `Regrouping` says exactly when.
- The wire type of a bool is not looked at, and a packable repeated field accepts a packed run although
  it is not declared packed.
- `rpc_dispatch` answers a request whose payload does not unpack with id 0 and no payload instead of an
  error, and a request with id 0xF00 gets an error whose id is that of a success for it.
- A task that raises between sending and receiving releases the lock while its reply is on the way;
  from then on every task on the socket takes a reply to an earlier request for its own.
- An argument without a type overwrites the place of the argument before it.
- `FilenameIdentifier` gives two file names one identifier when a byte below 16 is followed by a digit
  that completes it; `Strings.InjectiveExactly` says for which names this can be.
- `File.write` returns 0 whatever it has written, and `cp` makes the destination before it looks for
  the source.

## Model

| member | source | states |
|---|---|---|
| `Format.EncodedAsText` | src/rpcserver/protobuf-c/protobuf-c/protobuf-c.c:1078-1523 | A message is encoded as a second description in literal numbers has it: every field in order, its key 8n + 0, 1, 2 or 5 by type, its body as a base-128 number, four or eight bytes, or a length and bytes, present or not by its value, and then the unknown fields |
| `Format.SentExactly` | src/rpcserver/protobuf-c/protobuf-c/protobuf-c.c:527-572 | The number of a single field outside the oneofs stands in the bytes of a message exactly if it is required, or optional and set, or unlabelled and neither zero of its width, of either sign for floating point, nor empty |
| `Format.ValueArrives` | src/rpcserver/protobuf-c/protobuf-c/protobuf-c.c:527-572 | What such a field arrives as: the word cut to its width if it was sent and the initial one if not, the string up to its NUL, the bytes |
| `Format.SixtyFourBitsArrive` | src/rpcserver/protobuf-c/protobuf-c/protobuf-c.c:545-551 | Every 64-bit integer arrives unchanged, unlabelled or not |
| `Format.SixtyFourBitsAreRead` | src/rpcserver/protobuf-c/protobuf-c/protobuf-c.c:2540-2549 | Wherever it stands, the number 8n + 1 and eight bytes set field n, of a 64-bit type, to the sum of s[i] * 256^i |
| `Format.ThirtyTwoBitsAreRead` | src/rpcserver/protobuf-c/protobuf-c/protobuf-c.c:2518-2525 | The number 8n + 5 and four bytes do so for a 32-bit type |
| `Format.NumberIsRead` | src/rpcserver/protobuf-c/protobuf-c/protobuf-c.c:2506-2547 | The number 8n and a base-128 number of at most ten bytes set field n to that number modulo 2^32 or 2^64, un-zigzagged for the signed types, and to whether it is not zero for a truth value |
| `Format.BytesAreRead` | src/rpcserver/protobuf-c/protobuf-c/protobuf-c.c:2550-2594 | The number 8n + 2, a length of at most 2^31 - 1 and as many bytes set field n to them |
| `Format.MessageIsRead` | src/rpcserver/protobuf-c/protobuf-c/protobuf-c.c:2595-2627 | The same for a message, which is merged into the one that a single field has |
| `Format.RunIsRead` | src/rpcserver/protobuf-c/protobuf-c/protobuf-c.c:2743-2873 | The number 8n + 2, a length and elements back to back append the elements to a repeated field, declared packed or not |
| `Format.OtherKindsAreRefused` | src/rpcserver/protobuf-c/protobuf-c/protobuf-c.h:338-344 | The numbers 8n + 3, 4, 6 and 7 end the reading with a failure |
| `Format.LongRecordsAreRefused` | src/rpcserver/protobuf-c/protobuf-c/protobuf-c.c:2109-2145 | A length above 2^31 - 1 is refused |
| `Format.WrongKindIsRefused` | src/rpcserver/protobuf-c/protobuf-c/protobuf-c.c:2505-2594 | A record of another kind than that of a single field is refused, except for truth values |
| `RoundTrip.RoundTrips` | src/rpcserver/protobuf-c/protobuf-c/protobuf-c.c:1472-1523 | Parsing the encoding of any well-formed message of at most INT_MAX bytes gives its canonical form, at every depth and with the unknown fields, if and only if no message in it is written as more members than the slabs hold; otherwise it fails |
| `RoundTrip.FlaggedFitsExactly` | src/rpcserver/protobuf-c/protobuf-c/protobuf-c.c:3010-3019 | A repeated field of n truth values takes 2n bytes, is well-formed, and is read back exactly when n is at most 134217712 |
| `RoundTrip.SomeMessageDoesNotFit` | src/rpcserver/protobuf-c/protobuf-c/protobuf-c.c:3184-3201 | One element more gives a well-formed message of less than INT_MAX bytes that is packed and cannot be unpacked |
| `Accepted.UnpackedIsWellFormedExactly` | src/rpcserver/protobuf-c/protobuf-c/protobuf-c.c:3027-3304 | What unpacking accepts meets every condition for being packed, exactly if no unknown field in it, at any depth, has number 0 |
| `Accepted.RepacksExactly` | src/rpcserver/protobuf-c/protobuf-c/protobuf-c.c:2062-2094 | Packing whatever was unpacked and unpacking it again gives its canonical form exactly if no unknown field in it has number 0 and it is not written as too many members; otherwise the second unpacking fails |
| `Accepted.NamelessIsNotRepacked` | src/rpcserver/protobuf-c/protobuf-c/protobuf-c.c:2062-2094 | The overlong key 80 00 of number 0 is accepted, and the message it stands in cannot be unpacked again once packed |
| `Reencode.MessageSame` | src/rpcserver/protobuf-c/protobuf-c/protobuf-c.c:3027-3304 | The canonical form that unpacking builds has the same encoding as the message that was packed, so nothing that is written is lost |
| `Reencode.EncodingIsInjective` | src/rpcserver/protobuf-c/protobuf-c/protobuf-c.c:1472-1523 | Two messages of a type have the same bytes exactly when they have the same canonical form |
| `RoundTrip.ValueInverts` | src/rpcserver/protobuf-c/protobuf-c/protobuf-c.c:2496-2627 | Parsing the member of one value gives the canonical value, whatever the field held before, unless that was a submessage |
| `RoundTrip.RequiredAreWritten` | src/rpcserver/protobuf-c/protobuf-c/protobuf-c.c:3262-3271 | A well-formed message writes every required field, so its encoding passes the check of unpacking |
| `EndToEnd.SendAndReceive` | src/rpcserver/protobuf-c/protobuf-c/protobuf-c.c:1472-1523 | Size, pack and unpack after each other: the canonical message comes back, or it does not fit, or an allocation was refused; the heap holds the blocks of the result and nothing more |
| `EndToEnd.UnpackAndFree` | src/rpcserver/protobuf-c/protobuf-c/protobuf-c.c:3306-3410 | Unpacking any bytes with an allocator that may refuse, and freeing what came back, leaves the heap as it was |
| `Scan.ScanInvertsSerialize` | src/rpcserver/protobuf-c/protobuf-c/protobuf-c.c:3090-3229 | Scanning the serialization of any list of members gives that list |
| `Scan.ScanAllConcat` | src/rpcserver/protobuf-c/protobuf-c/protobuf-c.c:3090-3229 | The members of a concatenation are those of its parts, in order; a malformed second part makes the whole malformed |
| `Scan.ScanKeyInvertsKey` | src/rpcserver/protobuf-c/protobuf-c/protobuf-c.c:2062-2094 | For every tag from 1 to 2^32-1 and every 3-bit wire type, parsing the key inverts packing it, whatever follows |
| `MemberScan.ParseTagAndWiretype` | src/rpcserver/protobuf-c/protobuf-c/protobuf-c.c:2062-2094 | The loop accepts exactly the keys of at most five bytes whose first byte is at least 8, and returns number, wire type and length; an overlong key of number 0 is among them, a short one is not |
| `MemberScan.ScanLengthPrefixedData` | src/rpcserver/protobuf-c/protobuf-c/protobuf-c.c:2109-2145 | The loop returns the length of prefix and body exactly when the prefix has at most five bytes, the length is at most INT_MAX and the body is all there |
| `MemberScan.ScanVarint` | src/rpcserver/protobuf-c/protobuf-c/protobuf-c.c:2729-2741 | The length of a varint of at most ten bytes, or 0 |
| `MemberScan.MaxB128Numbers` | src/rpcserver/protobuf-c/protobuf-c/protobuf-c.c:2147-2155 | Counts the bytes that end a varint |
| `MemberScan.CountPackedElements` | src/rpcserver/protobuf-c/protobuf-c/protobuf-c.c:2355-2397 | Counts the packed elements of each type, or fails on a ragged length |
| `MemberScan.PackedCountCovers` | src/rpcserver/protobuf-c/protobuf-c/protobuf-c.c:2743-2873 | If the second pass parses a packed payload, it yields no more elements than the first has counted, exactly as many unless they are bools, and none only if none were counted |
| `MemberScan.UncountableFails` | src/rpcserver/protobuf-c/protobuf-c/protobuf-c.c:3206-3222 | A payload that the first pass cannot count is one that the second could not parse |
| `MemberScan.ReadUint64` | src/rpcserver/protobuf-c/protobuf-c/protobuf-c.c:2445-2463 | The loop over the groups computes their number modulo 2^64 |
| `FirstPass.ScanOne` | src/rpcserver/protobuf-c/protobuf-c/protobuf-c.c:3091-3182 | One round of the scan: the member at the front, its field by the last-field cache or the table, which give the same field, and its extent; it fails exactly when there is no member |
| `FirstPass.ScanMembers` | src/rpcserver/protobuf-c/protobuf-c/protobuf-c.c:3090-3229 | The first pass: the slabs hold exactly the members of the input, the counters what they reserve, the bitmap the required fields; it fails only if parsing fails or an allocation was refused |
| `FirstPass.Tally` | src/rpcserver/protobuf-c/protobuf-c/protobuf-c.c:3112-3226 | One member more in the counters and the bitmap; it fails exactly on packed elements that cannot be counted |
| `FirstPass.ReservedMonotone` | src/rpcserver/protobuf-c/protobuf-c/protobuf-c.c:3203-3227 | Room that is reserved is never taken back by later members |
| `Slabs.MemberSlabs.Push` | src/rpcserver/protobuf-c/protobuf-c/protobuf-c.c:3184-3201 | The members grow by one, across doubling slabs; it fails only at the member limit or when an allocation is refused, and then nothing has changed |
| `Slabs.MemberSlabs.AtMost` | src/rpcserver/protobuf-c/protobuf-c/protobuf-c.c:3016-3019 | The slabs hold at most 16 * (2^23 - 1) members |
| `Slabs.MemberSlabs.Release` | src/rpcserver/protobuf-c/protobuf-c/protobuf-c.c:3299-3301 | All slabs but the one on the stack are given back, each once |
| `Slabs.AllSlabsHold` | src/rpcserver/protobuf-c/protobuf-c/protobuf-c.c:3010-3019 | The 23 doubling slabs together hold the member limit |
| `Bitmap.Set` | src/rpcserver/protobuf-c/protobuf-c/protobuf-c.c:3021-3022 | Setting a bit of the bitmap changes that bit and no other |
| `MemberParse.ParsePackedVarintMember` | src/rpcserver/protobuf-c/protobuf-c/protobuf-c.c:2786-2864 | The loops over packed varints: no element is stored outside the room reserved for it; the elements are counted in only if all of them parse |
| `MemberParse.ParsePackedFixedMember` | src/rpcserver/protobuf-c/protobuf-c/protobuf-c.c:2757-2784 | Fixed-width elements are stored as many as there are whole words, within the reserved room |
| `MemberParse.ReadScalar` | src/rpcserver/protobuf-c/protobuf-c/protobuf-c.c:2505-2549 | A word is read exactly when the wire type fits the field type; the wire type of a bool is not looked at |
| `MemberParse.ParseBlock` | src/rpcserver/protobuf-c/protobuf-c/protobuf-c.c:2550-2594 | The old string or bytes are freed before the new block is asked for; when it is refused, nothing is held |
| `Unpacking.ParseRequiredMember` | src/rpcserver/protobuf-c/protobuf-c/protobuf-c.c:2495-2630 | Parsing a value: the meaning of the member, or a failure that the bytes or a refusal explain; the blocks of the old value are given back or merged |
| `Unpacking.ParseSubmessage` | src/rpcserver/protobuf-c/protobuf-c/protobuf-c.c:2595-2627 | A submessage sent again is completed from the one before, which is freed whether or not that succeeds |
| `Unpacking.ParseOneofMember` | src/rpcserver/protobuf-c/protobuf-c/protobuf-c.c:2632-2691 | The earlier member of a oneof is freed first; if the new one fails, the case stays and nothing is held |
| `Unpacking.ParseRepeatedMember` | src/rpcserver/protobuf-c/protobuf-c/protobuf-c.c:2709-2727 | One more element within the reserved room, or the array as it was |
| `Unpacking.ParseMember` | src/rpcserver/protobuf-c/protobuf-c/protobuf-c.c:2884-2933 | What one member does to the message, for every label, with the arrays unchanged |
| `Unpacking.ReserveArrays` | src/rpcserver/protobuf-c/protobuf-c/protobuf-c.c:3231-3272 | Each repeated field with a count gets an array of that size; it fails only on a missing required field or a refusal |
| `Unpacking.ParseMembers` | src/rpcserver/protobuf-c/protobuf-c/protobuf-c.c:3283-3297 | The second pass visits exactly the scanned members, slab by slab and in wire order, and computes their meaning |
| `Unpacking.Unpack` | src/rpcserver/protobuf-c/protobuf-c/protobuf-c.c:3027-3321 | For any bytes and an allocator that may refuse any request: a message is returned only if the bytes mean it, none only if they mean none or a request was refused, and apart from the blocks of the message nothing stays allocated |
| `Filling.ElementsFit` | src/rpcserver/protobuf-c/protobuf-c/protobuf-c.c:2919-2931 | A parsed member brings at most the elements that were counted for it |
| `Filling.RoomForNext` | src/rpcserver/protobuf-c/protobuf-c/protobuf-c.c:3203-3227 | Before every member the arrays have room for what it brings |
| `Filling.FilledIsParsed` | src/rpcserver/protobuf-c/protobuf-c/protobuf-c.c:3283-3304 | After all members every array is full, except for bools, and the message is the meaning of the bytes |
| `Filling.FillFails` | src/rpcserver/protobuf-c/protobuf-c/protobuf-c.c:3289-3295 | A member that cannot be applied makes the whole input unreadable |
| `Free.FreeUnpacked` | src/rpcserver/protobuf-c/protobuf-c/protobuf-c.c:3323-3410 | Exactly the blocks of the message are freed, each once, whatever state an unfinished unpacking has left it in |
| `Free.OneofsFromZero` | src/rpcserver/protobuf-c/protobuf-c/protobuf-c.c:3341-3347 | Freeing each oneof at the field it selects frees what all oneofs own |
| `MergeLaw.MergeAssociative` | src/rpcserver/protobuf-c/protobuf-c/protobuf-c.c:2159-2345 | On schemas without oneofs, merging is associative |
| `Regrouping.ListExactly` | src/rpcserver/protobuf-c/protobuf-c/protobuf-c.c:2595-2627 | A message merged with several others, one after the other as unpacking does it: this succeeds exactly if each oneof is set in the message or in the first of the others, at every depth; it gives the merge with what the others make together exactly if they regroup; and it gives what the others make alone exactly if the message adds nothing |
| `Regrouping.MergeAssociativeExactly` | src/rpcserver/protobuf-c/protobuf-c/protobuf-c.c:2159-2345 | With oneofs, which two of three messages are merged first makes no difference exactly if, at every depth where all three have the submessage, no oneof is unset in the third, set in the second to a value that merging drops, and set in the first to one that it keeps |
| `Regrouping.LaterStaysExactly` | src/rpcserver/protobuf-c/protobuf-c/protobuf-c.c:2159-2345 | Merging leaves the later message as it is exactly if the earlier one adds nothing: no elements, no submessage or bytes or string or scalar that the later one lacks, at every depth, required fields apart, and each oneof is set in the later one or dropped |
| `MergeLaw.MergeInitLeft` | src/rpcserver/protobuf-c/protobuf-c/protobuf-c.c:2159-2345 | On schemas without oneofs, the initial message is a unit of merging on the left |
| `Concatenation.MergeInitRight` | src/rpcserver/protobuf-c/protobuf-c/protobuf-c.c:2159-2345 | Merging the initial message in leaves every field as it was exactly if no required field and no unlabelled scalar is set and no optional bytes are present but empty; unknown fields are lost |
| `MergeLaw.MergeTotal` | src/rpcserver/protobuf-c/protobuf-c/protobuf-c.c:2159-2345 | On schemas without oneofs merging does not fail |
| `MergeLaw.ConcatenationIsMerging` | src/rpcserver/protobuf-c/protobuf-c/protobuf-c.c:2595-2627 | On schemas of has-bit scalars, optional strings, submessages and repeated fields, unpacking a concatenation gives the merge of the two messages, with all unknown fields, however often a submessage occurs, up to the member limit |
| `MergeLaw.FoldHomomorphic` | src/rpcserver/protobuf-c/protobuf-c/protobuf-c.c:2496-2727 | On these schemas applying members to a message is merging it with what they make of the initial message |
| `Concatenation.FieldMergesExactly` | src/rpcserver/protobuf-c/protobuf-c/protobuf-c.c:2159-2345 | For any schema and any field outside the oneofs, what the concatenation of two inputs has in the field is what merge_messages makes of the two messages exactly if they agree on the field. They do on repeated fields, strings and has-bit scalars; on an unlabelled scalar or required field that the later input sends, or that the earlier message has at its initial value; on bytes, unless empty ones meet filled ones or are not sent again; on a required submessage if the earlier one adds nothing; on another submessage if those that the later input sends regroup |
| `Concatenation.FieldIsLast` | src/rpcserver/protobuf-c/protobuf-c/protobuf-c.c:2496-2594 | A single field that holds no submessage comes out of a concatenation as the later input has it, if that one sends the field; merge_messages does the same exactly if the two agree |
| `Concatenation.OneofMergesExactly` | src/rpcserver/protobuf-c/protobuf-c/protobuf-c.c:2632-2691 | A oneof comes out of a concatenation as the later input sets it, submessages included, which are replaced and not merged; merge_messages does the same exactly if the later message sets it, or the earlier one sets it to something other than empty bytes or a string with a default value |
| `Concatenation.ConcatenationMergesExactly` | src/rpcserver/protobuf-c/protobuf-c/protobuf-c.c:2159-2345 | For any schema, unpacking a concatenation is merging exactly if the two messages agree on all fields and all oneofs; the unknown fields of both are kept |
| `Concatenation.ConcatenationUnpacks` | src/rpcserver/protobuf-c/protobuf-c/protobuf-c.c:2595-2627 | For any schema, two inputs that unpack can be unpacked together exactly if they do not have too many members and, in each submessage that both send, every oneof is set in the earlier one or in the first that the later input sends, at every depth |
| `Concatenation.ConcatenationUnpacksOnce` | src/rpcserver/protobuf-c/protobuf-c/protobuf-c.c:2595-2627 | If the later input sends no submessage field twice, this is so exactly if every oneof is set in one of the two submessages, at every depth that both have |
| `Concatenation.ConcatenationUnpacksWithoutOneofs` | src/rpcserver/protobuf-c/protobuf-c/protobuf-c.c:3090-3229 | On schemas without oneofs, two inputs that unpack can be unpacked together exactly if they do not have too many members |
| `Concatenation.SplitSubmessageExactly` | src/rpcserver/protobuf-c/protobuf-c/protobuf-c.c:2595-2627 | A submessage may be sent in two parts instead of one exactly if the parts agree on all fields and all oneofs and the first has no unknown fields, or if neither way unpacks |
| `SplitLimits.UnlabelledIsLost` | src/rpcserver/protobuf-c/protobuf-c/protobuf-c.c:2312-2318 | 08 05 and then nothing, as two parts of a submessage: the unlabelled scalar is lost |
| `SplitLimits.EmptyBytesAreLost` | src/rpcserver/protobuf-c/protobuf-c/protobuf-c.c:2287-2303 | 0A 01 07 and then 0A 00: the empty bytes, which were sent last, do not arrive |
| `SplitLimits.RequiredIsReplaced` | src/rpcserver/protobuf-c/protobuf-c/protobuf-c.c:2228-2229 | 0A 02 08 05 and then 0A 00: the required submessage is replaced where a concatenation completes it |
| `SplitLimits.MergeNotAssociative` | src/rpcserver/protobuf-c/protobuf-c/protobuf-c.c:2244-2262 | Bytes, then empty bytes, then nothing, in a oneof: they do not regroup, and it matters which two are merged first |
| `MergeLimits.MergesExactly` | src/rpcserver/protobuf-c/protobuf-c/protobuf-c.c:2244-2285 | A merge succeeds if and only if every oneof is set in one of the two messages, at every depth where both have the submessage |
| `SplitLimits.EmptyTwiceFails` | src/rpcserver/protobuf-c/protobuf-c/protobuf-c.c:2245-2255 | A submessage with a oneof that is sent empty twice: each message unpacks, their concatenation does not |
| `HeapMerge.MergeMessages` | src/rpcserver/protobuf-c/protobuf-c/protobuf-c.c:2173-2345 | The merge in place computes Merge, leaves both messages complete, and together they own what they owned; it fails only where Merge fails or an allocation was refused |
| `HeapMerge.MergeRepeated` | src/rpcserver/protobuf-c/protobuf-c/protobuf-c.c:2182-2227 | Concatenation, or taking the array over; no array is freed twice or lost |
| `HeapMerge.MergeOneofMember` | src/rpcserver/protobuf-c/protobuf-c/protobuf-c.c:2244-2262 | The looked-up member of a oneof moves when the later message has none |
| `PackedLaw.SentElementsArrive` | src/rpcserver/protobuf-c/protobuf-c/protobuf-c.c:2919-2931 | However a repeated scalar field is split into packed and single members, among members of other fields, its elements arrive in order |
| `PackedLaw.PackingIsIrrelevant` | src/rpcserver/protobuf-c/protobuf-c/protobuf-c.c:2919-2931 | Two inputs that send the same elements in different chunks, among the same other members, unpack to the same message |
| `VarintPack.Uint32Pack` | src/rpcserver/protobuf-c/protobuf-c/protobuf-c.c:776-802 | The unrolled packer stores the base-128 encoding and nothing else |
| `VarintPack.Uint64Pack` | src/rpcserver/protobuf-c/protobuf-c/protobuf-c.c:859-887 | The packer over two 32-bit halves stores the base-128 encoding of the 64-bit value |
| `VarintPack.Int32Pack` | src/rpcserver/protobuf-c/protobuf-c/protobuf-c.c:814-832 | A negative value is stored as the ten bytes of its 64-bit sign extension |
| `Varints.Uint32SizeIsLength` | src/rpcserver/protobuf-c/protobuf-c/protobuf-c.c:264-277 | uint32_size is the length of the encoding |
| `Varints.Uint64SizeIsLength` | src/rpcserver/protobuf-c/protobuf-c/protobuf-c.c:348-369 | uint64_size is the length of the encoding |
| `Varints.Int32SizeIsLength` | src/rpcserver/protobuf-c/protobuf-c/protobuf-c.c:289-306 | int32_size is the length of the sign-extended encoding |
| `Varints.TagSizeIsLength` | src/rpcserver/protobuf-c/protobuf-c/protobuf-c.c:239-253 | get_tag_size is the length of the key |
| `Varints.ZigZag32Correct` | src/rpcserver/protobuf-c/protobuf-c/protobuf-c.c:316-323 | The shifts and masks compute the ZigZag number, and unzigzag32 inverts them |
| `Varints.ZigZag64Correct` | src/rpcserver/protobuf-c/protobuf-c/protobuf-c.c:379-386 | The same for 64 bits |
| `Varints.ParseUint32IsGroups` | src/rpcserver/protobuf-c/protobuf-c/protobuf-c.c:2399-2414 | The branches of parse_uint32 read the number modulo 2^32, however long the varint is |
| `Varints.VarintRoundTrip32` | src/rpcserver/protobuf-c/protobuf-c/protobuf-c.c:2399-2420 | Every 32-bit word survives encoding and reading, also through its 64-bit sign extension |
| `Varints.VarintRoundTrip64` | src/rpcserver/protobuf-c/protobuf-c/protobuf-c.c:2445-2463 | Every 64-bit word survives encoding and reading |
| `Varints.ParseBooleanIsNonZero` | src/rpcserver/protobuf-c/protobuf-c/protobuf-c.c:2485-2493 | parse_boolean is true exactly for numbers other than zero |
| `Scalars.ScalarRoundTrip` | src/rpcserver/protobuf-c/protobuf-c/protobuf-c.c:2506-2547 | Each scalar type: reading its encoding gives the word cut to the width of the type |
| `Scalars.PackedRoundTrip` | src/rpcserver/protobuf-c/protobuf-c/protobuf-c.c:2743-2873 | Each packable type: the elements of a packed payload are those that were packed |
| `Sizes.MessageSize` | src/rpcserver/protobuf-c/protobuf-c/protobuf-c.c:717-745 | The size is the length of the encoding |
| `Sizes.UnpackedFieldSize` | src/rpcserver/protobuf-c/protobuf-c/protobuf-c.c:610-687 | The size of a repeated field, with its key counted once per element |
| `Pack.MessagePack` | src/rpcserver/protobuf-c/protobuf-c/protobuf-c.c:1472-1523 | Stores exactly the encoding at its place and touches no other byte |
| `Pack.KeyPack` | src/rpcserver/protobuf-c/protobuf-c/protobuf-c.c:1068-1075 | The tag with the wire type or-ed into its first byte is the key |
| `Pack.PrefixedPack` | src/rpcserver/protobuf-c/protobuf-c/protobuf-c.c:994-1028 | string_pack and binary_data_pack: the length and then the bytes, at their place and nowhere else |
| `Pack.ValuePack` | src/rpcserver/protobuf-c/protobuf-c/protobuf-c.c:1039-1052 | A value of any type is stored as its encoding; a submessage is packed behind one byte, moved if its length takes more, and its length is stored before it |
| `Pack.PatchLength` | src/rpcserver/protobuf-c/protobuf-c/protobuf-c.c:1436-1445 | After the move the output is key, canonical length and payload, for a guess that is right or one short |
| `Pack.GuessIsClose` | src/rpcserver/protobuf-c/protobuf-c/protobuf-c.c:1376-1443 | For every packable type and count the guessed width of the length is right or one short, so the assertion never fires |
| `Pack.PackedFieldPack` | src/rpcserver/protobuf-c/protobuf-c/protobuf-c.c:1355-1448 | A packed repeated field is stored as one length-delimited record |
| `Buffer.MessageToBuffer` | src/rpcserver/protobuf-c/protobuf-c/protobuf-c.c:1957-2010 | The buffer receives exactly the encoding unless a request for memory was refused, and none is refused when the capacity suffices; the bytes returned are those of the encoding |
| `Buffer.BufferSimple.GrownCapacity` | src/rpcserver/protobuf-c/protobuf-c/protobuf-c.c:199-205 | Doubling ends with room for the new length, and not with more than twice what is needed |
| `Buffer.BufferSimple.Append` | src/rpcserver/protobuf-c/protobuf-c/protobuf-c.c:190-219 | The contents grow by the data, or stay when more room was needed and the request was refused; growing copies the contents once and less than doubles what is needed, and all bytes copied so far are at most the capacity |
| `Buffer.ImageToBuffer` | src/rpcserver/protobuf-c/protobuf-c/protobuf-c.c:1825-1842 | Fixed-width elements are appended as one block that is their encoding, or not at all |
| `IntRanges.WriteIntRanges` | src/rpcserver/protobuf-c/protoc-c/c_helpers.cc:351-394 | For any strictly increasing values below INT_MAX, the table describes their runs and ends with their number |
| `IntRanges.IntRangeLookup` | src/rpcserver/protobuf-c/protobuf-c/protobuf-c.c:2021-2060 | The binary search over such a table returns what a linear search over the values returns |
| `FieldTables.FieldIndex` | src/rpcserver/protobuf-c/protobuf-c/protobuf-c.c:3112-3119 | Looking a tag up, as an int, finds the field with that number if there is one |
| `FieldTables.LookupFindsField` | src/rpcserver/protobuf-c/protobuf-c/protobuf-c.c:3112-3119 | A search among the numbers is a search for the field |
| `FieldGenerator.GenerateFieldTables` | src/rpcserver/protobuf-c/protoc-c/c_message.cc:537-576 | Fields with distinct numbers, declared in any order, are sorted strictly and get the table through which unpacking finds them |
| `EnumTables.GenerateEnumDescriptor` | src/rpcserver/protobuf-c/protoc-c/c_enum.cc:149-305 | For uniquely named values in any order and with aliases, the tables by number and by name represent the declaration; with code size as the aim the names are NULL and there is no table by name |
| `EnumTables.PrintRanges` | src/rpcserver/protobuf-c/protoc-c/c_enum.cc:241-276 | The inline loop prints the range table of the unique numbers |
| `EnumTables.AssignFinalIndices` | src/rpcserver/protobuf-c/protoc-c/c_enum.cc:212-225 | Every value gets the index of its number among the unique ones; aliases share it |
| `EnumTables.UniquesAreFirsts` | src/rpcserver/protobuf-c/protoc-c/c_enum.cc:209-239 | The values that are kept are increasing, and each is the first declared with its number |
| `EnumTables.GetValueByName` | src/rpcserver/protobuf-c/protobuf-c/protobuf-c.c:3555-3583 | Lookup by name returns the entry of the number declared under the name, or nothing if the name is not declared or there is no table |
| `EnumTables.GetValue` | src/rpcserver/protobuf-c/protobuf-c/protobuf-c.c:3585-3594 | Lookup by number succeeds exactly for declared numbers, with the first declaration of the number, whose name is NULL when code size is the aim |
| `EnumTables.AliasesAgree` | src/rpcserver/protobuf-c/protoc-c/c_enum.cc:212-225 | Every alias of a number resolves to the same entry, which lookup by number finds too |
| `EnumTables.SearchName` | src/rpcserver/protobuf-c/protobuf-c/protobuf-c.c:3555-3583 | The binary search by strcmp finds an entry with the name exactly if there is one |
| `Framing.SockIoAll` | src/rpcserver/common.c:170-201 | Short transfers, EINTR, EAGAIN and end of file: everything is moved, or the operation fails and what was moved is a prefix |
| `Framing.ProtoMsgSend` | src/rpcserver/common.c:270-289 | The peer is sent the eight bytes of the size and the message, or a proper part of that exactly when there was a fault |
| `Framing.ProtoMsgRecv` | src/rpcserver/common.c:299-320 | A message that is received has consumed exactly 8 + size bytes, which are its frame; so has one that does not decode, and every other failure is a fault in the middle of a frame |
| `Framing.ReceiveMessages` | src/rpcserver/common.c:299-320 | However the stream is cut up, the messages received are a prefix of the messages sent, and none is missing without a fault |
| `Framing.ReceivedArePrefix` | src/rpcserver/common.c:270-320 | Whatever part of a stream of frames has arrived, its whole messages are the first that were sent |
| `Framing.RpcSocket.MsgRecv` | src/rpcclient/rpcclient/protocol/rpc_socket.py:41-68 | The client returns the exact payload of the first frame or raises: for a header that one recv does not fill, and at the end of the stream |
| `Framing.RpcSocket.RecvAllOrRaise` | src/rpcclient/rpcclient/protocol/rpc_socket.py:56-68 | Returns exactly the bytes asked for, if and only if they come before the end |
| `RpcMessages.RpcRoundTrip` | src/protos/rpc.proto:19-24 | Every session message survives packing and unpacking |
| `RpcMessages.PtyRoundTrip` | src/protos/rpc.proto:26-31 | Every message of a running process survives packing and unpacking |
| `Session.Server.RpcDispatch` | src/rpcserver/routines.c:235-292 | The reply to a request by its outcome, with the payload that the routine has returned, or the text of the refusal, unless memory for it was refused; the routine is called once, exactly for a request that has one and unpacks; a terminal is pending afterwards exactly if an EXEC for the foreground has succeeded |
| `Session.Server.RoutineExec` | src/rpcserver/routines.c:727-777 | It succeeds exactly if there is an argument, no request for memory was refused and the process has started; a terminal is set up exactly if it was for the foreground; every failure leaves none |
| `Session.WriteAll` | src/rpcserver/common.c:212-228 | Everything is written in order, or a write has failed and a proper prefix is |
| `Session.Server.PtyLoop` | src/rpcserver/rpcserver.c:54-89 | Each piece of output is sent as a message of its own, in order, and all that is taken from the client is written to the process; output and input that select reports are read before it is asked again, input unless the mode ends with the output or with a lost message first; what was lost is a proper part of the last piece after a fault on the socket, or input after a failed write |
| `Session.Server.EnterPtyMode` | src/rpcserver/rpcserver.c:54-112 | All output of the process and then one exit code with its status; without the exit code only if a fault on the socket or a failed write to the process accounts for it; all that was typed reached the process or is what a failed write has cut off; no terminal is pending afterwards |
| `Session.Server.HandleClient` | src/rpcserver/rpcserver.c:182-221 | A whole session: every byte taken from the client belongs to a request that was answered, to what was typed into its process, or to the last frame, which the reason for the end accounts for; every byte sent is of the handshake, of the one reply to each request in order, of the messages of its process, or a proper part of the message that was lost; every loss is a fault of the socket, and every payload that is missing a refused request for memory; the routines called are those of the requests, each once and in order; a request to close is answered and ends the session, and no terminal is pending when a request is read |
| `Session.FaultlessSession` | src/rpcserver/rpcserver.c:182-221 | A session without faults ends only with a request to close, a frame that is no request or a wrong magic number, and everything it had to send was sent in full; if no request for memory was refused either, every reply has its payload |
| `RpcFormat.SessionInNumbers` | src/protos/rpc.proto:5-24 | The numbers of a session: 0x1234569 in every request that is answered and in every reply, id + 0x100 for a success, 0x1000 for an error, from 0x100 on no id is served, 6 starts a process, 8 ends the session |
| `RpcFormat.FrameInBytes` | src/rpcserver/common.c:270-289 | A frame is eight bytes of length, the least significant first, and the message |
| `RpcFormat.MessageInBytes` | src/protos/rpc.proto:19-24 | A request or reply is 08, 10 and 18 with the magic number, the client and the command, and 22 with the length and the payload, each left out when it is zero or empty |
| `RpcFormat.PtyMessageInBytes` | src/protos/rpc.proto:26-31 | A message of a running process is 0A with the length and the output, or 10 with the exit code |
| `RpcFormat.RefusalInBytes` | src/rpcserver/routines.c:198-221 | The payload of a refusal is 0A, the length and at most 255 bytes of its text, or nothing for no text |
| `Session.ClientReceives` | src/rpcserver/common.c:299-320 | A client of a session in which nothing was cut off receives, in order, the handshake and the messages of the turns, however the stream is cut up |
| `Session.OneReplyEach` | src/rpcserver/rpcserver.c:190-217 | Without foreground processes the messages after the handshake correspond to the requests one by one |
| `Session.ReplyIdentifies` | src/rpcserver/routines.c:247-285 | That the id of a reply is that of the request plus the maximum exactly on success holds for a request if and only if its id is not 0xF00; the id of the reply is 0 exactly for a request that does not unpack |
| `Session.AmbiguousReply` | src/rpcserver/routines.c:247-285 | Every request with id 0xF00 is refused with the id of a success |
| `Client.OwnReply` | src/rpcclient/rpcclient/protocol/rpc_bridge.py:56-72 | In every interleaving, a task that receives a reply receives that to its own request if and only if no task on its connection has raised before between sending and receiving |
| `Client.MessagesInFlight` | src/rpcclient/rpcclient/protocol/rpc_socket.py:90-93 | In every interleaving of tasks, bridges and clones, the messages on their way on a connection are as many as the tasks that raised between sending and receiving, and one more if a task waits for its reply |
| `Client.MutualExclusion` | src/rpcclient/rpcclient/protocol/rpc_socket.py:90-93 | In every interleaving no two tasks on a connection are between acquiring its lock and leaving it |
| `Client.StepKeeps` | src/rpcclient/rpcclient/protocol/rpc_socket.py:90-93 | Every step of a task, of the server and of the network keeps the invariant, with the replies that nobody waits for counted |
| `Client.ReturnedStays` | src/rpcclient/rpcclient/protocol/rpc_bridge.py:56-72 | What a task has returned is what it has in every later state |
| `Client.ClonesShare` | src/rpcclient/rpcclient/protocol/rpc_bridge.py:96-99 | In every run two bridges have the same socket and lock exactly if they are clones of the same bridge, and then no two tasks on them hold the lock |
| `Client.PairingEndsWhenATaskRaises` | src/rpcclient/rpcclient/protocol/rpc_socket.py:90-93 | A run in which a task receives the reply to another one's request |
| `FsTree.Walk` | src/rpcclient/rpcclient/core/subsystems/fs.py:700-734 | The entries of all visits are what is below the top, each once, parents before or after what is below them |
| `FsTree.Find` | src/rpcclient/rpcclient/core/subsystems/fs.py:679-698 | Every path of the subtree once, parents first or last; it raises exactly when the top is not a directory |
| `FsTree.RemoveBelow` | src/rpcclient/rpcclient/core/subsystems/fs.py:473-480 | Removing during the traversal: everything below goes and no removal fails, forced or not, so every one is of a file or of a directory that is empty by then |
| `FsTree.Remove` | src/rpcclient/rpcclient/core/subsystems/fs.py:473-480 | Recursive removal takes exactly the subtree; a single removal takes the path exactly if it is a file or an empty directory; a missing path raises if recursive |
| `FsCopy.CpDir` | src/rpcclient/rpcclient/core/subsystems/fs.py:363-394 | It succeeds exactly if the destination can be there, no directory with entries meets a file, and no file is forced on a directory; then exactly the paths of the source tree are copied and existing files stay unless forced; and always, when it raises too, nothing changes but what becomes a copy, also within one file system |
| `FsCopy.ApartExactly` | src/rpcclient/rpcclient/core/subsystems/fs.py:363-394 | No path is copied into the source exactly if the destination is not in the source and the source has nothing where its own copy would be |
| `FsCopy.Cp` | src/rpcclient/rpcclient/core/subsystems/fs.py:396-434 | A directory arrives under its own name in the destination exactly if that can be there and nothing clashes, and into an absent one its tree is reproduced with nothing else there; a file is written to the destination, or into it if that is a directory, exactly if it can be and does not stay unforced; a missing source raises after the destination was made; directories are omitted unless recursive |
| `FsCopy.AbsentIsReproduced` | src/rpcclient/rpcclient/core/subsystems/fs.py:363-434 | Copying a directory into an absent destination reproduces its tree there and changes nothing else |
| `FsCopy.File.Write` | src/rpcclient/rpcclient/core/subsystems/fs.py:166-171 | Everything is written in order, whatever each write takes; the returned length is that of the rest, which is 0 |
| `Strings.CEscapeInternal` | src/rpcserver/protobuf-c/protoc-c/c_helpers.cc:504-545 | -1 exactly when the escaped string and its NUL do not fit; otherwise the escaped string, never one cut off by the end of the buffer |
| `Strings.CEscape` | src/rpcserver/protobuf-c/protoc-c/c_helpers.cc:546-553 | With the buffer of 4n+1 bytes the escaped string is always returned |
| `Strings.ReadEscaped` | src/rpcserver/protobuf-c/protoc-c/c_helpers.cc:504-553 | Reading the escaped string as a string literal gives the string back, with octal and with hexadecimal numbers |
| `Strings.FilenameIdentifier` | src/rpcserver/protobuf-c/protoc-c/c_helpers.cc:321-335 | The identifier keeps letters and digits and replaces every other byte by its hexadecimal number |
| `Strings.InjectiveExactly` | src/rpcserver/protobuf-c/protoc-c/c_helpers.cc:321-335 | Names over an alphabet never share an identifier exactly if it does not hold a byte c below 16 other than 0, the digit of v, and a byte 16c+v that is no letter or digit |
| `Strings.IdentifierInjective` | src/rpcserver/protobuf-c/protoc-c/c_helpers.cc:321-335 | So different names whose bytes are NUL or at least 16 have different identifiers |
| `Strings.ClashCollides` | src/rpcserver/protobuf-c/protoc-c/c_helpers.cc:321-335 | The name of such a c and the digit of v has the identifier of the name 16c+v |
| `Strings.SmallBytesCollide` | src/rpcserver/protobuf-c/protoc-c/c_helpers.cc:321-335 | A tab and the digit 0 have the identifier of the byte with hexadecimal number 90 |
| `Strings.SplitStringUsing` | src/rpcserver/protobuf-c/protoc-c/c_helpers.cc:455-495 | The fast path and the general path split into the same pieces |
| `Strings.PiecesAreTheRest` | src/rpcserver/protobuf-c/protoc-c/c_helpers.cc:455-488 | The pieces are, in order, all that is not a delimiter, and none is empty |
| `CallAbi.PlaceArguments` | src/rpcserver/call_abi.c:15-41 | The loop writes the word of each argument to its location, and leaves the others zero: there are eight registers of each class and sixteen slots, the k-th integer, string or bytes among the named arguments is in x[k] and the k-th double in d[k] for k below 8, and every other typed or variadic argument in the slot numbered by those on the stack before it, but for an argument whose place is taken by a named one without a type after it |
| `CallAbi.EveryArgumentInPlace` | src/rpcserver/call_abi.c:15-41 | With types for all arguments each is found in the register numbered by the prior arguments of its class or in its stack slot, and everything else is zero |
| `CallAbi.OnceExactly` | src/rpcserver/call_abi.c:27-33 | No register and no slot is used twice, if and only if no named argument after the first lacks a type |
| `CallAbi.VariadicInOrder` | src/rpcserver/call_abi.c:29-33 | Variadic arguments take consecutive stack slots in order |

## Left out

Of the codec:

- Messages of 2 GiB and above, the truncation of counts and lengths to 32 bits that they would meet, and the overflow of `size_t` in allocation sizes.
- The branches for big-endian machines.
- Struct offsets, unions and pointers into messages: a message is a tree of values with block addresses, so that two members which share storage in a oneof are one `HOneof`. Reading a oneof's storage through the wrong member is not expressed.
- The message under construction and the merged messages are values that the methods return, not objects that they update in place; the slabs, the bitmap, the counters, the output array and the growing buffer are updated in place. Aliasing between messages is only visible through `Owned`.
- The counters of repeated fields are an array beside the message, not the count members of the message itself, so that clearing the remaining counts on the way out of a failed reservation has nothing to do.
- `memcpy` of fixed-width elements is a loop over words here, and `qsort` a method that sorts.
- `must_free_data` of the simple buffer: its old storage is dropped, not freed.
- `message_init_generic`, default values of submessages, and the deprecated reading of descriptors without `message_init`.
- `protobuf_c_message_check` as code: its conditions are part of `WellFormed`.
- Services, and the lookup of fields and methods by name, which is the search of `EnumTables.SearchName` over other tables.
- The text that the generators print: the tables are values.
- Canonical.Normalize: the canonical form cuts strings at a NUL, words to their width and truth values to 0 or 1, and drops unlabelled zeros, -0.0 among them, as the code does.

Of the session:

- RpcMessages.PtyRoundTrip: the client parses with Google's Python implementation, which is not part of this model; both sides are taken to follow the same format.
- The handshake's contents: it is some packed message.
- What routines, processes and terminals do: their results are arbitrary values, and the requests that unpack are given by a predicate.
- A send, a receive or a wait that never ends: `patience` bounds the transfers that move nothing by any number chosen beforehand, and a terminal session has any finite number of rounds.
- Sessions that share the pending terminal in one process after a failed send; the model is of one worker.
- Session.Server.RoutineExec: which request starts a process in the foreground is a predicate on its payload, and starting one succeeds or not.
- Session.Server.RpcDispatch: the texts of refusals are any function of the outcome and the request's id.
- Session.FaultlessSession: select that finds nothing to do ends terminal mode as the end of the output does, without being counted as a fault.
- The use of the request after it was freed at the end of the server's loop: the id is read before.
- Client.OwnReply: a message is sent or received whole; a task that raises with part of a frame sent or received is not expressed.
- A client socket in blocking mode, cancelled tasks, and the client's terminal mode, which reads the socket outside the lock.
- Opening and closing of sockets, logging, spawning of workers.

Of the file operations and the rest:

- Symbolic links, modes, owners and errors other than those of a wrong kind of path.
- FsCopy.CpDir: within one file system, a destination inside the source, for which the original does not come to an end, the source itself as the destination, and copies that fall inside the source, whose outcome depends on the order of the entries.
- FsCopy.Cp: one source at a time; copying several repeats it.
- Reading of files, temporary directories, and the walk's `onerror`.
- Characters beyond ASCII in `isprint` and `isalnum`, whose meaning depends on the locale; they count as neither.
- CallAbi.PlaceArguments: at most 16 stack arguments, for which the original has room; the assembly that makes the call, the other architecture, and what is done with the results.
- The Darwin-specific wrappers, the console, the shell and the event notifier.
