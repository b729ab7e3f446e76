# Message codec and request bookkeeping, verified

A Dafny model of two libraries vendored under `Main/Pods`, with proofs about it. `dafny verify dfyconfig.toml` checks
all of it.

**nanopb**, the Protocol Buffers codec, with static allocation. A descriptor is a list of fields; a struct is a list of
typed slots, one for a field or a whole oneof, with its has_ flag, count or which_ value. `PbEncoding.dfy`
and `PbDecoding.dfy` say, as functions, which bytes a struct is and what struct some bytes make; `PbEncoder.dfy` and
`PbDecoder.dfy` are the C functions, statement by statement, over stream objects, each proved to compute those
functions. What the codec is for is proved about the functions, for every descriptor, struct and input:

- what was encoded decodes to the same message, at any nesting depth, and exactly when it does not
  (`PbRoundTrip.dfy`, `PbExactness.dfy`);
- an input is accepted exactly when it is whole records, among them one of each required field, with arrays complete; a
  number, exactly when its field can hold it (`PbRecords.dfy`, `PbAcceptance.dfy`, `PbNumbers.dfy`);
- the encoder writes whole records in the standard's own bytes, which any decoder gets through; it leaves out what would
  be empty, and the decoder starts from defaults (`PbEmission.dfy`, `PbNumbers.dfy`, `PbDefaults.dfy`);
- packed and unpacked arrays decode alike (`PbPacking.dfy`);
- whatever bytes are accepted, counts and sizes stay in bounds (`PbSoundness.dfy`);
- an encoded message decoded over a struct merges into it, field by field at every depth, exactly when the arrays have
  room for both; and so two encodings in a row, with one exception (`PbRoundTrip.dfy`, `PbConcatenation.dfy`);
- decoding bytes in two steps is decoding them in one, and unknown records are invisible (`PbMerge.dfy`);
- measuring and writing agree, so does the iterator with the struct layout and the bitmask with a set of required fields
  (`PbEncoder.dfy`, `PbFieldIter.dfy`, `PbRequired.dfy`);
- the integer formats are inverse to each other (`Wire.dfy`), following the sections "Base 128 Varints", "Signed
  Integers", "Message Structure" and "Length-Delimited Records" of the Protocol Buffers encoding.

**Alamofire**'s bookkeeping. Each class keeps its fields, and each lock body is a method proved against a function of the
state. Runs of a whole system then interleave these functions with dispatched work in any order:

- `AuthenticationInterceptor.dfy`: one refresh at a time, no completion lost, answered twice or answered without
  grounds, which credential is refreshed, and the sliding window;
- `RequestTaskMap.dfy`: metrics and completion arrive in either order, three maps and a table refine one simple map;
- `RequestSerializers.dfy`: the state machine, and the pass over the response serializers;
- `DataStream.dfy`: completions wait for stream closures;
- `MultipartFormData.dfy`, `MultipartParsing.dfy`: the streaming encoder refines the one in memory, over streams that
  read and write in pieces of any size, and a form can be read back as section 5.1.1 of RFC 2046 says.

`Wrappers.dfy` and `Sequences.dfy` hold what several files use.

## Where the code does less than it says

Each with an input that shows it, and the condition under which the code does what it says, for all inputs.

- A proto3 field that has a default of its own and is zero is not sent, so it comes back as its default
  (`Exactness.CustomDefaultReplacesZero`). `Exactness.RoundTripExact` says which structs come back, and
  `Exactness.RoundTripPlain` that without such defaults all do whose which_ values are known.
- A message with exactly one fixed-count array of its own that has items cannot be concatenated with another of its kind
  (`Concatenation.FixedArrayTwiceFails`): the position in the array is reset when a different fixed-count field begins,
  so the second copy overflows it. Otherwise encodings concatenate if and only if the arrays have room
  (`Concatenation.EncodingsConcatenate`).
- The decoder does not check the wire type of a known field, which it reads by the field's type. So an input whose records
  are whole by their keys may still hide a record inside another's payload (`Acceptance.WireTypeHidesRecord`); records are
  what their fields make of them, and then a decode succeeds if and only if none is missing (`Acceptance.AcceptedIff`).
- The 32-bit varint decoder refuses what does not fit (`Wire.Varint32AcceptsIff`), up to 37 bytes; from there its 8-bit
  counter comes around and a number is read that is not there (`Wire.CounterWrapsAround`).
- The streaming multipart encoder does not check declared lengths (`Multipart.WrongLengthIsStreamed`): it writes what
  encode() gives if and only if all of them are right (`Multipart.StreamedIsEncodedIff`). Nor does it notice a full
  output stream; the file is whole if and only if there is room (`Multipart.StreamingRefinesEncoding`).
- The map documented as one to one stays so if and only if neither the request nor the task inserted is mapped, or the two
  are to each other (`TaskMap.AssociateKeepsIff`, `TaskMap.SecondTaskBreaksMap`). A caller gets there by a retry of a
  request whose task is live: retryRequest is public and asks only whether the request is cancelled
  (Session.swift:1202-1217), and what it performs inserts a new task (Session.swift:1102-1103). So may a response
  serializer that asks for a retry (ResponseSerialization.swift:246-272) after finish() was called on a live request
  (Session.swift:1262).
- A response serializer appended between the empty check and the drain is dropped
  (`RequestLifecycle.LateAppendIsDropped`); `RequestLifecycle.FirstPassIsInOrder` counts exactly those.
- Stream completions are to be "only fired after all streams are enqueued" (Request.swift:1346). That holds of a run if
  and only if no stream closure is given data received after a completion was released (`DataStreams.CompletionsComeLast`,
  `DataStreams.LateDataIsNotAwaited`). The session calls finish() on requests whose task is live when it goes away
  (Session.swift:1167) or is invalidated (Session.swift:1262); finish() neither cancels the task nor drops the streams, so
  data that the task still delivers is that late. In any run a completion waits for all calls scheduled before its
  release (`DataStreams.EarlierCallsAreFinished`).
- retry reads the credential outside the lock, so it may dispatch a refresh of a credential that has been replaced
  (`Authentication.ReplacedCredentialIsRefreshed`), if and only if it changed between the read and the lock
  (`Authentication.DispatchedIsCurrentIff`).

## Model

| member | source | states |
|---|---|---|
| `Wire.VarintSize` | Main/Pods/nanopb/pb_encode.c:608-628 | A varint of n bytes holds exactly the numbers below 128 to the n |
| `Wire.TenBytesSuffice` | Main/Pods/nanopb/pb_encode.c:608-628 | Any 64-bit value fits the ten bytes of the local buffer |
| `Wire.Varint64RoundTrip` | Main/Pods/nanopb/pb_decode.c:255-275 | For every 64-bit value, reading undoes writing and consumes exactly the bytes written, whatever follows |
| `Wire.Varint32Refines64` | Main/Pods/nanopb/pb_decode.c:187-275 | On a varint of at most ten bytes, a successful 32-bit decode consumes what the 64-bit decode consumes and gives its value modulo 2^32, although its bit counter is eight bits wide |
| `Wire.Varint32RoundTrip` | Main/Pods/nanopb/pb_decode.c:187-252 | The 32-bit decoder accepts every 32-bit number as encoded |
| `Wire.NegativeVarint32` | Main/Pods/nanopb/pb_decode.c:187-252 | and every negative 32-bit number as written sign-extended to 64 bits |
| `Wire.Varint32AcceptsIff` | Main/Pods/nanopb/pb_decode.c:187-247 | Exactly which varints the 32-bit decoder accepts and what it makes of them: no bit past bit 31 in a fifth byte that is the last, and past the fifth byte only padding or the sign of a negative number |
| `Wire.CounterWrapsAround` | Main/Pods/nanopb/pb_decode.c:187-247 | From 38 bytes on it does not hold: the bit counter comes around, and a 1 far beyond bit 63 is read as an 8 |
| `Wire.ZigZagInverse` | Main/Pods/nanopb/pb_decode.c:1285-1297 | Zigzag maps signed to unsigned as the encoding specifies, and is undone by the decoder |
| `Wire.FixedRoundTrip` | Main/Pods/nanopb/pb_decode.c:1299-1331 | Little-endian words of any width come back, and only their bytes are consumed |
| `Wire.VarintDigit` | Main/Pods/nanopb/pb_encode.c:608-628 | Byte k of a varint is bits 7k to 7k+6 of the number, and the top bit of all bytes but the last is set |
| `Wire.LittleEndianDigit` | Main/Pods/nanopb/pb_encode.c:641-666 | Byte k of a word is bits 8k to 8k+7 of the number, as written |
| `Wire.FromLittleEndianDigit` | Main/Pods/nanopb/pb_decode.c:1299-1331 | and as read |
| `Numbers.EncodesStandard` | Main/Pods/nanopb/pb_encode.c:769-850 | Every number is written as the encoding prescribes, in the shortest payload: negative signed numbers sign-extended to 64 bits, bools as 0 or 1, words of their own width |
| `Numbers.FitsIff` | Main/Pods/nanopb/pb_decode.c:1334-1445 | A field of n bytes holds the signed or unsigned numbers of 8n bits |
| `Numbers.NumberDecodesIff` | Main/Pods/nanopb/pb_decode.c:1334-1445 | A whole payload is accepted if and only if the field can hold the number it stands for, which is what is stored; nothing after it is read |
| `Numbers.NumberIsWhole` | Main/Pods/nanopb/pb_decode.c:1334-1445 | Whatever a number is read from begins with such a payload |
| `Numbers.TooLargeIsRefused` | Main/Pods/nanopb/pb_decode.c:1334-1392 | A number outside its field's type is refused, unsigned, signed and zigzag |
| `Descriptors.SharedSlot` | Main/Pods/nanopb/pb_common.c:29-85 | Two fields share storage only as members of one oneof |
| `Descriptors.InitMessageAt` | Main/Pods/nanopb/pb_decode.c:845-928 | After initialisation every field, and every union, holds its own default |
| `Descriptors.WellFormedIsNavigable` | Main/Pods/nanopb/pb_common.c:8-104 | Descriptors as generated for static allocation meet what the iterator relies on |
| `FieldIterator.UnionMembersOverlay` | Main/Pods/nanopb/pb_common.c:47-60 | Members of a union are reached at one offset |
| `FieldIterator.FieldsDoNotOverlap` | Main/Pods/nanopb/pb_common.c:47-72 | Any other field ends before the next begins, arrays and their sizes included |
| `FieldIterator.OffsetsComeBack` | Main/Pods/nanopb/pb.h:391-436 | For a descriptor filled in from offsetof and sizeof, the iterator's sums give back the offset of every member |
| `FieldIterator.FieldIter.Begin` | Main/Pods/nanopb/pb_common.c:8-27 | Starts at field 0 with its offset, size pointer and required index; whether there is a field |
| `FieldIterator.FieldIter.Next` | Main/Pods/nanopb/pb_common.c:29-85 | Goes to the next field or wraps around; offset and number of required fields before it are those of the descriptor |
| `FieldIterator.FieldIter.Find` | Main/Pods/nanopb/pb_common.c:87-104 | Ends from any position; succeeds if and only if a field has the tag, and returns to where it was if not |
| `Encoding.EncodesIffInBounds` | Main/Pods/nanopb/pb_encode.c:147-236 | For any struct of the right shape, encoding fails if and only if a present array exceeds array_size or a present bytes field its buffer, at any depth |
| `Encoder.OStream.BufWrite` | Main/Pods/nanopb/pb_encode.c:74-84 | Copies to the position and moves it, touching nothing else |
| `Encoder.PbWrite` | Main/Pods/nanopb/pb_encode.c:103-124 | Fails without effect when full; a sizing stream only counts, modulo 2^64 |
| `Encoder.PbEncodeVarint` | Main/Pods/nanopb/pb_encode.c:608-628 | Emits the base 128 digits, using at most ten bytes of buffer |
| `Encoder.PbEncodeSVarint` | Main/Pods/nanopb/pb_encode.c:630-639 | Emits the zigzag form |
| `Encoder.PbEncodeFixed` | Main/Pods/nanopb/pb_encode.c:641-666 | Emits the word, lowest byte first |
| `Encoder.PbEncodeTag` | Main/Pods/nanopb/pb_encode.c:669-673 | Emits the key |
| `Encoder.PbEncodeString` | Main/Pods/nanopb/pb_encode.c:709-715 | Emits the length and the bytes |
| `Encoder.PbCheckProto3Default` | Main/Pods/nanopb/pb_encode.c:240-337 | Decides whether a proto3 field is left out, recursively through submessages |
| `Encoder.PbEncNumber` | Main/Pods/nanopb/pb_encode.c:769-850 | Numeric fields of every width and signedness; an unknown width is an error |
| `Encoder.PbEncString` | Main/Pods/nanopb/pb_encode.c:873-897 | A string ends at its terminator or its buffer |
| `Encoder.PackedFixedSize` | Main/Pods/nanopb/pb_encode.c:161-171 | The computed size of a packed fixed-width array is the size of its encoding |
| `Encoder.EncodeArrayField` | Main/Pods/nanopb/pb_encode.c:147-236 | Packed or one record each; on a writing and on a sizing stream the same bytes |
| `Encoder.EncodeBasicField` | Main/Pods/nanopb/pb_encode.c:341-426 | Required, optional, proto3, repeated, fixed-count and oneof fields |
| `Encoder.PbEncode` | Main/Pods/nanopb/pb_encode.c:528-550 | Emits exactly the fields in descriptor order: succeeds if and only if they can be encoded and there is room, on either kind of stream |
| `Encoder.PbEncodeSubmessage` | Main/Pods/nanopb/pb_encode.c:717-765 | The measuring and the writing pass agree at every depth, so `submsg size changed` is not reached for a payload below 2^64 bytes |
| `Encoder.PbEncodeDelimited` | Main/Pods/nanopb/pb_encode.c:552-555 | A length and the message |
| `Encoder.PbEncodeNullTerminated` | Main/Pods/nanopb/pb_encode.c:557-565 | The message and a zero byte |
| `Encoder.PbGetEncodedSize` | Main/Pods/nanopb/pb_encode.c:567-576 | The number of bytes the encoder would write, modulo 2^64, if it would succeed |
| `Encoder.EncodeToBuffer` | Main/Pods/nanopb/pb_encode.c:86-124 | Encoding to a buffer succeeds if and only if sizing does and the size fits; nothing beyond the given size is touched |
| `Emission.EncodingIsRecords` | Main/Pods/nanopb/pb_encode.c:669-707 | An encoded message is a sequence of whole records in descriptor order, each under the shortest key of its tag and of the wire type its payload has: none for a field left out, one for a value or a packed array, one for each item otherwise |
| `Emission.ForeignMessageSkipped` | Main/Pods/nanopb/pb_encode.c:669-707 | A decoder that knows none of the fields skips an encoded message wherever it stands in its input |
| `Emission.EmptyDescriptorReads` | Main/Pods/nanopb/pb_encode.c:669-707 | Even an empty descriptor reads any encoded message to its end |
| `Defaults.LeftOutIff` | Main/Pods/nanopb/pb_encode.c:240-337 | A number, string or bytes field without has_ is left out if and only if it would be sent as its type's empty value |
| `Defaults.SubmessageLeftOutIff` | Main/Pods/nanopb/pb_encode.c:240-337 | and a submessage if and only if nothing would be sent of it |
| `Decoder.IStream.BufRead` | Main/Pods/nanopb/pb_decode.c:87-100 | Copies or skips the next bytes |
| `Decoder.PbRead` | Main/Pods/nanopb/pb_decode.c:102-137 | All of the requested bytes or none; the end of the region stays |
| `Decoder.PbReadByte` | Main/Pods/nanopb/pb_decode.c:141-157 | The next byte, if there is one |
| `Decoder.PbDecodeVarint32Eof` | Main/Pods/nanopb/pb_decode.c:187-247 | The loop computes the 32-bit decoder's function; eof only at the end of the stream |
| `Decoder.PbDecodeVarint` | Main/Pods/nanopb/pb_decode.c:255-275 | The loop computes the number of the base 128 digits modulo 2^64, of at most ten bytes |
| `Decoder.PbSkipField` | Main/Pods/nanopb/pb_decode.c:278-331 | Skips exactly one payload of wire type 0, 1, 2 or 5, and fails on others |
| `Decoder.PbDecodeTag` | Main/Pods/nanopb/pb_decode.c:298-319 | A key, the zero that ends a message, or an error |
| `Decoder.PbMakeStringSubstream` | Main/Pods/nanopb/pb_decode.c:372-385 | The child's bytes and the parent's remaining ones make up what the parent had |
| `Decoder.PbCloseStringSubstream` | Main/Pods/nanopb/pb_decode.c:387-400 | The parent ends up past the child's share, however much of it was read |
| `Decoder.PbDecodeFixed32` | Main/Pods/nanopb/pb_decode.c:1299-1311 | The word of the next four bytes |
| `Decoder.PbDecodeFixed64` | Main/Pods/nanopb/pb_decode.c:1314-1331 | The word of the next eight bytes |
| `Decoder.PbDecNumber` | Main/Pods/nanopb/pb_decode.c:1334-1445 | Each numeric type, with the overflow check of its width |
| `Decoder.PbDecBlob` | Main/Pods/nanopb/pb_decode.c:1447-1570 | Bytes, strings and fixed-length bytes, with the check against the field's size |
| `Decoder.PbFieldSetToDefault` | Main/Pods/nanopb/pb_decode.c:845-915 | One field's default, submessages recursively |
| `Decoder.PbMessageSetToDefaults` | Main/Pods/nanopb/pb_decode.c:917-928 | The struct of defaults |
| `Decoder.PbDecSubmessage` | Main/Pods/nanopb/pb_decode.c:1525-1547 | A submessage is decoded over its defaults or merged; the parent ends just past its payload |
| `Decoder.DecodeRepeatedField` | Main/Pods/nanopb/pb_decode.c:415-467 | A packed array or one more item, never past array_size |
| `Decoder.DecodeStaticField` | Main/Pods/nanopb/pb_decode.c:406-483 | Each kind of field, with has_, count or which_ set |
| `Decoder.PbDecodeNoinit` | Main/Pods/nanopb/pb_decode.c:934-1082 | The loop, its bitmask, iterator and fixed-count tracking compute the decoder's function; the unread bytes are those it leaves; it ends on every input |
| `Decoder.RequiredFieldsPresent` | Main/Pods/nanopb/pb_decode.c:1039-1079 | The final check passes if and only if each of the first min(n, 64) required fields was seen, n being found by stepping to the wrap-around |
| `Decoder.PbDecode` | Main/Pods/nanopb/pb_decode.c:1084-1096 | Decoding over the defaults |
| `Decoder.PbDecodeDelimited` | Main/Pods/nanopb/pb_decode.c:1113-1126 | Reads one length-prefixed message and leaves what follows |
| `RequiredMask.MarkSeen` | Main/Pods/nanopb/pb_decode.c:1021-1026 | Setting a bit adds the field to the set the mask stands for |
| `RequiredMask.FullWord` | Main/Pods/nanopb/pb_decode.c:1068-1076 | Comparing with the shifted mask is asking for all low bits |
| `RequiredMask.AllPresent` | Main/Pods/nanopb/pb_decode.c:1057-1078 | Whole words, then the rest: passes if and only if all numbers below the count are in the set |
| `Records.WireTypeIgnored` | Main/Pods/nanopb/pb_decode.c:406-483 | Of a known field's wire type only this matters: whether it makes a packed array |
| `Records.BlobDecodesIff` | Main/Pods/nanopb/pb_decode.c:1447-1570 | Exactly which lengths bytes, string and fixed-length fields take; an empty fixed-length field reads as zeros |
| `Records.AcceptedIsRecords` | Main/Pods/nanopb/pb_decode.c:934-1030 | An input is got through only as a sequence of whole records, up to its end or a zero key |
| `Records.TruncatedFails` | Main/Pods/nanopb/pb_decode.c:934-1030 | An input cut off inside a record is refused |
| `Acceptance.AcceptedIff` | Main/Pods/nanopb/pb_decode.c:996-1079 | Such an input is accepted if and only if each of the first 64 required fields has a record among them, and the fixed-count array last filled got as many items as it has, counted from the payloads; all others have got them |
| `Acceptance.SeenIffTaken` | Main/Pods/nanopb/pb_decode.c:1021-1026 | The bitmask has a required field if and only if a record with its tag was read |
| `Acceptance.MissingRequiredFails` | Main/Pods/nanopb/pb_decode.c:1039-1079 | Without a record of a tracked required field the decode fails, whatever the input |
| `Acceptance.MissingRecordFails` | Main/Pods/nanopb/pb_decode.c:1039-1079 | so for every input made of whole records none of which has its tag |
| `Acceptance.WireTypeHidesRecord` | Main/Pods/nanopb/pb_decode.c:406-483 | Whole by the wire type in the key is not enough: in one input a required field is found inside the payload of another field |
| `Defaults.NothingIsDefaults` | Main/Pods/nanopb/pb_decode.c:845-928 | No bytes at all are a struct of defaults, at every depth, presets, zeros and unset flags; or an error if a field is required |
| `Merging.LoopConcatenates` | Main/Pods/nanopb/pb_decode.c:934-1030 | Where decoding of a leaves off, decoding of b takes over, for any descriptor |
| `Merging.ConcatenationMerges` | Main/Pods/nanopb/pb_decode.h:70-80 | Decoding a then b over a struct is decoding their concatenation, in outcome, struct and bytes left |
| `Merging.UnknownFieldsTransparent` | Main/Pods/nanopb/pb_decode.c:966-995 | A whole record with an unknown tag, between any two fields, changes nothing |
| `Merging.WholeRecordsAreSkipped` | Main/Pods/nanopb/pb_decode.c:278-331 | Every complete payload of wire type 0, 1, 2 or 5 under an unknown tag is such a record |
| `Merging.OtherWireTypesFail` | Main/Pods/nanopb/pb_decode.c:321-331 | Under any other wire type the decode fails |
| `Merging.DelimitedRoundTrip` | Main/Pods/nanopb/pb_decode.c:372-385 | A delimited payload comes back whole |
| `RoundTrip.NumberRoundTrip` | Main/Pods/nanopb/pb_decode.c:1334-1445 | Every number its C type can hold comes back, at every width |
| `RoundTrip.BlobRoundTrip` | Main/Pods/nanopb/pb_decode.c:1447-1570 | Every byte string within its field comes back |
| `RoundTrip.PackedRoundTrip` | Main/Pods/nanopb/pb_decode.c:415-453 | A packed array comes back item by item |
| `RoundTrip.ValueMerges` | Main/Pods/nanopb/pb_decode.c:1525-1547 | A value read over another: a submessage is merged with it, anything else replaces it |
| `RoundTrip.UnpackedMerges` | Main/Pods/nanopb/pb_decode.c:454-467 | An array of any type with a record for each item is appended item by item, or fills its fixed-count array, whatever follows |
| `Packing.UnpackedAsPacked` | Main/Pods/nanopb/pb_decode.c:415-467 | Wherever there is room, the items of a packable array in records of their own take the decoder to the same state as one packed record of them; also part of a fixed-count array |
| `RoundTrip.FieldMerges` | Main/Pods/nanopb/pb_decode.c:406-483 | The bytes of a field take the decoder from the struct merged so far to the struct with that field merged |
| `RoundTrip.MergedAt` | Main/Pods/nanopb/pb_decode.h:70-80 | In the merged struct a present field is its value merged with the one in place, oneof members and overlaid slots included |
| `RoundTrip.MergedIntoDefaults` | Main/Pods/nanopb/pb_decode.c:1084-1096 | Merging into the defaults restores the message |
| `RoundTrip.MessageMerges` | Main/Pods/nanopb/pb_decode.h:70-80 | Decoding an encoded message over any struct with room for its items merges the two, field by field and at every depth, and consumes every byte |
| `RoundTrip.RequiredSeen` | Main/Pods/nanopb/pb_decode.c:1021-1026 | Encoding marks every tracked required field |
| `RoundTrip.MessageRoundTrip` | Main/Pods/nanopb/pb_decode.c:1084-1096 | Decoding what was encoded succeeds, consumes every byte and restores the present fields, for every well-formed descriptor and fitting struct |
| `RoundTrip.DelimitedMessageRoundTrip` | Main/Pods/nanopb/pb_decode.c:1113-1126 | So does a delimited message inside a longer stream, leaving the rest |
| `RoundTrip.NullTerminatedRoundTrip` | Main/Pods/nanopb/pb_decode.c:1128-1132 | So does a null-terminated one |
| `RoundTrip.SubmessageEndsAtZero` | Main/Pods/nanopb/pb_decode.c:1525-1547 | Inside a submessage whatever follows a zero key is skipped with it |
| `Exactness.MessageComesBack` | Main/Pods/nanopb/pb_encode.c:240-337 | The restored struct means the sent one if and only if every field left out has a zero default and every which_ names a member or none |
| `Exactness.RoundTripExact` | Main/Pods/nanopb/pb_encode.c:341-426 | The round trip with that exact condition |
| `Exactness.CustomDefaultReplacesZero` | Main/Pods/nanopb/pb_encode.c:318-337 | Without the condition it fails: a singular field with default 5 sent as 0 comes back as 5 |
| `Exactness.PlainDefaultsAreZero` | Main/Pods/nanopb/pb_encode.c:240-337 | A zero value of a singular field without a custom default, at any depth, has a zero default |
| `Exactness.PlainRestorable` | Main/Pods/nanopb/pb_encode.c:240-337 | On a descriptor without custom defaults on fields that have no has_, a struct meets that condition if and only if every which_ in it, at every depth, names a member or none |
| `Exactness.RoundTripPlain` | Main/Pods/nanopb/pb_encode.c:341-426 | On such a descriptor the decoded struct means the sent one if and only if that holds of its which_ values |
| `Exactness.EncodingTellsApart` | Main/Pods/nanopb/pb_encode.c:528-550 | Two structs that come back as they were, by the exact condition, have one encoding if and only if they mean the same message |
| `Concatenation.MergesIff` | Main/Pods/nanopb/pb_decode.h:70-80 | An encoded message decoded over any struct of its shape merges into it if the arrays have room for the items of both, and fails otherwise |
| `Concatenation.EncodingsConcatenate` | Main/Pods/nanopb/pb_decode.c:934-1037 | Two encodings in a row decode to the second merged into the first if the arrays have room and the message has not exactly one fixed-count array of its own; otherwise they fail |
| `Concatenation.FixedArrayTwiceFails` | Main/Pods/nanopb/pb_decode.c:997-1018 | A message that is one such array, encoded twice in a row, is refused |
| `Soundness.MessageGood` | Main/Pods/nanopb/pb_decode.c:934-1030 | Decoding any bytes over a struct within bounds leaves one within bounds |
| `Soundness.DecodedCanBeEncoded` | Main/Pods/nanopb/pb_decode.c:1084-1096 | Whatever the decoder accepts has the right shape and can be encoded again |
| `Authentication.Interceptor.AdaptInLock` | Main/Pods/Alamofire/Source/AuthenticationInterceptor.swift:251-277 | Queues behind a refresh, reports a missing credential, starts a refresh, or adapts |
| `Authentication.Interceptor.RetryInLock` | Main/Pods/Alamofire/Source/AuthenticationInterceptor.swift:321-327 | Queues the retry, and starts a refresh unless one is in place |
| `Authentication.Interceptor.RefreshInLock` | Main/Pods/Alamofire/Source/AuthenticationInterceptor.swift:332-353 | Fails what waits if refreshes are excessive, else stamps and dispatches one |
| `Authentication.Interceptor.RefreshExcessive` | Main/Pods/Alamofire/Source/AuthenticationInterceptor.swift:355-368 | The reduce over the timestamps, a loop, counts those from the start of the window on and compares with the limit |
| `Authentication.ExcessiveIff` | Main/Pods/Alamofire/Source/AuthenticationInterceptor.swift:355-368 | In every reachable state, at any time not past, refreshes are excessive if and only if there is a window and the closed interval of its length that ends then holds maximumAttempts of them, however many came before |
| `Authentication.RefusedOnlyWhenFull` | Main/Pods/Alamofire/Source/AuthenticationInterceptor.swift:332-368 | Over every run, a call is answered that refreshes are excessive only if that interval was full at the time of its check |
| `Authentication.WithinSince` | Main/Pods/Alamofire/Source/AuthenticationInterceptor.swift:360-364 | A closed interval holds no more timestamps than are counted from its start, or from any earlier time |
| `Authentication.Interceptor.HandleRefreshSuccess` | Main/Pods/Alamofire/Source/AuthenticationInterceptor.swift:370-386 | Stores the credential and hands over both queues in one step |
| `Authentication.Interceptor.HandleRefreshFailure` | Main/Pods/Alamofire/Source/AuthenticationInterceptor.swift:388-402 | Hands over both queues with the error |
| `Authentication.StepKeeps` | Main/Pods/Alamofire/Source/AuthenticationInterceptor.swift:250-402 | Every step keeps one refresh in flight at most, and every completion in exactly one place |
| `Authentication.ReachableStates` | Main/Pods/Alamofire/Source/AuthenticationInterceptor.swift:250-402 | In every reachable state a refresh is in flight if and only if isRefreshing, nothing waits otherwise, and each call made is in exactly one place, once |
| `Authentication.QuiescentIsAnswered` | Main/Pods/Alamofire/Source/AuthenticationInterceptor.swift:370-402 | When nothing is under way every call has been answered exactly once, adapts queued again included |
| `Authentication.AnswersHaveGrounds` | Main/Pods/Alamofire/Source/AuthenticationInterceptor.swift:250-402 | Over every run: an adapted request has a credential the interceptor was given and the call found needing no refresh; a retry comes of a refresh that succeeded while the call waited, or of a request not authenticated with the credential read; no retry, of a failure that was none of authentication; an error, of a refusal of that very call |
| `Authentication.AdaptDecides` | Main/Pods/Alamofire/Source/AuthenticationInterceptor.swift:251-277 | adapt waits for a refresh in place; else it answers at once, with a current credential and no refresh, or that there is none; else it waits for the refresh it dispatches, unless the window is full |
| `Authentication.RetryBegins` | Main/Pods/Alamofire/Source/AuthenticationInterceptor.swift:292-319 | retry answers at once and refreshes nothing unless its request failed to authenticate with the credential there is |
| `Authentication.RetryDecides` | Main/Pods/Alamofire/Source/AuthenticationInterceptor.swift:321-353 | retry likewise waits, or dispatches a refresh and waits, unless the window is full |
| `Authentication.DispatchedIsCurrentIff` | Main/Pods/Alamofire/Source/AuthenticationInterceptor.swift:304-327 | A refresh is dispatched for the current credential, unless retry dispatches it and the credential changed between its unlocked read and its lock |
| `Authentication.ReplacedCredentialIsRefreshed` | Main/Pods/Alamofire/Source/AuthenticationInterceptor.swift:304-327 | A run where it did: a credential already replaced is refreshed again |
| `Authentication.StampKeeps` | Main/Pods/Alamofire/Source/AuthenticationInterceptor.swift:338-368 | A timestamp read after the check still keeps every window within the limit |
| `Authentication.StepStamps` | Main/Pods/Alamofire/Source/AuthenticationInterceptor.swift:332-353 | Every refresh that starts is stamped, with a time read after its check, and nothing else is |
| `Authentication.RefreshesAreLimited` | Main/Pods/Alamofire/Source/AuthenticationInterceptor.swift:332-368 | Over every run, no closed interval of the window's length holds more than maximumAttempts refreshes |
| `Multipart.FirstMismatch` | Main/Pods/Alamofire/Source/MultipartFormData.swift:422-428 | There is an offending part if and only if some stream does not hold what was declared: the exact condition for encode() to fail without a stream error |
| `Multipart.InputStream.Read` | Main/Pods/Alamofire/Source/MultipartFormData.swift:409-411 | A read of any positive size, the end, or an error |
| `Multipart.EncodeHeaders` | Main/Pods/Alamofire/Source/MultipartFormData.swift:394-400 | The loop emits name, colon, value lines and an empty line |
| `Multipart.EncodeBodyStream` | Main/Pods/Alamofire/Source/MultipartFormData.swift:402-431 | For every pattern of short reads, the whole stream, or an error if its length is not the declared one |
| `Multipart.EncodePart` | Main/Pods/Alamofire/Source/MultipartFormData.swift:375-392 | Boundary, headers, body, and the final boundary of the last part |
| `Multipart.WriteBuffer` | Main/Pods/Alamofire/Source/MultipartFormData.swift:496-512 | For every pattern of partial writes, all bytes there is room for, in order |
| `Multipart.WriteBodyStream` | Main/Pods/Alamofire/Source/MultipartFormData.swift:452-479 | Sends the stream up to the declared length |
| `Multipart.WritePart` | Main/Pods/Alamofire/Source/MultipartFormData.swift:435-487 | Sends what EncodePart would give for that content |
| `Multipart.FormData.SetBodyPartError` | Main/Pods/Alamofire/Source/MultipartFormData.swift:542-545 | The first error is kept |
| `Multipart.FormData.Encode` | Main/Pods/Alamofire/Source/MultipartFormData.swift:322-338 | All parts in order, or the first error |
| `Multipart.FormData.WriteEncodedData` | Main/Pods/Alamofire/Source/MultipartFormData.swift:347-371 | The file holds the streamed form, as far as there is room |
| `Multipart.StreamingRefinesEncoding` | Main/Pods/Alamofire/Source/MultipartFormData.swift:322-371 | Where encode() succeeds the file gets the same bytes, if and only if there is room for them |
| `Multipart.StreamedIsEncodedIff` | Main/Pods/Alamofire/Source/MultipartFormData.swift:452-479 | For every form: the streaming encoder writes what encode() gives if and only if every stream holds what was declared, and leaves nothing out if and only if none holds more |
| `Multipart.WrongLengthIsStreamed` | Main/Pods/Alamofire/Source/MultipartFormData.swift:452-479 | One form that encode() rejects and the streaming encoder writes as a form with other content |
| `MultipartParsing.FindAfter` | Main/Pods/Alamofire/Source/MultipartFormData.swift:64-77 | A delimiter without a second CR cannot straddle the end of a part |
| `MultipartParsing.FormSplits` | Main/Pods/Alamofire/Source/MultipartFormData.swift:64-77 | Splitting the output at its delimiters gives the sequence of parts if and only if no part contains the delimiter |
| `MultipartParsing.EntityComesBack` | Main/Pods/Alamofire/Source/MultipartFormData.swift:394-400 | A part's headers and content are read back if and only if its headers are unambiguous |
| `MultipartParsing.FormComesBack` | Main/Pods/Alamofire/Source/MultipartFormData.swift:322-400 | A form is read back, headers and contents in order, if and only if it has a part and both conditions hold |
| `TaskMap.RequestTaskMap.SetTask` | Main/Pods/Alamofire/Source/RequestTaskMap.swift:47-66 | Inserts or removes a pair in all three maps, or is a consistency error |
| `TaskMap.RequestTaskMap.SetRequest` | Main/Pods/Alamofire/Source/RequestTaskMap.swift:68-87 | The same from the task's side |
| `TaskMap.RequestTaskMap.DisassociateAfterMetrics` | Main/Pods/Alamofire/Source/RequestTaskMap.swift:115-125 | Waits for completion, or removes the pair; errors on a repeat |
| `TaskMap.RequestTaskMap.DisassociateAfterCompletion` | Main/Pods/Alamofire/Source/RequestTaskMap.swift:127-147 | Waits for metrics, or removes the pair; errors on a repeat |
| `TaskMap.Session.DidCreateTask` | Main/Pods/Alamofire/Source/Session.swift:1095-1119 | The insertion of a new task |
| `TaskMap.Session.DidGatherMetricsForTask` | Main/Pods/Alamofire/Source/Session.swift:1229-1238 | Runs the waiting completion when the task was removed |
| `TaskMap.Session.DidCompleteTask` | Main/Pods/Alamofire/Source/Session.swift:1240-1250 | Runs the completion, or keeps it until metrics arrive |
| `TaskMap.AssociateKeepsIff` | Main/Pods/Alamofire/Source/RequestTaskMap.swift:62-65 | Inserting keeps the two maps inverse if and only if both sides are unmapped, or mapped to each other |
| `TaskMap.SecondTaskBreaksMap` | Main/Pods/Alamofire/Source/RequestTaskMap.swift:47-66 | A second task for a mapped request: both tasks map to it, and removing the second leaves the first without a way back |
| `TaskMap.CountsAgree` | Main/Pods/Alamofire/Source/RequestTaskMap.swift:89-113 | The preconditions of count, eventCount, isEmpty and isEventsEmpty hold |
| `TaskMap.StepRefines` | Main/Pods/Alamofire/Source/RequestTaskMap.swift:115-147 | Each step does what a map from live tasks to arrived events does; a fatalError is reached if and only if an event repeats or its task is not live |
| `TaskMap.EveryRun` | Main/Pods/Alamofire/Source/Session.swift:1095-1250 | On every orderly run: no fatalError, inverse maps of one domain, and the waiting completions are those of tasks completed without metrics |
| `TaskMap.CompletionsRunOnce` | Main/Pods/Alamofire/Source/Session.swift:1229-1250 | Each completion is run or waits once for each time it arrived, and none waits once no task is left |
| `TaskMap.EitherOrder` | Main/Pods/Alamofire/Source/Session.swift:1229-1250 | Either order of the two events, with anything about other tasks in between, runs the completion at the second |
| `TaskMap.EitherOrderInTheSession` | Main/Pods/Alamofire/Source/Session.swift:1229-1250 | and leaves the session's maps in the same state |
| `RequestLifecycle.Request.Finish` | Main/Pods/Alamofire/Source/Request.swift:515-528 | Starts the pass unless one is under way |
| `RequestLifecycle.Request.AppendResponseSerializer` | Main/Pods/Alamofire/Source/Request.swift:535-551 | Appends, revives a finished request, and says what is dispatched |
| `RequestLifecycle.Request.NextResponseSerializer` | Main/Pods/Alamofire/Source/Request.swift:556-568 | The serializer whose completion is still missing |
| `RequestLifecycle.Request.TakeCompletions` | Main/Pods/Alamofire/Source/Request.swift:576-592 | Takes all completions, clears both lists and finishes if it may |
| `RequestLifecycle.Request.ResponseSerializerDidComplete` | Main/Pods/Alamofire/Source/Request.swift:609-612 | Records the completion |
| `RequestLifecycle.Request.ResetForRetry` | Main/Pods/Alamofire/Source/Request.swift:615-627 | Serializers stay, their completions go |
| `RequestLifecycle.Request.TransitionTo` | Main/Pods/Alamofire/Source/Request.swift:671-733 | The guarded write of cancel, suspend and resume |
| `RequestLifecycle.Request.CancelOnResponse` | Main/Pods/Alamofire/Source/Request.swift:1174-1181 | The unguarded write of cancelled |
| `RequestLifecycle.StepState` | Main/Pods/Alamofire/Source/Request.swift:535-592 | No step leaves cancelled or returns to initialized; a drain finishes a request that is not cancelled, and only an append or a cancel on response revives it |
| `RequestLifecycle.CancelledIsAbsorbing` | Main/Pods/Alamofire/Source/Request.swift:50-63 | Over every run, no write to the state leaves cancelled, and none returns to initialized |
| `RequestLifecycle.AllowedIff` | Main/Pods/Alamofire/Source/Request.swift:50-63 | From a state neither cancelled nor finished every other state but initialized may be entered; from those two, none |
| `RequestLifecycle.TransitionHappens` | Main/Pods/Alamofire/Source/Request.swift:671-733 | cancel, suspend and resume take a live request to the state they name, and leave any other alone |
| `RequestLifecycle.LastTransitionDecides` | Main/Pods/Alamofire/Source/Request.swift:671-733 | Over every run the last of them decides the state of a live request: a suspended one resumes |
| `RequestLifecycle.AppendAfterPassRuns` | Main/Pods/Alamofire/Source/Request.swift:535-612 | A serializer appended to a request whose pass is over gets a pass of its own, is started, completed and run, and the request is finished again unless cancelled |
| `RequestLifecycle.PassesAlwaysRun` | Main/Pods/Alamofire/Source/Request.swift:570-600 | Over every run, each pass runs the completions it took once, in order |
| `RequestLifecycle.FirstPassIsInOrder` | Main/Pods/Alamofire/Source/Request.swift:515-627 | Over every run, retries included: up to the first drain serializers start once each, in append order, one at a time; the drain takes the completions of exactly those, runs each once in that order, and they are all serializers appended before finish(), and all appended at all but the late ones, counted exactly |
| `RequestLifecycle.LateAppendIsDropped` | Main/Pods/Alamofire/Source/Request.swift:570-592 | A serializer appended between finding no more and taking the completions is late, and is never started |
| `DataStreams.DataStreamRequest.DidReceive` | Main/Pods/Alamofire/Source/Request.swift:1409-1423 | Counts one call for each stream closure, and captures the closures |
| `DataStreams.DataStreamRequest.UpdateAndCompleteIfPossible` | Main/Pods/Alamofire/Source/ResponseSerialization.swift:1228-1238 | Counts down, and dispatches all waiting completions at zero |
| `DataStreams.DataStreamRequest.CompleteStream` | Main/Pods/Alamofire/Source/Request.swift:1551-1570 | Enqueues the completion at once, or keeps it while calls are outstanding |
| `DataStreams.StepCounted` | Main/Pods/Alamofire/Source/ResponseSerialization.swift:1145-1238 | Every step keeps the counter exact; completions are released only when no stream closure is outstanding, and then all of them |
| `DataStreams.EveryRun` | Main/Pods/Alamofire/Source/Request.swift:1409-1570 | In every reachable state the counter is the number of unfinished calls, completions wait only while it is positive, and each is released once, in order of arrival, and delivered once |
| `DataStreams.EarlierCallsAreFinished` | Main/Pods/Alamofire/Source/Request.swift:1551-1570 | Over every run, whatever arrives when: a stream closure's call still outstanding was scheduled after every release, so a completion follows all calls scheduled before its release |
| `DataStreams.CompletionsComeLast` | Main/Pods/Alamofire/Source/Request.swift:1343-1350 | For every run: in no state a completion is released while a stream closure's call is outstanding if and only if no stream closure is given data received after a release; and then a delivered completion comes after every call |
| `DataStreams.LateDataIsNotAwaited` | Main/Pods/Alamofire/Source/ResponseSerialization.swift:1228-1238 | A run where one is: a dispatched block does not look at the counter again |

## Left out

nanopb:

- Pointer and callback fields, extensions, PB_ENABLE_MALLOC, pb_release, custom stream callbacks, PB_WITHOUT_64BIT and
  PB_BUFFER_ONLY: heap, foreign code and configuration.
- Raw memory: a struct is typed slots, and a struct that does not match its descriptor is an encoding error rather than
  undefined behaviour. Byte offsets are modelled in `FieldIterator` only.
- Machine words are integers with explicit remainders; the required-field bitmask alone is made of 32-bit vectors.
  PB_MAX_REQUIRED_FIELDS is its default, 64. The width of pb_size_t appears as the header of a bytes field.
- Decoder.PbDecodeNoinit: says nothing of the struct left by a failed decode, whose counts may exceed their arrays; a
  submessage is decoded into an object of its own and stored back, which does not capture writing in place.
- Decoder.PbDecode: error messages are not modelled, only whether there is one.
- Decoder.PbMessageSetToDefaults: takes the items of a fixed-count array to be defaults; the C code leaves them as they
  are, but for a zero count it writes over the start of the array.
- Decoder.PbFieldSetToDefault: the same, for one field.
- Descriptors.InitMessageAt: the same, for the struct the functions start from.
- Decoder.PbDecodeTag: on an empty descriptor the C loop takes its terminator to match tag 0, which a nonzero key of
  tag 0 reaches; the model skips such a field. A NULL submessage descriptor is not modelled.
- Wire.Varint32AcceptsIff: for varints of at most 37 bytes, as the bit counter then wraps around.
- Numbers.TooLargeIsRefused: a signed field of less than 64 bits takes the low 32 bits of its varint, so in 32 bits
  no number is too large.
- Packing.UnpackedAsPacked: for items as the encoder writes them.
- Encoder.PbEncodeSubmessage: adds the size to the bytes written without wrapping around.
- RoundTrip.DelimitedMessageRoundTrip: for messages below 2^32 bytes, since the decoder reads a 32-bit length.
- Merging.ConcatenationMerges: arbitrary bytes, for descriptors without required and fixed-count fields at the top level,
  whose presence is checked once per decode; `Merging.LoopConcatenates` holds for all, and of two encodings
  `Concatenation.EncodingsConcatenate` does.

Alamofire:

- URLSession, dispatch queues, locks, event monitors, notifications, progress, the cURL and other handlers: a lock body
  is one step, and dispatched work is a list whose steps interleave.
- Authentication.ReachableStates: an authenticator answers each refresh once, a call is made once, the refresh window
  does not change; `Authentication.RefreshesAreLimited` takes the clock to be monotone and the limit not negative.
- Multipart.FormData.Encode: one encoding of a form whose streams are distinct and unread; a second one would find flags
  set and streams consumed. Checks of files and MIME types, and the appends that make streams from data or files, are
  not modelled; nor is the conversion of a length to Int.
- Multipart.InputStream.Read: a stream that has neither failed nor ended delivers at least one byte, and says so
  beforehand; likewise a stream with room accepts at least one.
- MultipartParsing.FormComesBack: for boundaries without CR, which section 5.1.1 of RFC 2046 excludes anyway.
- TaskMap.EveryRun: on platforms that gather metrics; a completion does not call back into the session.
- RequestLifecycle.FirstPassIsInOrder: for runs where, up to the first drain, a reset comes while no pass is under way,
  as it does before finish() and after a serializer asked for a retry. Nothing is claimed of the order of serializers
  appended after the first drain, where serializers and completions can be matched wrongly.
- DataStreams.EveryRun: data written to a bound output stream, and what the closures are called with.
- Session invalidation, redirect and cache handlers, retry policies, server trust, reachability, compression, parameter
  encoding, response types: case analysis, or system calls.
- Main/Pods/BoringSSL-GRPC: a generated table. The application's own code: test stubs.
