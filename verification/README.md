# Verified models of the telemetry stack

The repository carries sensor readings as Protocol Buffers messages (nanopb) over MQTT (the
espressif client) to a gateway service with a queue between its threads. This project models the
parts of that stack whose correctness is hard to see from the code, in Dafny, and proves what
they promise. `dafny verify dfyconfig.toml` checks all of it.

| files | subject |
|---|---|
| `Varint.dfy`, `Schema.dfy`, `Encoding.dfy`, `Decoding.dfy` | the wire format: base-128 integers, descriptor trees, structs, and what encoder and decoder compute, as functions |
| `RoundTrip.dfy`, `Framing.dfy`, `Nesting.dfy`, `SizeBound.dfy`, `SizeReached.dfy` | theorems about them: round trip, forward compatibility at any depth, required fields, the generated maximum size and where it is reached |
| `ProtoWire.dfy`, `Presence.dfy`, `Readings.dfy`, `FieldRules.dfy`, `ArrayRules.dfy` | what is written and read byte by byte, in the numbers of the encoding: which fields are left out, what every value means whoever wrote it, what is refused, packed and single entries mixed, messages in parts |
| `OutputStream.dfy`, `Encoder.dfy`, `InputStream.dfy`, `RequiredBits.dfy`, `Decoder.dfy`, `Codec.dfy` | the running codec: streams that move, two-pass submessages, substreams, bit words, proved against the functions |
| `FieldInfo.dfy`, `FieldIterator.dfy`, `Lookup.dfy`, `Utf8.dfy` | packed descriptors, the wrap-around iterator and its agreement with the decoder's lookup, the UTF-8 checker |
| `Dependencies.dfy` | cycle breaking and ordering in the generator |
| `MqttPacket.dfy`, `MqttSend.dfy`, `MqttReceive.dfy`, `MqttWire.dfy` | MQTT 3.1.1 PUBLISH and CONNECT: right-justified headers, fragmentation on both sides, packets and properties byte by byte |
| `Mqtt5Properties.dfy`, `Mqtt5Publish.dfy`, `Mqtt5Parse.dfy`, `Mqtt5Transfer.dfy` | the MQTT 5 property block, its back-patched length, its parser, topic aliases, and the same transfer |
| `Outbox.dfy`, `QosMachine.dfy`, `QosRuns.dfy`, `QosProgress.dfy`, `QosCollision.dfy`, `QosClient.dfy` | the outbox and the QoS protocol over whole runs: safety, what each step writes, progress, and reused identifiers |
| `SafeQueue.dfy` | the gateway's queue as an interleaving of producers and consumers |

## How to read the model

- Machine integers are mathematical integers with their width written out. `x & 0x7F` is
  `x % 128`, `x >> 7` is `x / 128`, and `|` of disjoint bit ranges is a sum.
- A descriptor is a finite tree; a C struct is a value with one slot per field and one entry per
  oneof. `pb_size_t` has 16 bits, so sizes stay within 65535. A string's memory is held up to its
  terminator, or to the end of the field when there is none. Array entries that are not in use are
  zeroed memory.
- Serialized default values are modelled as one typed default per field.
- Encoded sizes below 2^64 (for encoding) or 2^32 (for the length prefixes the decoder reads) are
  hypotheses; in C they are limits of `size_t` and `uint32_t`.
- A transport takes any positive number of the bytes offered, or fails; `failures` counts the
  writes that failed. A read gives any positive number of the bytes asked for, comes too late, or
  errs, as `link` says of each; `timeouts` and `errors` count. So a contract can say that an
  operation succeeds exactly when nothing failed. A packet has less than 2^28 bytes and a topic
  less than 65536. The fragment offset is a mathematical integer.
- A step of the QoS machine is what one holder of the API lock does. The broker, the clock and the
  link are arbitrary in what holds over every run. The runs that show a failure receive and resend
  only while connected, resend only when nothing is queued, and have a clock that does not go back.
  A message's identity is the handle of its outbox item.

## What turned out not to hold

Each of these has a lemma or method with the failing case, and one that says exactly when the code
does what is expected.

- A bytes field is padded to an even size and the encoder accepts what fits the padding, so the
  generated maximum size is too small for an odd declared size, by one byte, or by two for sizes
  127 and 16383, where the length prefix grows too. A one-entry array has a byte to spare, which
  hides it. Case: `SizeBound.OddBytesExceedBound`. Exactly when: `SizeBound.BytesBoundExact` for a
  value, `SizeBound.BytesFieldExact` for a field, `SizeBound.BytesMessageExact` for a message of
  one field.
- The data offset of a fragmented message is not cleared when the message is only queued or the
  link is down. A later publish with a shorter topic, whose payload fits the buffer, then sends
  bytes that do not belong to any packet. Cases: `MqttSend.StaleOffset`,
  `MqttSend.StaleOffsetAcrossConnect`. Exactly when: `MqttSend.Client.Publish`, and with MQTT 5
  `Mqtt5Transfer.Publish5`.
- A fragmented QoS 0 message that is enqueued without being stored leaves its total length behind,
  and the next message without data announces it. Case: `MqttSend.StaleTotal`. Exactly when:
  `MqttSend.Client.Publish`, `MqttPacket.AnnouncingExact`.
- The receiver's check for large packets leaves out the two bytes of the topic length. A buffer that
  ends inside the packet identifier passes, and the rest of the identifier is delivered as payload.
  Case: `MqttReceive.CutIdentifier`. Exactly when: `MqttReceive.ReceivePublish`.
- A read that comes too late inside `deliver_publish` ends it with success: part of the payload has
  been delivered, the message is acknowledged, and the rest of it is taken for a new packet. Case:
  `MqttReceive.CutByTimeout`. Exactly when: `MqttReceive.ReceivePublish`.
- An identifier used again while in flight lets a PUBLISH go out under the identifier of a message
  that a PUBREC has marked. Case: `QosCollision.UnmarkedReuseBreaksQos2`. Exactly when:
  `QosCollision.CollisionExact`.
- It even makes the marked message be published again, if the clock moved while the second was
  written: the first then has the later tick and outlives the second. Case:
  `QosCollision.ReusedIdentifierBreaksQos2`. Exactly when: `QosCollision.RepublishExact`.
- A topic alias keeps its old topic if the new one has the same length and differs from it behind a
  zero byte only. Case: `Mqtt5Transfer.ZeroByteTopicStays`. Exactly when:
  `Mqtt5Transfer.SameTextExact`, `Mqtt5Transfer.AliasStandsFor`.
- The assertion for one-word descriptors admits an array size of 0, which loads as 1; the one for
  wide descriptors looks at one byte of the size offset. Cases: `FieldInfo.ZeroArraySizeLost`,
  `FieldInfo.WideSizeOffsetLost`. Exactly when: `FieldInfo.RoundTripExact`.
- The 32-bit varint decoder accepts some values that are neither below 2^32 nor a sign extension.
  Case: `Varint.Parse32AcceptsMore`. Exactly when: `Varint.Parse32Exact`, `Varint.ProperExact`.
- `pb_field_iter_find` returns true without a search when it stands on an extension range whose
  first number is the tag asked for; `pb_decode_inner` tests for that case itself. Case:
  `FieldIterator.FindOnExtension`. Exactly when: `FieldIterator.Iterator.Find`.
- A comment in `mqtt_client.c` (line 1289) says that at most two bytes of Remaining Length are
  read; the code reads up to five, and the model follows the code.

## Model

| member | source | states |
|---|---|---|
| RoundTrip.DecodeUndoesEncode | external/nanopb/pb_decode.c:1027-1196 | for every well-formed descriptor tree and every struct the encoder accepts, decoding what was encoded succeeds, into whatever memory, and yields the struct with absent fields at their defaults |
| RoundTrip.RoundTripIdentity | external/nanopb/pb_encode.c:512-534 | a struct whose absent fields are at their defaults comes back exactly |
| RoundTrip.ValueRoundTrip | external/nanopb/pb_decode.c:417-486 | one value of any type, nested messages included, decodes to itself from the front of any byte string and uses exactly its own bytes |
| RoundTrip.PackedRoundTrip | external/nanopb/pb_decode.c:493-527 | a packed array decodes entry for entry to the array that was encoded, into an empty or a full-length array |
| Codec.ThroughBuffer | external/nanopb/generator/nanopb_generator.py:1623-1634 | the running encoder never fails on a buffer of the generated maximum size, and the running decoder restores the struct from it |
| Framing.ForwardCompatible | external/nanopb/pb_decode.c:1080-1139 | inserting a complete field with an unknown tag at any field boundary leaves the decoded result unchanged, also between the entries of a fixed-count array |
| Framing.InsertUnknown | external/nanopb/pb_decode.c:1027-1139 | the same of the decoder without initialisation, into whatever memory a submessage is merged |
| Nesting.NestedSame | external/nanopb/pb_decode.c:1622-1672 | submessage contents that decode alike into every memory may be exchanged within any surrounding message, the length prefix rewritten, and the whole decodes alike |
| Nesting.SameAtDepth | external/nanopb/pb_decode.c:1622-1672 | the same along a path through any number of nested submessages, every length prefix on the way rewritten |
| Nesting.NestedForwardCompatible | external/nanopb/pb_decode.c:1622-1672 | an unknown field inserted at any depth, with the length prefixes rewritten, leaves the decoded result of the outermost message unchanged |
| Framing.UnknownFieldSkipped | external/nanopb/pb_decode.c:318-333 | a field with an unknown tag, of wire type 0, 1, 2 or 5, is skipped as a whole and leaves the decoder's state alone |
| Framing.AcceptedIsFramed | external/nanopb/pb_decode.c:1065-1139 | whatever the decoder accepts is a sequence of complete fields |
| Framing.RunConcat | external/nanopb/pb_decode.c:1065-1139 | decoding two byte strings of complete fields one after the other is decoding their concatenation |
| Framing.RequiredCheckExact | external/nanopb/pb_decode.c:1165-1193 | an input that otherwise decodes is accepted exactly when every tracked required tag occurs at that message level |
| Framing.AllRequiredTracked | external/nanopb/pb_decode.c:1141-1146 | with at most 64 required fields all of them are tracked |
| Schema.ToDefaultsShaped | external/nanopb/pb_decode.c:906-1021 | setting defaults keeps the shape and resets every field at every depth: optional flags off, counts 0, oneofs unset, values at the declared default or zero, while fixed-count arrays keep their contents |
| FieldRules.SingleField | external/nanopb/pb_decode.c:488-500 | a single field's value replaces what was there, or is merged into it if it is a message; its flag and its being seen follow, and nothing else changes |
| FieldRules.MemberField | external/nanopb/pb_decode.c:544-571 | a member of a oneof sets its tag and its data; a message goes on where the member was set before, and begins fresh otherwise |
| FieldRules.FreshMemory | external/nanopb/pb_decode.c:906-1021 | the memory a new array entry or oneof member begins in has every flag off, every array empty, every oneof unset and every value at its declared default or zero, at every depth |
| FieldRules.ZeroIs | external/nanopb/pb_decode.c:906-1021 | what zero is for each type |
| FieldRules.WrongWireTypeRefused | external/nanopb/pb_decode.c:417-486 | a known field with another wire type than its own is refused, unless it is a packed array |
| FieldRules.ZeroTagRefused | external/nanopb/pb_decode.c:1067-1078 | field number 0 is refused |
| FieldRules.UnknownIgnored | external/nanopb/pb_decode.c:318-333 | an unknown field of wire type 0, 1, 2 or 5 is passed over: a varint, eight bytes, a length and its bytes, four bytes |
| FieldRules.UnusedWireTypeRefused | external/nanopb/pb_decode.c:318-333 | an unknown field of one of the other four wire types is refused |
| FieldRules.AcceptedAtEnd | external/nanopb/pb_decode.c:1148-1193 | at the end of the input the message is accepted exactly when the fixed-count array begun last is full and every required field among the first 64 has been seen |
| ArrayRules.UnpackedAdds | external/nanopb/pb_decode.c:531-541 | numbers that come one by one are added, in order, to the entries of an array that could be packed |
| ArrayRules.SingleEntryExample | external/nanopb/pb_decode.c:531-541 | the bytes 08 05 append 5 to a repeated int32 |
| ArrayRules.PackedAdds | external/nanopb/pb_decode.c:493-527 | a packed field adds all its entries to those that are there |
| ArrayRules.PiecesAdd | external/nanopb/pb_decode.c:488-541 | an array of numbers may come in packed and single pieces in any mixture: their entries are added in order, and nothing else changes |
| ArrayRules.EntryAdds | external/nanopb/pb_decode.c:531-541 | a field with the wire type of its entries adds one entry, of whatever type |
| ArrayRules.EntryRefused | external/nanopb/pb_decode.c:531-541 | an entry over the limit is refused, and so is a fixed-count array begun while another is not full |
| ArrayRules.PackedRefused | external/nanopb/pb_decode.c:493-527 | a packed field with more entries than there is room for is refused |
| ArrayRules.PartsMerge | external/nanopb/pb_decode.c:1622-1672 | decoding one part of a message after the other is decoding both together, unless it has fixed-count arrays |
| ArrayRules.TwiceIsMerged | external/nanopb/pb_decode.c:1622-1672 | a submessage that occurs twice is the one with the contents of both |
| RequiredBits.Mark | external/nanopb/pb_decode.c:1141-1146 | setting a field's bit makes the two words hold the set of required fields seen with that field added |
| RequiredBits.CheckRequired | external/nanopb/pb_decode.c:1165-1193 | the comparison of whole words and of a masked rest agrees with the set of required fields seen |
| InputStream.Stream.Read | external/nanopb/pb_decode.c:81-120 | reading gives the next bytes exactly when there are enough and conserves position plus bytes left |
| InputStream.Stream.DecodeVarint32 | external/nanopb/pb_decode.c:171-227 | the running lenient 32-bit decoder gives what the specification reads, consumes as many bytes, and conserves position plus bytes left |
| InputStream.AcceptGroup | external/nanopb/pb_decode.c:194-218 | the checks on one later byte accept exactly zero or sign extension and keep the right bits |
| InputStream.Stream.DecodeVarint | external/nanopb/pb_decode.c:230-250 | the running 64-bit decoder gives what the specification reads and consumes as many bytes |
| InputStream.Stream.SkipField | external/nanopb/pb_decode.c:318-333 | skipping moves past exactly the payload of the wire type or fails |
| InputStream.Stream.DecodeTag | external/nanopb/pb_decode.c:278-316 | tag and wire type are the parts of one 32-bit varint, and only the end of the stream sets the end flag |
| InputStream.Stream.MakeSubstream | external/nanopb/pb_decode.c:383-396 | the substream holds exactly the declared bytes, which the parent has given up |
| InputStream.Stream.CloseSubstream | external/nanopb/pb_decode.c:398-411 | closing moves the parent past all of the substream, however much of it was read |
| Decoder.DecVarint | external/nanopb/pb_decode.c:1460-1530 | casting and comparing accepts exactly the values the field can hold |
| Decoder.DecBytes | external/nanopb/pb_decode.c:1532-1570 | the running decoder agrees with the specification on byte strings and their limits |
| Decoder.DecString | external/nanopb/pb_decode.c:1572-1620 | the running decoder agrees with the specification on strings and the room for their terminator |
| Decoder.DecFixedLengthBytes | external/nanopb/pb_decode.c:1674-1695 | the running decoder agrees with the specification, an empty string meaning all zeros |
| Readings.BoolMeans | external/nanopb/pb_decode.c:1455-1458 | any number but 0 is read as true |
| Readings.ShortIntMeans | external/nanopb/pb_decode.c:1460-1530 | a signed integer of up to four bytes takes the low 32 bits of whatever number comes, and refuses what its type cannot hold |
| Readings.FiveByteMinusOne | external/nanopb/pb_decode.c:1460-1530 | minus one as int32 is read from five bytes as well as from ten |
| Readings.LongIntMeans | external/nanopb/pb_decode.c:1460-1530 | a signed integer of eight bytes takes all 64 bits |
| Readings.UintMeans | external/nanopb/pb_decode.c:1460-1530 | an unsigned integer refuses what its type cannot hold |
| Readings.SintMeans | external/nanopb/pb_decode.c:1460-1530 | so does a zigzag one, of which twice the number is non-negative and twice the number less one negative |
| Readings.Fixed32Means | external/nanopb/pb_decode.c:1405-1426 | four bytes, the low one first; fewer are refused |
| Readings.Fixed64Means | external/nanopb/pb_decode.c:1428-1453 | eight bytes, the low one first; fewer are refused |
| Readings.DelimitedMeans | external/nanopb/pb_decode.c:1532-1695 | a byte string is read up to its padded size, a string if there is room for its terminator, a fixed-length one if it has that length or is empty, and longer ones are refused |
| Readings.ShortRefused | external/nanopb/pb_decode.c:383-396 | a length with fewer bytes behind it is refused |
| Decoder.DecSubmessage | external/nanopb/pb_decode.c:1622-1672 | a successful submessage moves the parent by exactly the prefix and the declared length, and merges into the memory given |
| Decoder.FillPacked | external/nanopb/pb_decode.c:493-527 | the packed loop fills the array as the specification does and leaves a rest exactly when the array is full or an entry is bad |
| Decoder.DecodeStaticField | external/nanopb/pb_decode.c:488-575 | the running field decoder agrees with the specification for every repetition rule, counts and oneof tags included |
| Decoder.DecodeInner | external/nanopb/pb_decode.c:1027-1196 | the decoder loop ends on every byte string, computes what the specification says, and a success uses up the stream |
| Decoder.DecodeInto | external/nanopb/pb_decode.c:1226-1229 | decoding a message into any memory computes the specified result |
| Varint.Parse32RefinesParse64 | external/nanopb/pb_decode.c:171-227 | whatever the 32-bit decoder accepts the 64-bit decoder accepts, with the same bytes used and the same value modulo 2^32 |
| Varint.Parse32Accepts | external/nanopb/pb_decode.c:171-227 | the 32-bit decoder accepts every input whose 64-bit value is below 2^32 or is the sign extension of a negative int32 |
| Varint.Parse32AcceptsMore | external/nanopb/pb_decode.c:206-213 | the 32-bit decoder lets a value through that is neither below 2^32 nor a sign extension |
| Varint.Parse32Exact | external/nanopb/pb_decode.c:171-227 | the 32-bit decoder accepts exactly the 64-bit varints whose fifth group is below 16 or at least 120 and whose later bytes are zero groups or, when bit 31 is set, sign extension bytes |
| Varint.ProperExact | external/nanopb/pb_decode.c:171-227 | the value read is below 2^32 exactly when its upper groups are all zero, and the sign extension of a negative int32 exactly when bit 31 and all upper bits are set |
| Varint.Parse64Base128 | external/nanopb/pb_decode.c:230-250 | decoding undoes base-128 encoding for every 64-bit value, whatever follows |
| Varint.Base128IsMinimal | external/nanopb/pb_encode.c:573-604 | no byte string that decodes to a value is shorter than its encoding, and one without a zero last group is the encoding |
| Varint.Base128Length | external/nanopb/pb_encode.c:573-604 | a 64-bit value takes at most ten bytes |
| Varint.Base128Groups | external/nanopb/pb_encode.c:573-604 | the bytes stand for the number, seven bits each and the low ones first; all but the last announce another, and the last is not empty unless it is alone |
| Varint.ZigZagBijective | external/nanopb/pb_encode.c:625-635 | the zigzag pair is a bijection between int64 and uint64, the minimum included |
| RoundTrip.CodeRoundTrip | external/nanopb/pb_decode.c:1460-1530 | each integer type's code is read back as the integer, the cast through int32 included |
| OutputStream.Stream.Write | external/nanopb/pb_encode.c:84-108 | a write succeeds exactly when it fits, changes only its own bytes of the buffer, and a sizing stream counts the same |
| OutputStream.SplitVarint | external/nanopb/pb_encode.c:573-604 | the split-word loops emit exactly the minimal base-128 form of the joined 64-bit value within the ten-byte buffer |
| OutputStream.PutLowWord | external/nanopb/pb_encode.c:576-588 | after the first loop the bytes written and the rest of both words make up the number |
| OutputStream.PutHighWord | external/nanopb/pb_encode.c:590-601 | the second loop empties the high word within ten bytes |
| OutputStream.Stream.EncodeVarint | external/nanopb/pb_encode.c:607-623 | the fast path and the split path both write the base-128 form |
| OutputStream.Stream.EncodeSVarint | external/nanopb/pb_encode.c:625-635 | masking, shifting and inverting writes the zigzag code of every int64 |
| OutputStream.Stream.EncodeString | external/nanopb/pb_encode.c:716-722 | length and bytes are written, or the stream is full |
| Encoder.EncString | external/nanopb/pb_encode.c:882-933 | the bounded scan finds the terminator exactly when there is one within the field |
| Encoder.PackedSize | external/nanopb/pb_encode.c:144-173 | the size found for a packed array, by product or by a sizing pass, is the size of its encoding |
| Encoder.WritePackedBody | external/nanopb/pb_encode.c:170-196 | the size announced for a packed array is the size written, on sizing and writing streams |
| Encoder.EncodeArrayField | external/nanopb/pb_encode.c:128-240 | an array is written exactly when it is within its limit, its entries can be encoded and it fits |
| Encoder.CheckDefault | external/nanopb/pb_encode.c:244-355 | the running default check, with its loop over the fields of a submessage, agrees with the specification at every depth |
| Encoder.WriteSubmessage | external/nanopb/pb_encode.c:744-777 | the writing pass, limited to the size found, writes all of it, so the size never turns out changed |
| Encoder.EncodeSubmessage | external/nanopb/pb_encode.c:724-777 | two passes write the length and the message, succeed exactly when it can be encoded and fits, and never end in "submsg size changed" |
| Encoder.EncodeOneField | external/nanopb/pb_encode.c:418-469 | a field is written as specified, its presence decided by the running default check |
| Presence.LeftOutExactly | external/nanopb/pb_encode.c:418-469 | a proto3 field is left out exactly when it holds 0, no bytes, an empty string or a submessage that writes nothing, and no field of the message has a declared default; an optional one exactly when its flag is off, a repeated one when it is empty, a member of a oneof when another tag is set |
| Presence.WrittenAs | external/nanopb/pb_encode.c:418-469 | what is written otherwise is the value with its tag, or the array |
| Presence.ZeroReading | external/nanopb/pb_encode.c:439-444 | a proto3 int32 of 0 is not sent, and 5 is sent as 08 05 |
| Presence.EncodableExactly | external/nanopb/pb_encode.c:128-240 | the encoder accepts a struct exactly when every field it writes holds values that fit, byte strings within their padded size and strings terminated, and no repeated field has more entries than declared |
| ProtoWire.FieldBytes | external/nanopb/pb_encode.c:668-714 | a field is its number times eight plus wire type 0, 1, 2 or 5 as a varint, then the value's bytes: groups of seven bits, the low byte first, or a length and the bytes |
| ProtoWire.IntegerExample | external/nanopb/pb_encode.c:607-623 | field 1 holding 150 is 08 96 01 |
| ProtoWire.NegativeExample | external/nanopb/pb_encode.c:625-635 | field 1 holding -1 as sint32 is 08 01 |
| ProtoWire.StringExample | external/nanopb/pb_encode.c:882-933 | a string is written up to its terminator |
| ProtoWire.PackedExample | external/nanopb/pb_encode.c:144-196 | field 4 holding 3 and 270 packed is 22 03 03 8E 02 |
| ProtoWire.PackedArrayBytes | external/nanopb/pb_encode.c:144-196 | an array of numbers is one field of wire type 2 whose bytes are the values one after the other |
| ProtoWire.UnpackedArrayBytes | external/nanopb/pb_encode.c:198-240 | an array of anything else is one field for each entry, in order |
| ProtoWire.FieldsInOrder | external/nanopb/pb_encode.c:512-534 | a struct is written field by field in the order of the descriptor |
| Encoder.EncodeMessage | external/nanopb/pb_encode.c:512-534 | on a sizing or writing stream, the bytes of the specification are counted or written, exactly when the struct is encodable and they fit |
| Encoder.EncodedSize | external/nanopb/pb_encode.c:557-567 | the size reported is the number of bytes the encoder writes |
| Encoder.EncodeToBuffer | external/nanopb/pb_encode.c:512-534 | encoding into a buffer succeeds exactly when that size is at most the buffer's, and leaves the rest of the buffer alone |
| SizeBound.MsgBoundHolds | external/nanopb/generator/nanopb_generator.py:1623-1634 | the generated maximum size bounds what the encoder writes, for every struct with declared enum values and byte strings within their declared size where that is odd |
| SizeBound.FieldBoundHolds | external/nanopb/generator/nanopb_generator.py:1007-1079 | every field, arrays of every length included, is within its bound |
| SizeBound.PackedWithin | external/nanopb/generator/nanopb_generator.py:1068-1077 | the tags saved by packing pay for the length prefix, and the extra byte pays for it when there is one entry |
| SizeBound.PendingStep | external/nanopb/generator/nanopb_generator.py:1256-1271 | a oneof writes at most its largest member |
| SizeReached.TypeReached | external/nanopb/generator/nanopb_generator.py:695-760 | the bound of every type is reached by a value, enums and strings whose prefix is shorter than that of their memory aside |
| SizeReached.EnumReached | external/nanopb/generator/nanopb_generator.py:410-411 | the bound of an enum without negative values is reached by one of them |
| SizeReached.SubmessageReached | external/nanopb/generator/nanopb_generator.py:1007-1079 | a message that reaches its bound reaches it as a submessage too |
| SizeReached.FieldReached | external/nanopb/generator/nanopb_generator.py:1007-1079 | a single field reaches its bound with the value that reaches its type's |
| SizeReached.ArrayReached | external/nanopb/generator/nanopb_generator.py:1066-1077 | an array that is not packed reaches its bound at its limit, with one byte to spare where the limit is 1 |
| SizeReached.OneofReached | external/nanopb/generator/nanopb_generator.py:1256-1271 | the bound of a oneof is that of one of its members, and 0 if it has none |
| SizeReached.MessageReached | external/nanopb/generator/nanopb_generator.py:1623-1634 | a message without oneofs reaches its bound when its fields do |
| SizeBound.VarintMaxSizeExact | external/nanopb/generator/nanopb_generator.py:240-247 | the size computed is the number of bytes written, and an upper bound for negative values |
| SizeBound.EnumBoundHolds | external/nanopb/generator/nanopb_generator.py:410-411 | the bound of an enum covers each declared value |
| SizeBound.BytesBoundExact | external/nanopb/generator/nanopb_generator.py:720-735 | the bound of a bytes field covers all the encoder accepts exactly when the declared size is even |
| SizeBound.BytesFieldExact | external/nanopb/generator/nanopb_generator.py:1007-1079 | whatever the repetition rule, the bound of a bytes field covers all the encoder accepts exactly when the declared size is even, or the array has one entry and the length prefix does not grow with the padding |
| SizeBound.BytesMessageExact | external/nanopb/generator/nanopb_generator.py:1623-1634 | the same for the maximum size of a whole message that consists of such a field |
| SizeBound.OddBytesExceedBound | external/nanopb/pb_encode.c:873-877 | a message with a bytes field of declared size 1 that the encoder writes in more bytes than the bound |
| FieldInfo.PackedDescribes | external/nanopb/pb.h:787-803 | a descriptor packed in any of the four formats tells its format, low tag bits, type and values, whatever follows |
| FieldInfo.RoundTripExact | external/nanopb/pb.h:812-825 | the values loaded are the values packed exactly when the array size of a one-word descriptor is 1 and the size offset of a wide one is below 256 |
| FieldInfo.ZeroArraySizeLost | external/nanopb/pb.h:812-825 | a one-word descriptor with array size 0 passes its assertion and loads array size 1 |
| FieldInfo.WideSizeOffsetLost | external/nanopb/pb.h:812-825 | a wide descriptor with size offset 256 passes its assertion and loads size offset 0 |
| FieldIterator.WordsOfField | external/nanopb/pb_common.c:122-154 | in any mix of formats a field's words begin after the words of the fields before it |
| FieldIterator.Iterator.LoadDescriptorValues | external/nanopb/pb_common.c:8-120 | the loaded values are those of the field the iterator stands on |
| FieldIterator.Iterator.AdvanceIterator | external/nanopb/pb_common.c:122-154 | advancing keeps word, required and submessage indexes equal to prefix counts and wraps around behind the last field |
| FieldIterator.Iterator.Next | external/nanopb/pb_common.c:188-193 | the next field, and false when it is the first again |
| FieldIterator.Iterator.Find | external/nanopb/pb_common.c:195-244 | from any position, unless it stands on that tag, finding agrees with a linear search, takes at most as many steps as there are fields, and restores position and values on failure |
| FieldIterator.FindOnExtension | external/nanopb/pb_common.c:195-202 | standing on an extension range, a search for its tag returns true at once although no field matches |
| FieldIterator.Iterator.FindExtension | external/nanopb/pb_common.c:246-275 | an extension field is found exactly when there is one, and position and values are restored otherwise |
| Lookup.LookUp | external/nanopb/pb_decode.c:1080-1084 | in any packed form of a descriptor, from any position, the iterator finds exactly the field the decoder's specification finds, with the type byte and the required index of that field, and otherwise stays where it is |
| Lookup.LookUpFirst | external/nanopb/pb_decode.c:1056-1084 | started on the packed words of a message, with or without fields, the lookup is the specification's |
| Lookup.TypeByteIs | external/nanopb/pb.h:265-321 | the type byte of each kind of field in numbers |
| Lookup.KindsMean | external/nanopb/pb_common.c:122-154 | which type bytes the iterator takes for required fields, submessages and extension ranges |
| Utf8.Validate | external/nanopb/pb_common.c:334-385 | a string passes exactly when it is a concatenation of UTF-8 characters of RFC 3629 other than U+FFFE and U+FFFF, and nothing past the terminator is read |
| Utf8.PassesIsUtf8 | external/nanopb/pb_common.c:334-385 | the checker's rules accept exactly the encodings of accepted code points |
| Utf8.StepComplete | external/nanopb/pb_common.c:339-381 | the encoding of every accepted code point passes, whatever follows |
| Dependencies.CheckRecursive | external/nanopb/generator/nanopb_generator.py:1749-1765 | the recursion ends, and tells whether the message reaches itself through the messages already there |
| Dependencies.AddExact | external/nanopb/generator/nanopb_generator.py:1960-1967 | adding a message keeps the graph acyclic exactly when it does not reach itself |
| Dependencies.ProtoFile.AddMessage | external/nanopb/generator/nanopb_generator.py:1960-1967 | the message is converted exactly when it would close a cycle, and the list stays acyclic if the conversion removes its way back |
| Dependencies.SomethingReady | external/nanopb/generator/nanopb_generator.py:1778-1784 | in an acyclic graph some remaining message depends on no remaining one |
| Dependencies.SortDependencies | external/nanopb/generator/nanopb_generator.py:1767-1789 | the output is a permutation; the circular branch is taken exactly when there is a cycle; otherwise every message follows all it depends on |
| MqttPacket.Connection.AppendString | firmware/esp32/esp32-sensor-node/managed_components/espressif__mqtt/lib/mqtt_msg.c:49-61 | length and bytes are appended exactly when they fit |
| MqttPacket.Connection.EncodeLength | firmware/esp32/esp32-sensor-node/managed_components/espressif__mqtt/lib/mqtt_msg.c:109-119 | the length bytes are the base-128 form of the number, at most four |
| MqttPacket.Connection.FiniMessage | firmware/esp32/esp32-sensor-node/managed_components/espressif__mqtt/lib/mqtt_msg.c:98-139 | the fixed header stands right in front of the body and announces the body, or the fragmented total if there is one |
| MqttPacket.Connection.MsgPublish | firmware/esp32/esp32-sensor-node/managed_components/espressif__mqtt/lib/mqtt_msg.c:439-477 | the message is built exactly when topic and headers fit; it holds the headers and as much payload as fits, and announces all of it, or without data the total an earlier message left |
| MqttPacket.Connection.MsgConnect | firmware/esp32/esp32-sensor-node/managed_components/espressif__mqtt/lib/mqtt_msg.c:340-437 | finishing the CONNECT moves the fragment offset and announces a left-over total if there is one |
| MqttWire.TypeByteParts | firmware/esp32/esp32-sensor-node/managed_components/espressif__mqtt/lib/mqtt_msg.c:132-132 | type, DUP, QoS and RETAIN are read back from bits 4 to 7, 3, 1 to 2 and 0 of the first byte |
| MqttWire.FirstBytes | firmware/esp32/esp32-sensor-node/managed_components/espressif__mqtt/lib/mqtt_msg.c:132-132 | CONNECT, PUBACK and PUBREC begin with 0x10, 0x40 and 0x50 |
| MqttWire.PublishBytes | firmware/esp32/esp32-sensor-node/managed_components/espressif__mqtt/lib/mqtt_msg.c:439-477 | a PUBLISH byte by byte: type 3 with QoS and RETAIN, a Remaining Length that stands for the bytes behind it, topic length with the high byte first, topic, identifier above QoS 0, payload |
| MqttWire.PublishExample | firmware/esp32/esp32-sensor-node/managed_components/espressif__mqtt/lib/mqtt_msg.c:439-477 | a retained QoS 1 message in bytes |
| MqttPacket.AnnouncingExact | firmware/esp32/esp32-sensor-node/managed_components/espressif__mqtt/lib/mqtt_msg.c:98-139 | a packet with another Remaining Length than its own is never the packet, for any two lengths below 2^28 |
| MqttPacket.GetVariableLen | firmware/esp32/esp32-sensor-node/managed_components/espressif__mqtt/lib/mqtt5_msg.c:50-63 | a variable byte integer and its size are read from any bytes; one that does not end stops at the end of the buffer |
| MqttSend.Client.Send | firmware/esp32/esp32-sensor-node/managed_components/espressif__mqtt/mqtt_client.c:727-749 | all of the message is written exactly when every write takes something, however little; otherwise a proper beginning of it |
| MqttSend.Client.Connect | firmware/esp32/esp32-sensor-node/managed_components/espressif__mqtt/mqtt_client.c:751-784 | the client is connected exactly when the CONNECT fits, no write fails and the broker accepts, and the fragment offset is then moved by the header start |
| MqttSend.Client.EnqueuePublish | firmware/esp32/esp32-sensor-node/managed_components/espressif__mqtt/mqtt_client.c:2131-2158 | what is stored for resending is the whole packet although the buffer may hold a part; a message not stored keeps its fragmented total, and one without data announces the total left over |
| MqttSend.Client.SendAll | firmware/esp32/esp32-sensor-node/managed_components/espressif__mqtt/mqtt_client.c:2219-2250 | the sending loop ends without error exactly when no write fails, and then has completed the packet, or sent as many bytes too many as it took too few to be sent |
| MqttSend.Client.Publish | firmware/esp32/esp32-sensor-node/managed_components/espressif__mqtt/mqtt_client.c:2160-2274 | it succeeds exactly when connected, the headers fit and no write fails; then exactly the packet has been written if and only if no total is left over for a message without data and, where the payload fits, no offset past its start |
| MqttSend.StaleOffset | firmware/esp32/esp32-sensor-node/managed_components/espressif__mqtt/mqtt_client.c:2207-2217 | after connecting, a cut message that is only enqueued makes the next short publish send exactly four bytes too many |
| MqttSend.StaleOffsetAcrossConnect | firmware/esp32/esp32-sensor-node/managed_components/espressif__mqtt/lib/mqtt_msg.c:130-130 | a message cut while the link is down makes the next short publish, after the CONNECT, send exactly one byte too many |
| MqttSend.StaleTotal | firmware/esp32/esp32-sensor-node/managed_components/espressif__mqtt/lib/mqtt_msg.c:105-106 | a cut QoS 0 message enqueued without being stored makes the next publish without data announce the wrong Remaining Length |
| MqttReceive.ScanLength | firmware/esp32/esp32-sensor-node/managed_components/espressif__mqtt/lib/mqtt_msg.c:141-159 | on any bytes the scan ends within the buffer; from the beginning of a PUBLISH it gives Remaining Length and fixed header size |
| MqttReceive.GetPublishTopic | firmware/esp32/esp32-sensor-node/managed_components/espressif__mqtt/lib/mqtt_msg.c:192-216 | a parser of any bytes; from the beginning of a PUBLISH the topic is found exactly when all of it is in the buffer |
| MqttReceive.GetPublishData | firmware/esp32/esp32-sensor-node/managed_components/espressif__mqtt/lib/mqtt_msg.c:218-264 | a parser of any bytes; from the beginning of a PUBLISH the part of the payload in the buffer is found, and nothing when the headers are cut |
| MqttReceive.GetId | firmware/esp32/esp32-sensor-node/managed_components/espressif__mqtt/lib/mqtt_msg.c:278-317 | a parser of any bytes; from the beginning of a PUBLISH the identifier is found exactly when it is in the buffer |
| MqttReceive.DeliverPublish | firmware/esp32/esp32-sensor-node/managed_components/espressif__mqtt/mqtt_client.c:1081-1171 | delivery succeeds exactly when the topic is in the buffer and no read errs; the events have contiguous offsets, announce the same total, and concatenate to what was read behind the headers or the buffer, which is all of it exactly when no read errs or comes too late |
| MqttReceive.DeliverEvents | firmware/esp32/esp32-sensor-node/managed_components/espressif__mqtt/mqtt_client.c:1108-1168 | for either protocol version, the event loop fails exactly when a read errs, hands on every byte read once and in order, the topic with the first event only, and has read all of the packet exactly when no read errs or comes too late |
| MqttReceive.ReceiveMessage | firmware/esp32/esp32-sensor-node/managed_components/espressif__mqtt/mqtt_client.c:1301-1345 | a packet larger than the buffer is admitted when headers without the two topic length bytes fit |
| MqttReceive.ReceivePublish | firmware/esp32/esp32-sensor-node/managed_components/espressif__mqtt/mqtt_client.c:1364-1462 | it succeeds exactly when the packet is admitted, its topic is in the buffer and no read errs; where the headers fit, the events then concatenate to the payload exactly when no read comes too late, and the answer is the same either way; where no read comes too late, they do so exactly when the headers fit |
| MqttReceive.CutByTimeout | firmware/esp32/esp32-sensor-node/managed_components/espressif__mqtt/mqtt_client.c:1158-1163 | for every packet larger than the buffer: if nothing more comes in time, the part in the buffer is delivered, the message is answered as if complete, and the rest is left where the next packet is expected |
| MqttReceive.CutIdentifier | firmware/esp32/esp32-sensor-node/managed_components/espressif__mqtt/mqtt_client.c:1301-1345 | for every packet and a buffer that ends inside its identifier, the last identifier byte is delivered in front of the payload unless a read fails |
| MqttReceive.Transfer | firmware/esp32/esp32-sensor-node/managed_components/espressif__mqtt/mqtt_client.c:2219-2250 | what one client publishes in pieces another delivers in pieces: it succeeds exactly when no write fails and no read errs, the wire holds one PUBLISH, the outbox copy the same bytes, and the events the payload exactly when no read comes too late |
| Mqtt5Properties.PropsRoundTrip | firmware/esp32/esp32-sensor-node/managed_components/espressif__mqtt/lib/mqtt5_msg.c:331-401 | parsing the encoded properties gives every property set, and the user properties in order |
| Mqtt5Publish.AppendProperty | firmware/esp32/esp32-sensor-node/managed_components/espressif__mqtt/lib/mqtt5_msg.c:90-119 | identifier, length and data are appended exactly when they fit |
| Mqtt5Publish.ShiftUp | firmware/esp32/esp32-sensor-node/managed_components/espressif__mqtt/lib/mqtt5_msg.c:77-82 | moving the block up in place, last byte first, keeps every byte of it |
| Mqtt5Publish.UpdatePropertyLen | firmware/esp32/esp32-sensor-node/managed_components/espressif__mqtt/lib/mqtt5_msg.c:65-88 | the length stands in front of the unchanged properties exactly when both fit |
| Mqtt5Publish.Msg5Publish | firmware/esp32/esp32-sensor-node/managed_components/espressif__mqtt/lib/mqtt5_msg.c:723-808 | the message is built exactly when there is a topic or alias and the headers fit, and is the beginning of the packet |
| MqttWire.Publish5Bytes | firmware/esp32/esp32-sensor-node/managed_components/espressif__mqtt/lib/mqtt5_msg.c:723-808 | the same with MQTT 5, the length of the properties and the properties in front of the payload |
| MqttWire.PropertyBytes | firmware/esp32/esp32-sensor-node/managed_components/espressif__mqtt/lib/mqtt5_msg.c:723-808 | the bytes of each property and their order, with the identifiers of the standard |
| MqttWire.UserPairBytes | firmware/esp32/esp32-sensor-node/managed_components/espressif__mqtt/lib/mqtt5_msg.c:723-808 | a user property is 0x26, then key and value with their lengths |
| Mqtt5Parse.ParseBlock | firmware/esp32/esp32-sensor-node/managed_components/espressif__mqtt/lib/mqtt5_msg.c:331-401 | the loop over the block gives what the properties say, or nothing when one is unknown |
| MqttWire.NumbersMean | firmware/esp32/esp32-sensor-node/managed_components/espressif__mqtt/lib/mqtt5_msg.c:331-364 | what the parser makes of the properties that hold numbers, whatever they hold, the subscription identifier included |
| MqttWire.TextsMean | firmware/esp32/esp32-sensor-node/managed_components/espressif__mqtt/lib/mqtt5_msg.c:345-396 | and of those that hold text; a reason string is passed over |
| MqttWire.OthersRefused | firmware/esp32/esp32-sensor-node/managed_components/espressif__mqtt/lib/mqtt5_msg.c:397-400 | every other identifier makes it give up the message |
| Mqtt5Parse.GetPublish5 | firmware/esp32/esp32-sensor-node/managed_components/espressif__mqtt/lib/mqtt5_msg.c:302-410 | topic, properties and the payload in the buffer are recovered |
| Mqtt5Transfer.Publish5 | firmware/esp32/esp32-sensor-node/managed_components/espressif__mqtt/mqtt_client.c:2160-2274 | with MQTT 5 a publish succeeds exactly when there is a topic or alias, the headers fit and no write fails; then exactly the packet has been written if and only if the payload is cut or no left-over offset is past its start; above QoS 0 the whole packet is stored |
| Mqtt5Transfer.Aliases.Update | firmware/esp32/esp32-sensor-node/managed_components/espressif__mqtt/mqtt5_client.c:344-376 | the list then stands for the table with the alias put to the topic, unless the two are the same up to a zero byte |
| Mqtt5Transfer.Aliases.Get | firmware/esp32/esp32-sensor-node/managed_components/espressif__mqtt/mqtt5_client.c:378-390 | the topic the alias stands for in the table, or none |
| Mqtt5Transfer.Aliases.TopicOf | firmware/esp32/esp32-sensor-node/managed_components/espressif__mqtt/mqtt5_client.c:117-135 | the topic of a PUBLISH is its own, or what its alias stands for; an alias over the maximum or unknown is refused, and one that comes with a topic is learned |
| Mqtt5Transfer.AliasStandsFor | firmware/esp32/esp32-sensor-node/managed_components/espressif__mqtt/mqtt5_client.c:117-135 | over every session with topics free of zero bytes, an alias stands for the topic of the last PUBLISH that came with both, and for nothing if there was none |
| Mqtt5Transfer.RefusedExactly | firmware/esp32/esp32-sensor-node/managed_components/espressif__mqtt/mqtt5_client.c:117-135 | a PUBLISH is refused exactly when its alias is over the maximum, or it has neither a topic nor a known alias; its own topic comes first |
| Mqtt5Transfer.AliasesWithin | firmware/esp32/esp32-sensor-node/managed_components/espressif__mqtt/mqtt5_client.c:117-135 | over every session only aliases up to the maximum are learned |
| Mqtt5Transfer.SameTextExact | firmware/esp32/esp32-sensor-node/managed_components/espressif__mqtt/mqtt5_client.c:354-361 | the comparison that leaves a known alias alone is equality for topics free of zero bytes |
| Mqtt5Transfer.ZeroByteTopicStays | firmware/esp32/esp32-sensor-node/managed_components/espressif__mqtt/mqtt5_client.c:354-361 | a topic that differs from the one before behind a zero byte only is not taken over |
| Mqtt5Transfer.DeliverPublish5 | firmware/esp32/esp32-sensor-node/managed_components/espressif__mqtt/mqtt_client.c:1081-1171 | with MQTT 5 delivery succeeds exactly when the properties parse, the alias is allowed and stands for a topic if there is no other, and no read errs; its events carry that topic and concatenate to the payload exactly when no read comes too late |
| Mqtt5Transfer.Transfer5 | firmware/esp32/esp32-sensor-node/managed_components/espressif__mqtt/lib/mqtt5_msg.c:723-808 | properties, user properties in order and a payload of any size arrive under the topic the receiver takes it to have; it succeeds exactly when that topic is known, no write fails and no read errs, and all of the payload arrives exactly when no read comes too late |
| Mqtt5Transfer.TransferByAlias | firmware/esp32/esp32-sensor-node/managed_components/espressif__mqtt/mqtt5_client.c:117-135 | a topic sent once with an alias need not be sent again: the next message, with the alias only, arrives under it unless a write fails or a read errs |
| Outbox.Box.Enqueue | firmware/esp32/esp32-sensor-node/managed_components/espressif__mqtt/lib/mqtt_outbox.c:42-65 | the item is appended as queued and the size stays the sum of the lengths |
| Outbox.Box.Dequeue | firmware/esp32/esp32-sensor-node/managed_components/espressif__mqtt/lib/mqtt_outbox.c:78-90 | the first item in the state asked for is found, or there is none |
| Outbox.Box.DeleteItem | firmware/esp32/esp32-sensor-node/managed_components/espressif__mqtt/lib/mqtt_outbox.c:92-106 | exactly the item with that handle is removed and the size adjusted |
| Outbox.Box.Delete | firmware/esp32/esp32-sensor-node/managed_components/espressif__mqtt/lib/mqtt_outbox.c:120-135 | exactly the first item with that identifier and type is removed and the size adjusted |
| Outbox.Box.SetPending | firmware/esp32/esp32-sensor-node/managed_components/espressif__mqtt/lib/mqtt_outbox.c:137-145 | the first item with that identifier changes state, no other |
| Outbox.Box.DeleteSingleExpired | firmware/esp32/esp32-sensor-node/managed_components/espressif__mqtt/lib/mqtt_outbox.c:165-182 | exactly the first expired item is removed and its identifier returned |
| Outbox.Box.DeleteExpired | firmware/esp32/esp32-sensor-node/managed_components/espressif__mqtt/lib/mqtt_outbox.c:184-200 | exactly the expired items are removed, the others keep their order |
| Outbox.Box.DeleteExpiredOneByOne | firmware/esp32/esp32-sensor-node/managed_components/espressif__mqtt/mqtt_client.c:1604-1620 | repeated single expiry leaves the same list as bulk expiry and reports the identifiers of the expired items in order |
| Outbox.Box.DeleteAll | firmware/esp32/esp32-sensor-node/managed_components/espressif__mqtt/lib/mqtt_outbox.c:207-217 | nothing is left, the size is 0, and the items dropped are those that were there, in order |
| Outbox.KeepFreshRemove | firmware/esp32/esp32-sensor-node/managed_components/espressif__mqtt/lib/mqtt_outbox.c:165-200 | removing an expired item does not change what bulk expiry leaves |
| Outbox.KeepFreshExact | firmware/esp32/esp32-sensor-node/managed_components/espressif__mqtt/lib/mqtt_outbox.c:184-200 | what expiry leaves are exactly the items that are not older than the timeout, in the order of the list |
| Outbox.LookupsMean | firmware/esp32/esp32-sensor-node/managed_components/espressif__mqtt/lib/mqtt_outbox.c:67-145 | which item each lookup finds: the first with that identifier, with that identifier and type, in that state, older than the timeout |
| Outbox.EditsMean | firmware/esp32/esp32-sensor-node/managed_components/espressif__mqtt/lib/mqtt_outbox.c:92-163 | each edit takes out or changes one item and leaves the others where they are |
| QosMachine.StepKeeps | firmware/esp32/esp32-sensor-node/managed_components/espressif__mqtt/mqtt_client.c:1463-1528 | every step keeps the invariant that ties each item's state to its history |
| QosMachine.ResendQueuedKeeps | firmware/esp32/esp32-sensor-node/managed_components/espressif__mqtt/mqtt_client.c:1749-1766 | resending a queued item keeps the invariant, QoS 0 items leaving once sent |
| QosProgress.PublishEffect | firmware/esp32/esp32-sensor-node/managed_components/espressif__mqtt/mqtt_client.c:2200-2263 | a message of QoS 1 or 2 is stored whatever the link does, written once if there is one, and counts as transmitted exactly when all of it went out |
| QosProgress.PublishOnceEffect | firmware/esp32/esp32-sensor-node/managed_components/espressif__mqtt/mqtt_client.c:2200-2274 | one of QoS 0 is never stored, and written exactly when there is a link |
| QosProgress.EnqueueEffect | firmware/esp32/esp32-sensor-node/managed_components/espressif__mqtt/mqtt_client.c:2276-2318 | enqueueing stores a message exactly when it has QoS 1 or 2 or is to be stored, and writes nothing |
| QosProgress.QueuedEffect | firmware/esp32/esp32-sensor-node/managed_components/espressif__mqtt/mqtt_client.c:1747-1766 | a round writes the first queued message without DUP; if all of it went out, a QoS 0 message leaves and another counts as transmitted |
| QosProgress.ResendEffect | firmware/esp32/esp32-sensor-node/managed_components/espressif__mqtt/mqtt_client.c:1768-1778 | with nothing queued, the first transmitted message is written again with DUP exactly when it is older than the timeout |
| QosProgress.PubrelEffect | firmware/esp32/esp32-sensor-node/managed_components/espressif__mqtt/mqtt_client.c:1779-1788 | so is the PUBREL of the first message a PUBREC has marked |
| QosProgress.RoundWritesPubrel | firmware/esp32/esp32-sensor-node/managed_components/espressif__mqtt/mqtt_client.c:1767-1789 | a due round with nothing queued ends with the PUBREL of the first marked message older than the timeout |
| QosProgress.AckEffect | firmware/esp32/esp32-sensor-node/managed_components/espressif__mqtt/mqtt_client.c:1463-1477 | a PUBACK or PUBCOMP takes out the first message with the identifier, with its event right behind |
| QosProgress.PubrecEffect | firmware/esp32/esp32-sensor-node/managed_components/espressif__mqtt/mqtt_client.c:1478-1495 | a PUBREC marks the first message with the identifier and writes its PUBREL |
| QosProgress.StrayAckEffect | firmware/esp32/esp32-sensor-node/managed_components/espressif__mqtt/mqtt_client.c:1463-1495 | acknowledgements of messages that are not held change nothing, but a PUBREC is answered |
| QosProgress.ExpireEffect | firmware/esp32/esp32-sensor-node/managed_components/espressif__mqtt/mqtt_client.c:1604-1620 | expiry takes out exactly the messages older than the timeout, with an entry for each, in order |
| QosProgress.LinkEffect | firmware/esp32/esp32-sensor-node/managed_components/espressif__mqtt/mqtt_client.c:1690-1790 | losing and gaining the link changes nothing else |
| QosProgress.StopEffect | firmware/esp32/esp32-sensor-node/managed_components/espressif__mqtt/mqtt_client.c:1837-1843 | stopping drops every message, with an entry for each, in order |
| QosProgress.EveryMessageCompletes | firmware/esp32/esp32-sensor-node/managed_components/espressif__mqtt/mqtt_client.c:1747-1789 | from every reachable state that holds a message of QoS 1 or 2, some run of rounds and answers of the broker ends with its handshake: written again, marked, its PUBREL written, its PUBLISHED event; a marked one begins at the PUBREL |
| QosRuns.PendingMovesForward | firmware/esp32/esp32-sensor-node/managed_components/espressif__mqtt/lib/mqtt_outbox.c:137-145 | over every run with fresh identifiers, an item's state only moves from queued to transmitted to acknowledged |
| QosRuns.QosSafety | firmware/esp32/esp32-sensor-node/managed_components/espressif__mqtt/mqtt_client.c:1478-1495 | over every run, no PUBLISH of a message is written after a PUBREC marked it, and DUP is set exactly when it went out in full before |
| QosRuns.IdentifierQuiet | firmware/esp32/esp32-sensor-node/managed_components/espressif__mqtt/mqtt_client.c:1749-1789 | over every run, from the PUBREC that marks a message until the message leaves, no PUBLISH with its identifier is written |
| QosRuns.Conservation | firmware/esp32/esp32-sensor-node/managed_components/espressif__mqtt/mqtt_client.c:1217-1226 | over every run, each message stored is held or has left exactly once, never both |
| QosRuns.LeavingExact | firmware/esp32/esp32-sensor-node/managed_components/espressif__mqtt/mqtt_client.c:1463-1477 | over every run, a message removed by an acknowledgement has its PUBLISHED event with its own identifier right after, there is no other PUBLISHED event, and only QoS 0 messages leave by being sent |
| QosCollision.CollisionExact | firmware/esp32/esp32-sensor-node/managed_components/espressif__mqtt/mqtt_client.c:2252-2261 | publishing or enqueueing in any reachable state: the identifier is not in flight if and only if every run behind it is safe; otherwise some run of the client writes a PUBLISH under the identifier of a message that is marked |
| QosCollision.NeverRepublished | firmware/esp32/esp32-sensor-node/managed_components/espressif__mqtt/mqtt_client.c:1749-1789 | over every run, with identifiers reused at will: as long as items that share an identifier stand in the order of their ticks, no message is published again behind the PUBREC that marked it |
| QosCollision.RepublishExact | firmware/esp32/esp32-sensor-node/managed_components/espressif__mqtt/mqtt_client.c:2252-2261 | a message stored under an identifier in flight leads to a marked message being published again, in some run of the client, exactly when the first item with the identifier then has a later tick than the new one; for any timeouts and with a clock that does not go back |
| QosCollision.CollisionStep | firmware/esp32/esp32-sensor-node/managed_components/espressif__mqtt/mqtt_client.c:2252-2261 | one publish with an identifier in flight sets an item back exactly when the first item with it is acknowledged |
| QosCollision.ReusedIdentifierBreaksQos2 | firmware/esp32/esp32-sensor-node/managed_components/espressif__mqtt/mqtt_client.c:2252-2261 | the identifier of a marked message is used again and writing takes one tick: the marked message is set back, outlives the second in the outbox and is published again |
| QosCollision.UnmarkedReuseBreaksQos2 | firmware/esp32/esp32-sensor-node/managed_components/espressif__mqtt/mqtt_client.c:1749-1766 | the identifier of a message not yet marked is used again: behind the PUBREC that comes later the second message is written under the identifier of the marked first |
| QosClient.Client.Publish | firmware/esp32/esp32-sensor-node/managed_components/espressif__mqtt/mqtt_client.c:2200-2263 | the running publish is one step of the machine |
| QosClient.Client.ResendQueued | firmware/esp32/esp32-sensor-node/managed_components/espressif__mqtt/mqtt_client.c:1749-1766 | the running resend is one step of the machine |
| QosClient.Client.ResendRound | firmware/esp32/esp32-sensor-node/managed_components/espressif__mqtt/mqtt_client.c:1747-1789 | one round of the task resends a queued message if there is one, and only otherwise, when it is time, the first unacknowledged message and the first PUBREL |
| QosClient.Client.ReceiveAck | firmware/esp32/esp32-sensor-node/managed_components/espressif__mqtt/mqtt_client.c:1463-1477 | a PUBACK or PUBCOMP is one step of the machine, with a PUBLISHED event exactly when a message was removed |
| QosClient.Client.ReceivePubrec | firmware/esp32/esp32-sensor-node/managed_components/espressif__mqtt/mqtt_client.c:1478-1495 | a PUBREC is one step of the machine, its PUBREL written whether or not the message is known |
| QosClient.Client.DeleteExpired | firmware/esp32/esp32-sensor-node/managed_components/espressif__mqtt/mqtt_client.c:1604-1620 | expiry is one step of the machine, its log built from the reports of the loop |
| QosClient.Client.Stop | firmware/esp32/esp32-sensor-node/managed_components/espressif__mqtt/mqtt_client.c:1837-1843 | stopping is one step of the machine, empties the outbox and logs each dropped message once in order |
| SafeQueue.NoLostWakeup | gateway-service/src/safe_queue.hpp:12-28 | over every interleaving, while a consumer is blocked the woken are at least as many as the records queued, and records come out once each in push order |
| SafeQueue.NothingLost | gateway-service/src/safe_queue.hpp:12-28 | over every interleaving, the records of the pushes in order are what the pops handed out followed by what is queued |
| SafeQueue.NobodyLost | gateway-service/src/safe_queue.hpp:19-34 | over every interleaving, each call of pop has had its result or its thread is blocked or woken |
| SafeQueue.PushWakesOne | gateway-service/src/safe_queue.hpp:12-16 | a push lets exactly one blocked consumer go on, if there is one |
| SafeQueue.StepKeeps | gateway-service/src/safe_queue.hpp:12-34 | every critical section keeps that invariant, spurious wake-ups included |
| SafeQueue.AbortReleases | gateway-service/src/safe_queue.hpp:30-34 | after abort nobody is or gets blocked |
| SafeQueue.ResumesDrain | gateway-service/src/safe_queue.hpp:12-28 | while only woken consumers run there are at most as many turns as woken consumers, and after all of them the queue is empty or nobody is blocked |
| SafeQueue.CanDrain | gateway-service/src/safe_queue.hpp:12-28 | from every reachable state such a run exists that leaves nobody woken and never a record beside a blocked consumer |
| SafeQueue.NothingMeansDrained | gateway-service/src/safe_queue.hpp:19-28 | over every interleaving, at each empty result handed out abort has happened and every record pushed until then had been popped before |
| SafeQueue.Queue.Push | gateway-service/src/safe_queue.hpp:12-16 | push puts the record behind the others, wakes one blocked consumer if there is one, and is one step of the machine |
| SafeQueue.Queue.Pop | gateway-service/src/safe_queue.hpp:19-28 | one turn of pop is one step of the machine, keeps the invariant, and returns exactly when there is a record or an abort |

## Left out

- Pointer allocation, `pb_release`, callbacks and extension decoding: user functions and a heap.
- `PB_VALIDATE_UTF8` inside the codec, `PB_WITHOUT_64BIT`, `PB_CONVERT_DOUBLE_FLOAT`, unpacked-array mode, null-terminated and delimited streams: configuration variants that would only add easy members.
- Update in place of the destination struct: the decoder's methods return new struct values, so aliasing of the C memory and what a failed decode leaves in it are not captured. A submessage is still merged into the memory it is decoded into.
- Decoder.DecodeRound: looks a field up by the linear search that the iterator is proved to agree with (`Lookup.LookUp`), not through the iterator object.
- FieldIterator.Iterator.LoadDescriptorValues: loads the values of the descriptor; the pointers into the struct and to the submessage descriptor that the C function also computes are not modelled, because a struct is a value here.
- FieldIterator.Iterator.constructor: covers messages with at least one field; for an empty one the C function returns false and the iterator is not used.
- The linked list of the outbox: `Outbox.Box` holds a sequence, so pointers between nodes are not captured.
- MqttSend.Client.EnqueuePublish: for a message without data that is stored, requires that no fragmented total is left over, because the C code then copies from an invalid pointer.
- MqttSend.Client.Publish: requires the same for a message without data at QoS 1 or 2; at QoS 0 the case is covered.
- MqttPacket.Connection.FiniMessage: requires less than 2^28 bytes, because the C code writes past its array of four length bytes before it checks.
- MqttReceive.ReceiveMessage: hands over the first bytes of one packet, as many as the buffer holds, without the byte-by-byte resumption; it requires a buffer that holds the fixed header and two more bytes, which the C code writes unchecked.
- MqttReceive.ReceivePublish: requires the same buffer of at least the fixed header and two bytes; which identifier is answered is stated only where the headers fit, because the C code otherwise reads it behind its buffer.
- Mqtt5Publish.AppendProperty: covers the length fields of one, two and four bytes that a PUBLISH uses; the variable-length form, which only the subscription identifier of a SUBSCRIBE uses, writes bytes that the C check does not count.
- Mqtt5Parse.GetPublish5: requires a buffer that holds headers and properties; the C parser reads properties behind the end of a shorter one.
- Mqtt5Transfer.Transfer5: requires no offset left over from an earlier message, the condition under which the MQTT 3.1.1 publish is exact, and buffers that hold headers and properties.
- Mqtt5Parse.ParseBlock: requires that no known property is cut off by the end of the block, because the C parser then reads on behind it.
- MqttPacket.Connection.MsgConnect: takes the CONNECT's variable header and payload as given bytes.
- MqttSend.Client.Connect: whether the broker accepts is a parameter; the CONNACK is not parsed.
- MQTT SUBSCRIBE, DISCONNECT and acknowledgement builders, CONNACK properties, response information, the server's limits that `esp_mqtt5_client_publish_check` compares with, receive maximum, keep-alive: many similar cases.
- SizeBound.BytesMessageExact: covers messages of one field; in a message of several, slack in the bounds of other fields can hide the missing byte, so that an odd size alone does not decide.
- SUBSCRIBE and UNSUBSCRIBE items in the outbox runs: the machine holds PUBLISH items only.
- The random choice of message identifiers: freshness in flight is a hypothesis where a property needs it.
- Symbolic encoded sizes of messages from other files, names, options and text output of the generator.
- Transports, TLS, URIs, WiFi, tasks and event groups, gateway main program and MQTT wrapper, examples, tests and build scripts.
