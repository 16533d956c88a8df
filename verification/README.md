# Wire codec, heap and request state machines

The application in this repository ships three pieces of code whose behaviour is not evident
from reading them. This project models them in Dafny and proves what they promise.

- **nanopb 0.3.9.9** turns C structures into Protocol Buffers messages and back, driven by a
  table of field descriptors. `wire`, `descriptor`, `encoding` and `decoding` say what the bytes
  and the results are, as functions of the table. `istream`, `decoder`, `ostream`, `encoder`,
  `field_iter`, `required_bitmap` and `pointer_array` model the code with its streams, windows,
  iterators, bitmaps and loops, and prove that it computes those functions. `varint_laws`,
  `scalar_laws`, `byte_laws`, `roundtrip`, `roundtrip_laws`, `forward_laws`, `record_laws`,
  `packed_laws`, `merge_laws`, `default_laws`, `reject_laws`, `bounds_laws` and `end_to_end` prove
  the laws of the format. `release` covers the memory a decoded message owns.
- **libuv's intrusive binary heap** (`heap`) is a pointer tree whose insertion and removal points
  come from the binary digits of the element count.
- **Alamofire's protected state machines**: the authentication interceptor (`auth_interceptor`
  for the lock regions, `auth_runs` for all their interleavings, `auth_outcomes` for what callers
  are told, `auth_machine` for the object),
  the request life cycle (`request`) and the two-way task map (`task_map`).

## Main results

- *Round trip* (`DecodeInvertsEncode`, `EncodeThenDecode`): for every static table and every
  well-formed message, at any nesting, decoding the encoding succeeds and consumes every byte. The
  message is restored **if and only if** no proto3 field that is zero, and therefore not written,
  has a different explicit default (`ZeroLost` shows the loss). `SafeTable`: tables without such
  defaults never lose anything.
- *Sizing refines writing* (`EncodeInto`, `EncodeSubmessage`): both passes agree, and the branch
  that reports a changed submessage size is never taken.
- *Unknown fields, merging, packing* (`UnknownTransparent`, `MergeByConcatenation`,
  `SplitIrrelevant`): laws over arbitrary input bytes, failures included.
- *Older readers* (`OlderReader`): a table that lacks some fields of the writer's reads its messages
  and restores the fields it has.
- *Merging, defaults, rejection* (`NestedMerge`, `AbsentHoldsDefault`, `RequiredExactly`,
  `FixedCountExact`, `TruncatedRejected`, `DecodedInBounds`): what decoding does to a structure on any
  input, and what it refuses.
- *The 32-bit varint reader* (`Exact32`, `ReadersAgree`): exactly which values it takes. It does
  not look at bits 4 to 6 of a fifth byte that continues, and it has no length limit, because its
  8-bit position counter wraps.
- *Release* (`PbRelease`, `OwnedExactly`, `ReleaseInnerThenOuter`): each block that can be reached from
  the message is freed exactly once.
- *Heap* (`Swap`, `Insert`, `Remove`, `Drain`): pointer surgery keeps a complete tree with
  consistent links, the order and the exact set of nodes.
- *Serializer drain* (`SerializersDrainInOrder`, `CleanIsExact`): in order over every run whose
  registrations and finish() calls are clean, and **only** then. Processing takes the lock twice,
  and a registration that falls between the two regions is lost (`RegistrationLost`). After the
  processing has finished, a registration or a finish() on a request that is not at rest starts
  some serializer twice (`LateSpoils`, `FinishSpoils`).
- *Runs* (`SingleFlightRefresh`, `RefreshRateBound`, `EveryCallHasReason`, `CancelledForever`, `MapStaysConsistent`,
  `TrueOnSecondEvent`): safety over every interleaving. The classes record the run they have made
  in a ghost field, so that the theorems on runs speak about the objects.

## Conventions

- The build modelled has a 64-bit `size_t`, 32-bit `pb_size_t` (`PB_FIELD_32BIT`, so the length
  header of a bytes array takes 4 bytes), an 8-bit `uint_fast8_t`, 64-bit integers, and the default
  `PB_MAX_REQUIRED_FIELDS` of 64.
- A C structure is a sequence of slots, one for each field or union. Contents the library leaves
  unspecified are `Junk`. Data and size pointers are integers computed as in the source.
- A sequence-level reader returns the value and the unread rest, or `Fail`. `Emits` is the one
  contract of everything that writes, for sizing streams and for real ones.
- `fatalError` in the task map is an outcome of the call.

## Model

| member | source | states |
|---|---|---|
| `VarintLaws.EncodedLength64` | Example/Pods/nanopb/pb_encode.c:608-627 | every 64-bit value takes between 1 and 10 bytes |
| `VarintLaws.RoundTrip64` | Example/Pods/nanopb/pb_decode.c:255-275 | the 64-bit reader gives back every 64-bit value from its encoding, whatever follows, and stops right behind it |
| `VarintLaws.Exact32` | Example/Pods/nanopb/pb_decode.c:187-246 | what the 32-bit reader makes of the encoding of any 64-bit value: it accepts exactly the values of `Accepts32` and yields them modulo 2^32 |
| `VarintLaws.Accepts32Ranges` | Example/Pods/nanopb/pb_decode.c:216-242 | accepted: all values below 2^32 and all sign-extended negative int32 values; refused: everything from 2^32 up to 2^63 |
| `VarintLaws.RoundTrip32` | Example/Pods/nanopb/pb_decode.c:187-246 | the 32-bit reader gives back every 32-bit value, whatever follows |
| `VarintLaws.ReadersAgree` | Example/Pods/nanopb/pb_decode.c:187-275 | on any input, canonical or not, that both readers accept they consume the same bytes and agree modulo 2^32 |
| `VarintLaws.Local32` | Example/Pods/nanopb/pb_decode.c:187-246 | the 32-bit reader depends only on the bytes it consumes |
| `VarintLaws.Local64` | Example/Pods/nanopb/pb_decode.c:255-275 | the 64-bit reader depends only on the bytes it consumes |
| `ByteLaws.VarintDigits` | Example/Pods/nanopb/pb_encode.c:608-627 | the encoding is the base-128 digits, least significant first, as few as possible, with the top bit on all but the last |
| `ByteLaws.Reader64Exact` | Example/Pods/nanopb/pb_decode.c:255-275 | the 64-bit reader on every input that holds a whole varint: up to ten bytes spell a number, taken modulo 2^64, longer ones are refused |
| `ByteLaws.Reader32Unlimited` | Example/Pods/nanopb/pb_decode.c:187-246 | the 32-bit reader takes any number of empty groups behind a value |
| `ByteLaws.SkipsAnyVarint` | Example/Pods/nanopb/pb_decode.c:278-287 | skipping takes a varint of any length |
| `ByteLaws.LittleEndianDigits` | Example/Pods/nanopb/pb_encode.c:641-666 | byte k of a fixed word is its base-256 digit k |
| `ByteLaws.NegativeTakesTen` | Example/Pods/nanopb/pb_encode.c:776-797 | a negative number takes ten bytes, the same in an integer field of any width |
| `ByteLaws.SignedFieldReads` | Example/Pods/nanopb/pb_decode.c:1345-1380 | a signed field takes any varint modulo 2^32, or 2^64 if eight bytes wide, in five bytes or in ten, and refuses what its type then cannot hold |
| `ByteLaws.UnsignedFieldReads` | Example/Pods/nanopb/pb_decode.c:1382-1404 | an unsigned field takes exactly the varints in its range, unchanged |
| `ByteLaws.ZigZagFieldReads` | Example/Pods/nanopb/pb_decode.c:1406-1428 | a zig-zag field takes the number that stands for the varint, if it is in range |
| `ByteLaws.BoolFieldReads` | Example/Pods/nanopb/pb_decode.c:1334-1343 | every 32-bit varint but 0 is true |
| `ByteLaws.BlobFieldReads` | Example/Pods/nanopb/pb_decode.c:1447-1570 | which windows bytes, strings and fixed-length bytes take, and what they make of them |
| `ByteLaws.ImplicitWritten` | Example/Pods/nanopb/pb_encode.c:240-337 | a has-less scalar is written exactly if it is not zero or empty; fixed-length bytes are written even if zero |
| `ByteLaws.ImplicitSubmessageWritten` | Example/Pods/nanopb/pb_encode.c:291-309 | a has-less submessage is written exactly if some field of it, at any nesting, is not empty; required fields and arrays without a count member never are empty |
| `ByteLaws.AbsentNotWritten` | Example/Pods/nanopb/pb_encode.c:341-426 | fields whose has, count or which member says absent are not written |
| `ByteLaws.ScalarRefused` | Example/Pods/nanopb/pb_encode.c:776-911 | the encoder refuses a value of its type exactly for too many bytes or an integer width that no type has |
| `ByteLaws.TooManyRefused` | Example/Pods/nanopb/pb_encode.c:159-160 | an array longer than its room is refused |
| `ScalarLaws.ZigZagRoundTrip` | Example/Pods/nanopb/pb_encode.c:630-639 | zig-zag of every int64 is its place in 0, -1, 1, -2, ... and is undone by the reader |
| `ScalarLaws.UnZigZagRoundTrip` | Example/Pods/nanopb/pb_decode.c:1285-1297 | every unsigned 64-bit word is the zig-zag of exactly the int64 the reader makes of it |
| `ScalarLaws.LittleEndianInverts` | Example/Pods/nanopb/pb_decode.c:1299-1330 | a little-endian word of any width is read back |
| `ScalarLaws.WindowInverts` | Example/Pods/nanopb/pb_decode.c:372-400 | a length-delimited body below 2^32 bytes comes back as exactly that window, with the parent behind it |
| `ScalarLaws.KeyInverts` | Example/Pods/nanopb/pb_decode.c:298-318 | a key with a field number in 1..2^29-1 is read back as that number and wire type |
| `ScalarLaws.ScalarRoundTrip` | Example/Pods/nanopb/pb_decode.c:1334-1523 | each scalar kind and width: every value the field can represent (strings with their terminator) has an encoding, and the reader gives it back whatever follows |
| `ScalarLaws.StringTerminated` | Example/Pods/nanopb/pb_decode.c:1487-1523 | a char array without terminator is written all the same; the reader refuses exactly those, and strings whose size with the terminator is not a 32-bit number |
| `RoundTripLaws.MessageEncodable` | Example/Pods/nanopb/pb_encode.c:341-426 | every well-formed message of a well-formed static table has an encoding |
| `RoundTripLaws.PackedInverts` | Example/Pods/nanopb/pb_decode.c:424-449 | reading a packed body stores exactly its elements, from the given index on |
| `RoundTripLaws.ItemsInvert` | Example/Pods/nanopb/pb_decode.c:450-464 | reading the keyed records of an unpacked array stores exactly its elements |
| `RoundTripLaws.FieldsInvert` | Example/Pods/nanopb/pb_decode.c:952-1037 | reading the encoding of the fields from any entry on rebuilds those fields, meets exactly the entries that were written and leaves fixed-count arrays complete |
| `RoundTripLaws.MessageInverts` | Example/Pods/nanopb/pb_decode.c:934-1096 | decoding an encoding below 2^32 bytes succeeds, consumes every byte and yields the restored message, at any nesting |
| `RoundTripLaws.MessageSame` | Example/Pods/nanopb/pb_decode.c:845-932 | the restored message agrees with the original, up to the contents of absent fields, exactly when no zero that was left out has a different explicit default |
| `RoundTripLaws.SafeTable` | Example/Pods/nanopb/pb_encode.c:240-337 | tables without explicit defaults on fields that have no has member never lose a zero |
| `RoundTripLaws.DecodeInvertsEncode` | Example/Pods/nanopb/pb_encode.c:528-550 | the round trip of whole messages: success, all bytes consumed, and the message restored if and only if `ZeroesKept` |
| `RoundTripLaws.ZeroLost` | Example/Pods/nanopb/pb_encode.c:341-378 | concrete loss: a has-less field with default 5 holding 0 encodes to nothing and decodes to 5 |
| `ForwardLaws.ValueIsRecord` | Example/Pods/nanopb/pb_encode.c:675-706 | what the encoder writes for a value is one whole record to a reader that knows no field: the wire type in the key announces exactly the bytes that follow |
| `ForwardLaws.PackedIsRecord` | Example/Pods/nanopb/pb_encode.c:165-205 | so is a whole array of packable elements, however many there are |
| `ForwardLaws.FieldSkips` | Example/Pods/nanopb/pb_decode.c:321-331 | whatever is written for a field, a table without that field passes over it |
| `ForwardLaws.OlderReader` | Example/Pods/nanopb/pb_decode.c:966-994 | a table with only some of the fields reads the message: success, every byte consumed, and the fields it has restored if and only if their zeroes are kept |
| `DefaultLaws.Untouched` | Example/Pods/nanopb/pb_decode.c:952-1030 | decoding leaves alone every slot whose fields the input does not mention |
| `RoundTrip.DefaultsAreAbsent` | Example/Pods/nanopb/pb_decode.c:845-932 | a message set to defaults is absent throughout, at any nesting: has members false, counts and which members 0, explicit defaults where the table gives them, zeros elsewhere |
| `DefaultLaws.AbsentHoldsDefault` | Example/Pods/nanopb/pb_decode.c:845-932 | in a decoded message, a field that the input does not mention is absent in that sense, submessages at any nesting |
| `DefaultLaws.AbsentScalar` | Example/Pods/nanopb/pb_decode.c:880-897 | spelled out: has is false, and the value is the explicit default if there is one, else zero |
| `MergeLaws.SingularRecord` | Example/Pods/nanopb/pb_decode.c:1525-1547 | a record of a singular submessage is decoded into what the slot holds, or into defaults if the union holds another member |
| `MergeLaws.NestedMerge` | Example/Pods/nanopb/pb_decode.c:1537-1542 | two records of a singular submessage are one record with both contents |
| `MergeLaws.UnionSwitch` | Example/Pods/nanopb/pb_decode.c:464-480 | when a union changes to a submessage, nothing of its earlier contents is left |
| `MergeLaws.ElementsApart` | Example/Pods/nanopb/pb_decode.c:450-462 | elements of a repeated submessage are decoded afresh, each for itself, and only while there is room |
| `MergeLaws.LastOneWins` | Example/Pods/nanopb/pb_decode.c:412-424 | of two records of a singular scalar the last one wins |
| `BoundsLaws.DecodedInBounds` | Example/Pods/nanopb/pb_decode.c:406-483 | no input makes the decoder store a value its field cannot hold or more elements than an array has, at any nesting |
| `RejectLaws.RequiredExactly` | Example/Pods/nanopb/pb_decode.c:1039-1079 | without arrays that need a complete count, a readable input is accepted exactly if it mentions each of the first 64 required fields |
| `RejectLaws.FixedCountExact` | Example/Pods/nanopb/pb_decode.c:1000-1037 | records of one array without a count member are accepted exactly if they have exactly as many elements as the array, which then holds those |
| `RejectLaws.SwitchIncomplete` | Example/Pods/nanopb/pb_decode.c:1003-1012 | going on to another such array before the last one is complete is refused |
| `RejectLaws.TruncatedRejected` | Example/Pods/nanopb/pb_decode.c:952-1030 | an input cut off anywhere but between two records is rejected |
| `RejectLaws.ZeroKeyEnds` | Example/Pods/nanopb/pb_decode.c:958-964 | a zero key between two records ends the message |
| `RejectLaws.BadWireType` | Example/Pods/nanopb/pb_decode.c:321-331 | an unknown field with a wire type that is none of the four is refused |
| `EndToEnd.EncodeThenDecode` | Example/Pods/nanopb/pb_decode.c:1084-1096 | the encoder and decoder methods one after the other on a buffer: both succeed, the buffer holds the encoding, no byte is left unread, and the message is restored if and only if `ZeroesKept` |
| `EndToEnd.MessageSane` | Example/Pods/nanopb/pb_encode.c:528-550 | well-formed messages with encodings below 2^32 bytes meet the preconditions of the encoder |
| `RecordLaws.StepLocal` | Example/Pods/nanopb/pb_decode.c:952-1030 | one turn of the decoding loop depends only on the record it consumes |
| `RecordLaws.RunSplit` | Example/Pods/nanopb/pb_decode.c:952-1030 | whole records read the same in front of any other input |
| `RecordLaws.UnknownTransparent` | Example/Pods/nanopb/pb_decode.c:966-994 | a well-formed record with an undeclared non-zero tag, inserted at any record boundary (also between elements of a fixed-count array), changes nothing in the outcome of decoding |
| `RecordLaws.RunConcat` | Example/Pods/nanopb/pb_decode.c:952-1030 | the loop on a concatenation is the loop on the second part from the state the first part leaves |
| `RecordLaws.MergeByConcatenation` | Example/Pods/nanopb/pb_decode.c:934-1082 | without top-level required and fixed-count fields, decoding s followed by t is decoding t into the result of decoding s, failures included |
| `PackedLaws.PackedOverflows` | Example/Pods/nanopb/pb_decode.c:432-448 | a packed body with too many elements is refused |
| `PackedLaws.SplitIrrelevant` | Example/Pods/nanopb/pb_decode.c:424-464 | any mix of packed records and single records of a counted scalar array appends exactly its elements, and fails exactly when the total exceeds array_size |
| `PackedLaws.PackedOrNot` | Example/Pods/nanopb/pb_decode.c:424-464 | two ways of writing the same elements decode alike in any surrounding message |
| `FieldIter.UnionShares` | Example/Pods/nanopb/pb_common.c:48-55 | all members of a oneof have the same data and size pointers |
| `FieldIter.EntryPlaced` | Example/Pods/nanopb/pb_common.c:57-82 | an entry lies behind the previous one, which is an array, a pointer of eight bytes or a single value, with the gap the table gives |
| `FieldIter.ElementsInside` | Example/Pods/nanopb/pb_common.c:57-64 | no element of a static array reaches into a later entry |
| `FieldIter.EntriesInOrder` | Example/Pods/nanopb/pb_common.c:48-82 | every later entry, with unions in between or not, starts no earlier than the end of an entry, unless that entry is followed by a further member of its own union |
| `FieldIter.Iter.constructor` | Example/Pods/nanopb/pb_common.c:8-27 | a fresh iterator stands on the first entry |
| `FieldIter.Iter.Next` | Example/Pods/nanopb/pb_common.c:29-85 | moves to the next entry, or wraps and says so; pointers and required index stay those of a fresh walk to the same entry |
| `FieldIter.Iter.Find` | Example/Pods/nanopb/pb_common.c:87-104 | from any position, within one cycle, succeeds exactly when a non-extension entry has the tag; stops on the first one in cyclic order; on an empty table tag 0 matches the terminator |
| `FieldIter.RequiredIndexStrict` | Example/Pods/nanopb/pb_common.c:74-79 | required entries have strictly increasing required indices |
| `FieldIter.RequiredIndexOnto` | Example/Pods/nanopb/pb_common.c:74-79 | every smaller index belongs to some required entry |
| `RequiredBitmap.SetBit` | Example/Pods/nanopb/pb_decode.c:1021-1026 | or-ing in a bit adds exactly the field it stands for |
| `RequiredBitmap.SeenAll` | Example/Pods/nanopb/pb_decode.c:1048-1058 | all bits below the capped count are set exactly when each of the first 64 required fields was met |
| `RequiredBitmap.Mark` | Example/Pods/nanopb/pb_decode.c:1021-1026 | the update of the bitmap words |
| `RequiredBitmap.CheckRequired` | Example/Pods/nanopb/pb_decode.c:1039-1079 | wherever the iterator stands, the final check accepts exactly when every one of the first 64 required fields was met |
| `RequiredBitmap.WordsComplete` | Example/Pods/nanopb/pb_decode.c:1060-1078 | the word comparisons and the shifted remainder test exactly the first `count` bits |
| `InputStream.IStream.constructor` | Example/Pods/nanopb/pb_decode.c:159-176 | a stream over the whole buffer |
| `InputStream.IStream.Read` | Example/Pods/nanopb/pb_decode.c:87-137 | reads exactly the next bytes if they are in the window; position plus bytes left never changes |
| `InputStream.IStream.ReadByte` | Example/Pods/nanopb/pb_decode.c:139-157 | the same for one byte |
| `InputStream.IStream.DecodeVarint32` | Example/Pods/nanopb/pb_decode.c:187-247 | the loop computes `Varint32`; eof is reported exactly on an empty window |
| `InputStream.IStream.DecodeVarint` | Example/Pods/nanopb/pb_decode.c:255-275 | the loop computes `Varint64` |
| `InputStream.IStream.SkipVarint` | Example/Pods/nanopb/pb_decode.c:278-287 | skips exactly one varint |
| `InputStream.IStream.MakeSubstream` | Example/Pods/nanopb/pb_decode.c:372-385 | the window and what remains of the parent, which together end where the parent ended; the parent never gains bytes |
| `InputStream.IStream.CloseSubstream` | Example/Pods/nanopb/pb_decode.c:387-400 | leaves the parent exactly at the end of the window, however much of it was consumed |
| `InputStream.IStream.SkipString` | Example/Pods/nanopb/pb_decode.c:289-296 | skips exactly one length-delimited body |
| `InputStream.IStream.DecodeTag` | Example/Pods/nanopb/pb_decode.c:298-319 | field number and wire type of the next key; end of message on key 0 or on an empty window |
| `InputStream.IStream.SkipField` | Example/Pods/nanopb/pb_decode.c:321-331 | skips one value of a known wire type, refuses the others |
| `Decoder.DecodeScalar` | Example/Pods/nanopb/pb_decode.c:1334-1445 | the value readers compute `ReadScalar` and stay inside the window |
| `Decoder.CastKeeps` | Example/Pods/nanopb/pb_decode.c:1367-1380 | a C cast to 1, 2, 4 or 8 bytes, signed or unsigned, leaves a value unchanged exactly when the type holds it |
| `Decoder.Narrow` | Example/Pods/nanopb/pb_decode.c:1345-1428 | casting and comparing accepts exactly the values in the range of the field type, each unchanged |
| `Decoder.DecodeBlob` | Example/Pods/nanopb/pb_decode.c:1447-1570 | bytes, strings and fixed-length bytes: the size is checked before reading |
| `Decoder.DecodePacked` | Example/Pods/nanopb/pb_decode.c:429-446 | the packed loop computes `ReadPacked` |
| `Decoder.DecodeValue` | Example/Pods/nanopb/pb_decode.c:1525-1547 | submessages are decoded inside their window; success leaves the parent behind it, and failure never moves the end of the parent outwards |
| `Decoder.DecodeField` | Example/Pods/nanopb/pb_decode.c:406-483 | decode_static_field computes `ReadField` for every repetition rule |
| `Decoder.SearchFinds` | Example/Pods/nanopb/pb_common.c:87-104 | for tables with distinct tags the cyclic search finds the one entry, wherever it starts |
| `Decoder.DecodeEntry` | Example/Pods/nanopb/pb_decode.c:997-1029 | fixed-count tracking, bitmap update and field for the entry the iterator stands on |
| `Decoder.DecodeRecord` | Example/Pods/nanopb/pb_decode.c:952-1030 | one turn of the loop computes `Step` |
| `Decoder.PbDecodeNoinit` | Example/Pods/nanopb/pb_decode.c:934-1082 | the loop with iterator, bitmap and fixed-count counter computes `Decode` |
| `Decoder.SetFieldToDefault` | Example/Pods/nanopb/pb_decode.c:845-915 | a static field gets its default contents |
| `Decoder.SetToDefaults` | Example/Pods/nanopb/pb_decode.c:917-932 | the loop over the table leaves the default message, whatever the structure held |
| `Decoder.PbDecode` | Example/Pods/nanopb/pb_decode.c:1084-1096 | defaults, then decoding |
| `OutputStream.OStream.BufWrite` | Example/Pods/nanopb/pb_encode.c:74-84 | appends exactly the given bytes to the output |
| `OutputStream.OStream.Write` | Example/Pods/nanopb/pb_encode.c:103-126 | a real stream takes the bytes exactly when they fit; a sizing stream counts them |
| `OutputStream.OStream.WriteVarint` | Example/Pods/nanopb/pb_encode.c:608-627 | emits exactly `EncodeVarint` |
| `OutputStream.VarintBytes` | Example/Pods/nanopb/pb_encode.c:608-627 | the ten-byte buffer loop, with its cleared last continuation bit, produces the varint |
| `Encoder.StringSize` | Example/Pods/nanopb/pb_encode.c:873-896 | the length loop finds the first zero byte within the limit |
| `Encoder.EncodeString` | Example/Pods/nanopb/pb_encode.c:709-715 | length and bytes |
| `Encoder.EncodeScalarTo` | Example/Pods/nanopb/pb_encode.c:769-911 | the value writers emit `EncodeScalar` |
| `Encoder.EncodeKey` | Example/Pods/nanopb/pb_encode.c:669-673 | emits the key |
| `Encoder.EncodeBody` | Example/Pods/nanopb/pb_encode.c:740-764 | the writing pass through a limited substream emits the body and never takes the "size changed" branch |
| `Encoder.EncodeSubmessage` | Example/Pods/nanopb/pb_encode.c:717-765 | measure, length, body: emits the delimited encoding in both modes |
| `Encoder.Measure` | Example/Pods/nanopb/pb_encode.c:719-732 | the sizing pass returns the length of what would be written |
| `Encoder.PackedSize` | Example/Pods/nanopb/pb_encode.c:169-189 | the computed size of fixed-width arrays and the measured size of the others are the length of the packed body |
| `Encoder.EncodePackedArray` | Example/Pods/nanopb/pb_encode.c:162-205 | key, length and elements of a packed array, in both modes |
| `Encoder.EncodeItemsTo` | Example/Pods/nanopb/pb_encode.c:207-233 | each element with its key |
| `Encoder.EncodeFieldTo` | Example/Pods/nanopb/pb_encode.c:341-426 | presence test, then the field |
| `Encoder.PbEncode` | Example/Pods/nanopb/pb_encode.c:528-550 | the loop over the table emits `Encode` on both kinds of stream |
| `Encoder.GetEncodedSize` | Example/Pods/nanopb/pb_encode.c:567-576 | the size is the number of bytes of the encoding |
| `Encoder.EncodeInto` | Example/Pods/nanopb/pb_encode.c:528-576 | encoding into max bytes succeeds exactly when sizing does and its count is at most max; it then leaves exactly that many bytes, and they are the encoding |
| `PointerArray.SizesAllowed` | Example/Pods/nanopb/pb_decode.c:494-521 | the half-width shortcut with the division check accepts non-zero sizes exactly when their product fits in size_t |
| `PointerArray.Block.Allocate` | Example/Pods/nanopb/pb_decode.c:490-533 | keeps the contents, and succeeds exactly when the sizes are allowed and memory is granted |
| `PointerArray.Grow` | Example/Pods/nanopb/pb_decode.c:622-640 | the new size is strictly larger and at most PB_SIZE_MAX |
| `PointerArray.Fill` | Example/Pods/nanopb/pb_decode.c:604-656 | count <= allocated_size <= PB_SIZE_MAX throughout, each element stored below allocated_size; the elements of the window are appended |
| `PointerArray.DecodePackedPointer` | Example/Pods/nanopb/pb_decode.c:597-661 | the packed branch: appends exactly the elements of the window, and fails only for lack of memory or on bad input |
| `PointerArray.DecodeOnePointer` | Example/Pods/nanopb/pb_decode.c:662-679 | the unpacked branch appends one element |
| `Release.Allocator.Free` | Example/Pods/nanopb/pb_decode.c:1239-1257 | only a live block may be freed |
| `Release.ReleaseField` | Example/Pods/nanopb/pb_decode.c:1170-1259 | frees exactly what the field owns, then owns nothing; inactive union members are untouched |
| `Release.PbRelease` | Example/Pods/nanopb/pb_decode.c:1261-1275 | frees every block the message owns, each exactly once, while it is live and after everything inside it; afterwards the message owns nothing and still matches its table |
| `Release.OwnedExactly` | Example/Pods/nanopb/pb_decode.c:1170-1259 | what a message owns is exactly what can be reached along its pointers: through the active union members, all counted elements of arrays and all of those without a count |
| `Release.ReleaseTwice` | Example/Pods/nanopb/pb_decode.c:1261-1275 | a second release frees nothing |
| `Release.ReleaseInnerThenOuter` | Example/Pods/nanopb/pb_decode.c:1084-1096 | a failed array element at any depth of repeated submessages, released by the innermost decode, then by each one around it: every block of the message is freed exactly once |
| `Heap.SwapUp` | Example/Pods/Libuv-gRPC/src/heap-inl.h:146-147 | swapping a too small node with its parent moves the only disorder up |
| `Heap.SwapDown` | Example/Pods/Libuv-gRPC/src/heap-inl.h:220-229 | swapping with the smaller child moves the only disorder down |
| `Heap.RootIsLeast` | Example/Pods/Libuv-gRPC/src/heap-inl.h:67-70 | no node of an ordered heap is less than the root |
| `Heap.PathTo` | Example/Pods/Libuv-gRPC/src/heap-inl.h:122-124 | the bits of the count are the turns from the root to that slot |
| `Heap.Tree.constructor` | Example/Pods/Libuv-gRPC/src/heap-inl.h:62-65 | the empty heap |
| `Heap.Tree.Min` | Example/Pods/Libuv-gRPC/src/heap-inl.h:67-70 | null exactly on the empty heap, otherwise a node that no other is less than |
| `Heap.Tree.Swap` | Example/Pods/Libuv-gRPC/src/heap-inl.h:72-104 | parent and child change places in the complete tree and nothing else moves; all links stay consistent |
| `Heap.Tree.Walk` | Example/Pods/Libuv-gRPC/src/heap-inl.h:126-136 | following the path arrives at the pointer to the slot and the pointer to its parent |
| `Heap.Tree.Attach` | Example/Pods/Libuv-gRPC/src/heap-inl.h:138-141 | the new node becomes the last leaf of the complete tree |
| `Heap.Tree.SiftUp` | Example/Pods/Libuv-gRPC/src/heap-inl.h:143-147 | restores the order, keeping shape and nodes |
| `Heap.Tree.Smallest` | Example/Pods/Libuv-gRPC/src/heap-inl.h:221-227 | picks the smaller child if it is less than the node |
| `Heap.Tree.SiftDown` | Example/Pods/Libuv-gRPC/src/heap-inl.h:216-229 | leaves at most an upward disorder |
| `Heap.Tree.Unlink` | Example/Pods/Libuv-gRPC/src/heap-inl.h:163-185 | cuts off the last leaf |
| `Heap.Tree.Replace` | Example/Pods/Libuv-gRPC/src/heap-inl.h:195-214 | the last leaf takes over the links of the removed node |
| `Heap.Tree.Detach` | Example/Pods/Libuv-gRPC/src/heap-inl.h:160-214 | the surgery before sifting: a complete tree of the other nodes |
| `Heap.Tree.Insert` | Example/Pods/Libuv-gRPC/src/heap-inl.h:106-148 | valid heap with exactly one more node |
| `Heap.Tree.Remove` | Example/Pods/Libuv-gRPC/src/heap-inl.h:150-237 | valid heap with exactly that node gone, whichever node it was; no effect on an empty heap |
| `Heap.Tree.Dequeue` | Example/Pods/Libuv-gRPC/src/heap-inl.h:239-241 | valid heap without its root |
| `Heap.Drain` | Example/Pods/Libuv-gRPC/src/heap-inl.h:239-241 | dequeuing to the end yields every node once, in non-decreasing order |
| `AuthMachine.Interceptor.constructor` | Example/Pods/Alamofire/Source/AuthenticationInterceptor.swift:241-247 | the object starts as the runs do |
| `AuthMachine.Interceptor.IsRefreshExcessive` | Example/Pods/Alamofire/Source/AuthenticationInterceptor.swift:355-368 | the fold counts the starts within the window and compares them with the limit |
| `AuthMachine.Interceptor.Refresh` | Example/Pods/Alamofire/Source/AuthenticationInterceptor.swift:330-353 | starts a refresh, or fails everyone who waits |
| `AuthMachine.Interceptor.Adapt` | Example/Pods/Alamofire/Source/AuthenticationInterceptor.swift:250-289 | the object makes the adapt step of the runs; what that step does is said by the rows of AuthOutcomes |
| `AuthMachine.Interceptor.RefuseRetry` | Example/Pods/Alamofire/Source/AuthenticationInterceptor.swift:295-305 | the retry that is refused without the lock, as a step of the runs |
| `AuthMachine.Interceptor.Retry` | Example/Pods/Alamofire/Source/AuthenticationInterceptor.swift:307-318 | the first lock region of retry, as a step of the runs |
| `AuthMachine.Interceptor.RetryEnqueue` | Example/Pods/Alamofire/Source/AuthenticationInterceptor.swift:320-326 | the second one, as a step of the runs |
| `AuthMachine.Interceptor.Answer` | Example/Pods/Alamofire/Source/AuthenticationInterceptor.swift:342-351 | the lock region of a refresh answer, successful or not, as a step of the runs |
| `AuthMachine.Interceptor.RunNext` | Example/Pods/Alamofire/Source/AuthenticationInterceptor.swift:381-385 | the next item of a dispatched block, which may adapt again, as a step of the runs |
| `AuthMachine.Interceptor.Guarantee` | Example/Pods/Alamofire/Source/AuthenticationInterceptor.swift:250-402 | whatever was called on the object: its fields say single flight, nobody waits without a refresh, and each completion submitted is in exactly one place |
| `AuthRuns.FlushOps` | Example/Pods/Alamofire/Source/AuthenticationInterceptor.swift:370-402 | the block of a refresh answer, success or failure, carries exactly the completions that were queued, each as often as it was queued |
| `AuthRuns.AnswerKeeps` | Example/Pods/Alamofire/Source/AuthenticationInterceptor.swift:370-402 | an answer moves all queued completions into its block and leaves none behind |
| `AuthRuns.StepConserves` | Example/Pods/Alamofire/Source/AuthenticationInterceptor.swift:250-402 | every step keeps each submitted completion in exactly one place |
| `AuthRuns.StepSingleFlight` | Example/Pods/Alamofire/Source/AuthenticationInterceptor.swift:330-402 | every step keeps: queues empty unless refreshing, and exactly one refresh unanswered while refreshing |
| `AuthRuns.StepRate` | Example/Pods/Alamofire/Source/AuthenticationInterceptor.swift:330-368 | every step keeps any refresh start more than the interval later than the one maximumAttempts before it |
| `AuthRuns.RunKeepsInv` | Example/Pods/Alamofire/Source/AuthenticationInterceptor.swift:250-402 | the invariants hold in every reachable state |
| `AuthRuns.SingleFlightRefresh` | Example/Pods/Alamofire/Source/AuthenticationInterceptor.swift:250-402 | over every run: single flight, queues only while refreshing, and each completion called once, queued, dispatched or entering: exactly one of these |
| `AuthRuns.RefreshRateBound` | Example/Pods/Alamofire/Source/AuthenticationInterceptor.swift:330-368 | over every run with a monotone clock, no closed interval of the window length holds more than maximumAttempts refresh starts |
| `AuthRuns.EventuallyAllCalled` | Example/Pods/Alamofire/Source/AuthenticationInterceptor.swift:370-402 | once nothing is pending, every submitted completion was called exactly once |
| `AuthOutcomes.AdaptWaits` | Example/Pods/Alamofire/Source/AuthenticationInterceptor.swift:253-257 | an adapt during a refresh waits for it and changes nothing else |
| `AuthOutcomes.AdaptAnswers` | Example/Pods/Alamofire/Source/AuthenticationInterceptor.swift:259-276 | otherwise, a credential that needs no refresh is handed out as it is, and without a credential exactly that error; nothing else changes |
| `AuthOutcomes.AdaptRefreshes` | Example/Pods/Alamofire/Source/AuthenticationInterceptor.swift:266-271 | a credential that needs a refresh starts one, with the request waiting, if the window has room; otherwise all who wait fail |
| `AuthOutcomes.RetryAnswers` | Example/Pods/Alamofire/Source/AuthenticationInterceptor.swift:293-318 | the refusals of retry and its first lock region: what each request is told, and which go on |
| `AuthOutcomes.RetryRefreshes` | Example/Pods/Alamofire/Source/AuthenticationInterceptor.swift:320-326 | the second one: the request waits for the refresh under way or for the one it starts, or fails with all who wait |
| `AuthOutcomes.AnswerReleases` | Example/Pods/Alamofire/Source/AuthenticationInterceptor.swift:342-402 | success stores the new credential, lets the waiting requests adapt again and the others retry; failure gives each its error and keeps the credential |
| `AuthOutcomes.RefreshStarts` | Example/Pods/Alamofire/Source/AuthenticationInterceptor.swift:266-326 | a step starts a refresh exactly if it is an adapt that requires one or a retry with the credential still in place, none is under way, and the window has room |
| `AuthOutcomes.EveryCallHasReason` | Example/Pods/Alamofire/Source/AuthenticationInterceptor.swift:250-402 | over every run, whatever a completion is called with, some step was the reason; a credential is handed out only by a step that held it, with no refresh under way and none required |
| `RequestLifecycle.ProtectedRequest.NextResponseSerializer` | Example/Pods/Alamofire/Source/Request.swift:554-566 | the region is the look-up step of the runs; what it returns is in flight from then on, and finding nothing leads to the clearing |
| `RequestLifecycle.ProtectedRequest.ClearSerializers` | Example/Pods/Alamofire/Source/Request.swift:575-590 | the region is the clearing step of the runs; what it returns are the completions about to be called |
| `RequestLifecycle.ProtectedRequest.BeginFinish` | Example/Pods/Alamofire/Source/Request.swift:513-516 | the guard of finish: it goes on exactly when the run enters the block |
| `RequestLifecycle.ProtectedRequest.MarkFinishing` | Example/Pods/Alamofire/Source/Request.swift:518-518 | setting the flag is the next step of that block |
| `RequestLifecycle.ProtectedRequest.AddCompletion` | Example/Pods/Alamofire/Source/Request.swift:607-609 | a serializer in flight ends, as a step of the runs |
| `RequestLifecycle.ProtectedRequest.ResetForRetry` | Example/Pods/Alamofire/Source/Request.swift:613-625 | the reset is the step of the runs that abandons an attempt |
| `RequestLifecycle.ProtectedRequest.AppendResponseSerializer` | Example/Pods/Alamofire/Source/Request.swift:533-549 | a registration is one step of the runs; it says whether a round of processing and whether a possible resume is queued |
| `RequestLifecycle.ProtectedRequest.CancelRequest` | Example/Pods/Alamofire/Source/Request.swift:669-690 | cancelling is a step of the runs; finish() is queued exactly if the request was neither cancelled nor finished and has no unfinished task |
| `RequestLifecycle.ProtectedRequest.TraceOrderly` | Example/Pods/Alamofire/Source/Request.swift:513-625 | whatever was called on the object, if it was called cleanly its drain is in order |
| `RequestLifecycle.StepInv` | Example/Pods/Alamofire/Source/Request.swift:513-625 | every clean step keeps the drain invariant |
| `RequestLifecycle.SerializersDrainInOrder` | Example/Pods/Alamofire/Source/Request.swift:513-610 | over every clean run: serializers of an attempt start once each, in order, one at a time; completions are called once each, in order, for all that was started; and nothing is left out when the request is at rest |
| `RequestLifecycle.CompletionsAfterLast` | Example/Pods/Alamofire/Source/Request.swift:569-601 | completions are taken out only when every registered serializer has been run |
| `RequestLifecycle.CleanIsExact` | Example/Pods/Alamofire/Source/Request.swift:533-601 | wherever a clean run has led, a step keeps the drain in order in every clean continuation if and only if it is clean: a registration not between the look-up that found nothing and the clearing, and after processing has finished only on a request at rest, like finish() |
| `RequestLifecycle.RegistrationLost` | Example/Pods/Alamofire/Source/Request.swift:569-590 | a registration between those two regions is lost: the request comes to rest without having started it |
| `RequestLifecycle.LateSpoils` | Example/Pods/Alamofire/Source/Request.swift:541-543 | a registration after processing has finished, on a request not at rest, makes some serializer start twice |
| `RequestLifecycle.FinishSpoils` | Example/Pods/Alamofire/Source/Request.swift:513-523 | so does finish() while a late round is queued or running |
| `RequestLifecycle.LostBetweenRegions` | Example/Pods/Alamofire/Source/Request.swift:569-590 | a concrete run that loses a registration |
| `RequestLifecycle.LateRegistrationStartsTwice` | Example/Pods/Alamofire/Source/Request.swift:541-543 | two registrations after processing finished: a concrete run that starts the first serializer twice |
| `RequestLifecycle.AttemptDrains` | Example/Pods/Alamofire/Source/Request.swift:513-610 | in every clean run without retries, whatever is interleaved: once as many serializers ended as are registered and the queue is idle, all were started, all completions called, in order, and the request is finished or cancelled |
| `RequestLifecycle.FinishGetsDone` | Example/Pods/Alamofire/Source/Request.swift:513-610 | after finish() and without retries the request takes a bounded number of steps and can stop only when everything was run and called, and it is finished or cancelled |
| `RequestLifecycle.CancelledForever` | Example/Pods/Alamofire/Source/Request.swift:50-63 | in every run, clean or not, the cancelled state is never left |
| `RequestLifecycle.TransitionTable` | Example/Pods/Alamofire/Source/Request.swift:50-63 | the moves canTransitionTo allows, one by one |
| `RequestLifecycle.StateAfter` | Example/Pods/Alamofire/Source/Request.swift:533-731 | where each step leads: the clearing finishes every request that is not cancelled, cancel, suspend and resume move those that are neither cancelled nor finished, a registration reopens a finished one, nothing else moves the state |
| `TaskMap.RequestTaskMap.constructor` | Example/Pods/Alamofire/Source/RequestTaskMap.swift:39-45 | the empty map |
| `TaskMap.RequestTaskMap.AssignRequest` | Example/Pods/Alamofire/Source/RequestTaskMap.swift:47-66 | the dictionaries stay mutual inverses exactly when neither side was mapped or both to each other; the pair is then mapped without events |
| `TaskMap.RequestTaskMap.AssignTask` | Example/Pods/Alamofire/Source/RequestTaskMap.swift:68-87 | the same from the other side |
| `TaskMap.AssignmentExact` | Example/Pods/Alamofire/Source/RequestTaskMap.swift:62-64 | the exact condition under which assigning keeps the dictionaries inverse |
| `TaskMap.RequestTaskMap.RemoveRequest` | Example/Pods/Alamofire/Source/RequestTaskMap.swift:49-59 | fatal exactly when the request is unknown, otherwise its pair alone is dropped |
| `TaskMap.RequestTaskMap.RemoveTask` | Example/Pods/Alamofire/Source/RequestTaskMap.swift:70-80 | fatal exactly when the task is unknown, otherwise its pair alone is dropped |
| `TaskMap.RequestTaskMap.AfterGatheringMetrics` | Example/Pods/Alamofire/Source/RequestTaskMap.swift:115-125 | fatal exactly on an unknown task or a duplicate report; drops the task and returns true exactly on its second event |
| `TaskMap.RequestTaskMap.AfterCompleting` | Example/Pods/Alamofire/Source/RequestTaskMap.swift:127-147 | the same for completion; on platforms without metrics it always drops and returns true |
| `TaskMap.RequestTaskMap.Count` | Example/Pods/Alamofire/Source/RequestTaskMap.swift:89-101 | the sizes the source compares are always equal |
| `TaskMap.SameSize` | Example/Pods/Alamofire/Source/RequestTaskMap.swift:89-101 | mutually inverse dictionaries have equally many entries |
| `TaskMap.OneByOne` | Example/Pods/Alamofire/Source/RequestTaskMap.swift:115-147 | along any run without explicit removal of the task, it is mapped exactly while fewer than two of its events are in |
| `TaskMap.DroppedOnSecondEvent` | Example/Pods/Alamofire/Source/RequestTaskMap.swift:115-147 | from a fresh association on, the task is dropped exactly on the second event, in either order, and no third can be reported |
| `TaskMap.TrueOnSecondEvent` | Example/Pods/Alamofire/Source/RequestTaskMap.swift:115-147 | along the same runs, a report returns true exactly if it is the second one of its task |
| `TaskMap.StepRefines` | Example/Pods/Alamofire/Source/RequestTaskMap.swift:47-147 | each call on consistent dictionaries does and returns what the reference says |
| `TaskMap.MapStaysConsistent` | Example/Pods/Alamofire/Source/RequestTaskMap.swift:47-147 | from the empty map, any sequence of fresh associations, removals and reports keeps the dictionaries mutual inverses with events for the same tasks, and returns the flags of the reference |

## Left out

- Callback fields, extension fields and extension chains, custom I/O streams and the build without
  64-bit integers: they run unseen user functions or are alternate builds.
- Error message texts, except which writing error was recorded.
- Recursive message types: descriptors are finite trees.
- Pointer fields in the message codec: only repeated scalar pointer fields (`pointer_array`) and
  the release of pointer fields (`release`) are modelled. pb_release_union_field is not modelled.
- The destination structure is passed in and handed back as a value, so partial updates of it on a
  failed decode and aliasing are not captured.
- The bytes of a fixed-count array after defaults are set are `Junk`; the source clears only their
  first `pb_size_t` bytes.
- A key number 0 on an empty table reads a bool into memory that belongs to no field; the model
  reads the bool and drops it.
- A bytes field whose data_size is below the 4-byte header: the unsigned subtraction in the encoder
  would wrap; the model refuses every value.
- Encoder.PbEncode: requires `Sane` (values of the C type, every written submessage below 2^63
  bytes, buffers of at most 2^63 bytes), because the unsigned sum at line 740 of pb_encode.c could
  wrap otherwise; no C object is that large.
- Decoder.PbDecodeNoinit: requires distinct non-zero tags and no extension entries, which the
  generator guarantees.
- Default values that a table gives for array elements, and the raw layout behind unaligned access.
- PointerArray.Fill: what realloc grants is a parameter; when it refuses, only the bounds and
  the elements stored so far are described.
- Release.PbRelease: structures are values and only the allocator is an object; the pointers set to
  null are those of the returned structure. That memory is not used after it was freed is a
  precondition on the blocks around it (`held`), not a property of each read.
- Release.ReleaseInnerThenOuter: a partly decoded element is taken to match its table (pointers null
  or allocated, counted elements initialised); decoding of pointer submessages is not modelled.
- Decoder.PbDecode: does not call pb_release on failure, which the malloc build does; `release` covers
  it separately.
- Decoder.DecodeField: what the destination holds after a failed decode is not described.
- Encoder.EncodeFieldTo: the proto3 zero test looks at the value, not byte by byte at its memory.
- Heap.Tree.Insert: the element count is unbounded, so the wrap-around of the 32-bit count and path
  is not modelled; keys do not change while a node is in the heap.
- The authenticator answers each refresh once, `requiresRefresh` and the check of the request
  against the credential are inputs of the step, and the clock does not go back. Dispatched blocks
  may interleave more freely than on the source's queue, so the results cover it.
- RequestLifecycle.SerializersDrainInOrder: holds of clean runs; `CleanIsExact` shows that this is
  exact. The guard and the flag of finish(), processing, the end of a serializer and reset are blocks
  of the request's serial queue, which do not overlap. Late registrations queue their rounds without
  the queue's order, so more runs are covered than can occur. A retry resets the request only before
  finish() or after a serializer asked for it; the retry delegate, the session, tasks and progress
  are not modelled.
- TaskMap.MapStaysConsistent: runs associate only what is not mapped yet, because assigning over a
  live entry breaks the dictionaries (`AssignmentExact`).
- The application's own Swift classes (Firebase and HTTP calls, UI notifications), the rest of
  Alamofire (sessions, headers, parameter encoding, multipart bodies, retry policies, server trust)
  and of libuv: easy folds, forwarding, or behaviour of code that is not shown.
