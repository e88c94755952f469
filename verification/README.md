# nanopb and Alamofire printers: a verified model

This project models the code that turns structured data into bytes and back in the pods of the Forum17
application, and proves what that code is for.

**nanopb** (`Apps/Forum17/2017/Pods/nanopb`), the protobuf codec, is the core. As the pod is built here
(`Apps/Forum17/2017/Pods/Target Support Files/nanopb/nanopb.xcconfig`, line 2) sizes in descriptors are
32 bits wide, there is no dynamic allocation, and the message for an error is only a text.

- `Bits`, `Wire`: words and the wire format as functions on byte strings.
- `Descriptors`: field descriptors (tag, rule, type, offsets, sizes, default) and the structs they
  describe, one slot per field. Buffers keep the bytes behind those in use, so that what decoding leaves
  in place is part of the model.
- `FieldIterator`: the iterator with its running data pointer, and the layout macros it undoes.
- `DecodeSpec`, `EncodeSpec`: what decoding and encoding compute, as functions.
- `InputStream`, `Decoder`, `OutputStream`, `Encoder`: the C code step by step, with its loops, streams,
  bitmap and two-pass submessages, proved to compute those functions. A stream's contract says what a
  failure leaves behind, too.
- `WireTypes`, `Schemaless`, `Emptiness`, `DefaultValues`, `Overwriting`, `Acceptance`: what those functions
  mean, in terms of bytes and numbers alone.
- `Integers`, `Same`, `RoundTrip`, `Survival`, `Reencode`, `Sent`, `Records`, `Order`, `Packed`,
  `Truncation`, `Evolution`, `Readers`, `Initialisation`, `Delimited`, `OutOfStep`, `Bounds`,
  `RequiredBits`: the other theorems.

**Alamofire** (`Apps/Forum17/2017/Pods/Alamofire/Source`) has two printers. `Mime` and `Multipart` model
multipart form bodies, encoded in memory and through streams with short reads and partial writes, with a
parser after section 5.1.1 of RFC 2046. `UrlQuery` models query strings and reads them back after
sections 2.1 and 3.4 of RFC 3986, and `QueryTree` reads the bracketed keys.

How the parts meet: the methods of `Encoder` and `Decoder` are tied to `EncMessage` and `DecInit` by their
postconditions, and the theorems are about those two functions. `Schemaless` pins down what `EncMessage`
writes, for a reader that shares no code with the model's decoder but the definition of a varint. What a
failed operation leaves behind in the struct is stated in `Acceptance`.

A slot of an unselected union member stands for what the shared bytes read as. Only
`Initialisation` compares such slots, and no theorem rests on what decoding leaves in them.

## What the code does that its documentation does not say

- A packed array that runs full, or whose element is bad with bytes left over, makes `decode_static_field`
  return without closing its substream. The message fails, and the stream it was read from is then behind
  its own byte count: after a failed `pb_decode_delimited` the next frame is not found. `FrameOutOfStep`
  is a five-byte example, `FrameInStep` and `LeftIffBytes` say exactly when it happens, and `NeverLags`
  and `WitnessLags` for which descriptors it can.
- `pb_decode_tag` reports the end of the message also for a tag cut off by the end of the stream, so a
  message cut there is accepted. `TruncationNoticed` and `TruncatedMessage` say that no other cut
  inside a record is accepted, `CutTagExample` is an input, and `TruncatedFrame` says that a cut frame never is.
- `pb_decode_tag` reports the end also for a zero tag word, so a zero byte ends a message (`ZeroWordEnds`,
  `ZeroByteExample`); nothing else leaves bytes unread (`UnreadBehindZero`).
- A skipped varint may have any length, a decoded one at most ten bytes, a tag or length at most five.
- A string that fills its buffer without a terminator is encoded but not accepted back, and a proto3-style
  message is left out when all its data bytes are zero, even if its has_ members, counts or selectors say
  that something is present (`PresentZeroIsLost`). `SurvivesIffCarried` has both in its exact condition.
- `pb_decode` does not initialise array items or union members (`pb_decode.h` says all fields).
  `NothingKept` and `SomethingKept` say for which descriptors that leaves something of the old struct,
  `StaleItemStays` is an input. What is left never belongs to the message (`DefaultsSame`).
- The test that leaves out a proto3-style message also looks at data that is absent, so two structs with the
  same message may encode differently (`AbsentDataIsSeen`). `SameBytes` is the exact condition.
- A stream that reports no space makes Alamofire's write loop stop without an error: `WriteEncodedData` then
  returns normally and only the beginning of the form is written (`NoRoom`, `FilledIsWhole`). Whether a full
  file is such a stream is up to Foundation.
- The query string of no parameters reads back as one empty pair (`QueryRoundTrip`), and a bracket in a name
  can make two trees look alike (`BracketsConfused`). `TreeRoundTrip` says exactly when all is recovered.

## Model

| member | source | states |
|---|---|---|
| RoundTrip.EncodeThenDecode | Apps/Forum17/2017/Pods/nanopb/pb_encode.c:451-473 | For every descriptor tree and every struct that the encoding carries in full (`CarriedMessage`), pb_encode succeeds and pb_decode of its bytes, into any struct, succeeds, leaves no byte and gives the same message; absent optionals, unselected union members and spare array items do not count |
| Survival.SurvivesIffCarried | Apps/Forum17/2017/Pods/nanopb/pb_decode.c:955-967 | A message survives encode-then-decode exactly when, at every depth, the strings it sends are terminated inside their buffers, byte and item counts fit, union selectors are zero or a member tag, and every proto3-style field it leaves out holds its initial value |
| Survival.MessageLost | Apps/Forum17/2017/Pods/nanopb/pb_encode.c:205-265 | A message that is not carried in full is refused, or decodes to another message, whatever struct with nothing present it is decoded into |
| Survival.PresentZeroIsLost | Apps/Forum17/2017/Pods/nanopb/pb_encode.c:225-248 | A concrete loss: a proto3-style message whose one optional number is present and zero is not written at all |
| Reencode.DecodedIsProper | Apps/Forum17/2017/Pods/nanopb/pb_decode.c:1299-1332 | Whatever bytes pb_decode accepts, every string it leaves in use is terminated and every count and selector is in range, at every depth, provided that the initial values proto3-style fields may keep are so |
| Reencode.Reencoding | Apps/Forum17/2017/Pods/nanopb/pb_encode.c:451-473 | Every struct with decoded contents can be encoded, and decoding that encoding gives the same message again, unless a proto3-style field with something in it shows all-zero data (`ShownMessage`) |
| Reencode.PlainMessageShown | Apps/Forum17/2017/Pods/nanopb/pb_encode.c:271-299 | Without proto3-style messages and proto3-style defaults nothing is ever lost by leaving a field out |
| Same.SaneMessageEncodes | Apps/Forum17/2017/Pods/nanopb/pb_encode.c:116-127 | The encoder refuses no struct in which the byte and item counts it sends fit and the strings it sends are terminated, however nested |
| Same.CarriedMessageEncodes | Apps/Forum17/2017/Pods/nanopb/pb_encode.c:116-127 | The encoder refuses no struct that is carried in full, however nested |
| RoundTrip.MessageRoundTrip | Apps/Forum17/2017/Pods/nanopb/pb_decode.c:852-953 | The same round trip for pb_decode_noinit into any struct in which nothing is present; every required field is seen |
| RoundTrip.StringRoundTrip | Apps/Forum17/2017/Pods/nanopb/pb_encode.c:739-763 | A string of any content is accepted back exactly when it is terminated inside its buffer; then it is equal up to the terminator |
| RoundTrip.BytesRoundTrip | Apps/Forum17/2017/Pods/nanopb/pb_encode.c:718-737 | A bytes field comes back with its size and contents, whatever follows it and whatever the buffer held |
| RoundTrip.FixedLengthRoundTrip | Apps/Forum17/2017/Pods/nanopb/pb_decode.c:1358-1379 | A fixed-length bytes field comes back whole, also at length 0 |
| RoundTrip.PackedRoundTrip | Apps/Forum17/2017/Pods/nanopb/pb_decode.c:374-403 | A packed payload fills the array with the same elements in order and is read to its end |
| Same.DefaultsCleared | Apps/Forum17/2017/Pods/nanopb/pb_decode.c:835-846 | pb_message_set_to_defaults leaves nothing present at any depth, whatever the struct held |
| Same.DefaultsSame | Apps/Forum17/2017/Pods/nanopb/pb_decode.c:763-846 | It leaves the same message whatever the struct held |
| Same.ZeroedIsFresh | Apps/Forum17/2017/Pods/nanopb/pb_decode.h:70-72 | Without default values a zeroed struct is what pb_message_set_to_defaults makes of it, so pb_decode_noinit after memset is pb_decode |
| Records.Merging | Apps/Forum17/2017/Pods/nanopb/pb_decode.c:852-953 | Decoding a ++ b, a being complete records, is decoding a and then b into the result, with a required field allowed to come from either |
| Records.MergingPlain | Apps/Forum17/2017/Pods/nanopb/pb_decode.h:74-76 | Without top-level required fields pb_decode_noinit of a ++ b equals pb_decode_noinit of a, then of b into its result, also when a fails |
| Records.MergingParts | Apps/Forum17/2017/Pods/nanopb/pb_decode.c:908-950 | pb_decode_noinit of a, then of b into its result, equals pb_decode_noinit of a ++ b when neither part lacks a required field, and fails when one does |
| Records.NestedMerging | Apps/Forum17/2017/Pods/nanopb/pb_decode.c:1334-1356 | In any message and before anything, two records of one required or optional submessage, with a has_ member or without, decode like one record of the joined payloads when neither payload lacks a required field of the submessage, also when one fails for another reason; when one lacks a field they fail |
| Records.UnionMessageResets | Apps/Forum17/2017/Pods/nanopb/pb_decode.c:415-424 | Of two records of one oneof submessage the first, if it decodes, leaves no trace: decoding both is decoding the second, in any message and before anything |
| Records.UnknownTransparent | Apps/Forum17/2017/Pods/nanopb/pb_decode.c:877-906 | A complete record of a valid wire type with a nonzero unknown tag changes neither success nor the message, wherever it stands between records |
| Records.LoopSplits | Apps/Forum17/2017/Pods/nanopb/pb_decode.c:863-917 | The decoding loop consumes complete records to their last byte and goes on behind them from the state they leave |
| Order.OrderIrrelevant | Apps/Forum17/2017/Pods/nanopb/pb_decode.c:863-917 | Success and the decoded message depend only on the subsequence of records of each field or union: any reordering that keeps those, with unknown records added or dropped, gives the same |
| Order.AdjacentSwap | Apps/Forum17/2017/Pods/nanopb/pb_decode.c:863-917 | Adjacent records of different fields that share no union may be swapped |
| Order.RequiredIsExact | Apps/Forum17/2017/Pods/nanopb/pb_decode.c:908-950 | When every record decodes, pb_decode_noinit returns true exactly when each required field occurred at least once |
| Packed.PackingIrrelevant | Apps/Forum17/2017/Pods/nanopb/pb_decode.c:374-413 | For a repeated packable field any two ways of cutting the same elements into packed records and single tags both succeed with the same array or both fail, also at a full array |
| Packed.WireFormIrrelevant | Apps/Forum17/2017/Pods/nanopb/pb_decode.c:863-917 | For whole messages: success and the decoded message stay the same when records of different fields and unions change order and, at the same time, the elements of any arrays are packed, unpacked or cut into records otherwise |
| Packed.ElementsFit | Apps/Forum17/2017/Pods/nanopb/pb_decode.c:386-397 | Packed decoding never lowers the item count nor takes it beyond array_size |
| Packed.ElementsKeep | Apps/Forum17/2017/Pods/nanopb/pb_decode.c:386-397 | Items that were in the array stay as they are, whether or not the payload is accepted |
| Evolution.EncodedIsComplete | Apps/Forum17/2017/Pods/nanopb/pb_encode.c:271-349 | What pb_encode writes is a string of complete records for every reader that agrees on the fields it knows, so wire types and lengths are right for readers that know none of them |
| Evolution.EncodingsMerge | Apps/Forum17/2017/Pods/nanopb/pb_decode.h:74-76 | Decoding an encoded message with anything behind it is decoding it and then the rest into the result |
| Readers.ReaderShows | Apps/Forum17/2017/Pods/nanopb/pb_decode.c:863-950 | Programs with different descriptors, the reader's older or newer, changed at any depth (`CompatibleAll`, a condition on the descriptors alone), whatever order the fields stand in: for every message the writer can send, pb_decode into any struct succeeds, reads everything and shows in every common field what was sent, an absent or initial value where nothing was sent, and nothing in the fields only the reader has, even where a proto3-style message holds data in unknown fields only |
| Readers.AddingFields | Apps/Forum17/2017/Pods/nanopb/pb_decode.c:877-906 | Adding any fields that are not required, members of existing unions included, leaves both versions able to read each other |
| Readers.ShownIsSame | Apps/Forum17/2017/Pods/nanopb/pb_decode.c:955-967 | With equal descriptors, what the reader shows of a message carried in full is the same message, so that `ReaderShows` contains the round trip |
| Sent.SameBytes | Apps/Forum17/2017/Pods/nanopb/pb_encode.c:271-349 | Two structs encode to the same bytes exactly when they send the same fields with the same contents at every depth; nothing else in memory reaches the output, and the bytes determine all that was sent |
| Sent.SameMessageEncodes | Apps/Forum17/2017/Pods/nanopb/pb_encode.c:271-349 | When every submessage has a flag, a count or a selector, the encoding depends on the message alone, whatever stale bytes the struct holds |
| Sent.AbsentDataIsSeen | Apps/Forum17/2017/Pods/nanopb/pb_encode.c:225-248 | Not so with a proto3-style message: two structs that hold the same message, with a number absent, encode differently because of the data of that number |
| Truncation.TruncationNoticed | Apps/Forum17/2017/Pods/nanopb/pb_decode.c:251-275 | When complete records that decode are followed by the beginning of one more record, the decoding loop succeeds exactly when that beginning holds no whole varint, that is, when the cut is in the tag; then the result is that of the records before it |
| Truncation.TruncatedMessage | Apps/Forum17/2017/Pods/nanopb/pb_decode.c:852-953 | pb_decode_noinit accepts the cut message exactly when the cut is in a tag and every required field came before it |
| Truncation.TruncatedFrame | Apps/Forum17/2017/Pods/nanopb/pb_decode.c:969-982 | A frame that is cut anywhere is never accepted |
| Truncation.CutTagExample | Apps/Forum17/2017/Pods/nanopb/pb_decode.c:258-264 | One record cut in its two-byte tag is accepted, cut behind the tag it is not |
| Truncation.ZeroWordEnds | Apps/Forum17/2017/Pods/nanopb/pb_decode.c:266-270 | Behind complete records a zero tag word ends the message with success, and everything behind it stays unread |
| Truncation.UnreadBehindZero | Apps/Forum17/2017/Pods/nanopb/pb_decode.c:863-876 | Conversely, when the decoding loop succeeds and leaves bytes unread, a zero tag word stands right in front of them |
| Truncation.ZeroByteExample | Apps/Forum17/2017/Pods/nanopb/pb_decode.c:266-270 | A zero byte in front of a record: success with the record unread |
| Initialisation.NothingKept | Apps/Forum17/2017/Pods/nanopb/pb_decode.c:763-846 | Without arrays that have items and without unions, in the message and in the messages initialised with it, pb_message_set_to_defaults leaves the same struct whatever it held |
| Initialisation.SomethingKept | Apps/Forum17/2017/Pods/nanopb/pb_decode.c:789-795 | With any other descriptors, except for fields that have one value only, there are two structs it leaves different |
| Initialisation.StaleItemStays | Apps/Forum17/2017/Pods/nanopb/pb_decode.c:789-795 | A concrete array item that it leaves as it was |
| Schemaless.MessageTells | Apps/Forum17/2017/Pods/nanopb/pb_encode.c:271-349 | For a reader that knows the wire format and no descriptors, what pb_encode writes is a list of records: the fields that are present, in the order of the descriptors, under their tags, numbers in two's complement of 64 bits or in zigzag order, fixed-width numbers least significant byte first, strings up to their terminator, packable arrays in one record, other arrays with one record for each item, messages as their own list of records |
| Overwriting.LastWins | Apps/Forum17/2017/Pods/nanopb/pb_decode.c:356-369 | A record of a required, optional, proto3-style or union field that is no message, in front of anything and into any struct, whatever the field held, leaves its value in the field, the field present and the others as they were |
| Overwriting.SecondWins | Apps/Forum17/2017/Pods/nanopb/pb_decode.c:356-369 | Of two such records in a row the second value stays |
| Overwriting.LastRecordCounts | Apps/Forum17/2017/Pods/nanopb/pb_decode.c:863-917 | In any message that pb_decode_noinit accepts, such a field holds the value of its last record, provided that no later record gives its union to another member |
| Overwriting.LeafOverwrites | Apps/Forum17/2017/Pods/nanopb/pb_decode.c:1165-1379 | Whether bytes are accepted as such a field, what it holds then and how many are taken do not depend on what it held |
| Overwriting.Untouched | Apps/Forum17/2017/Pods/nanopb/pb_decode.c:863-917 | Records of other fields and other unions leave a field and its selector as they are |
| DefaultValues.DefaultsAreSet | Apps/Forum17/2017/Pods/nanopb/pb_decode.c:763-846 | After pb_message_set_to_defaults every field that is no array or union member holds the default value of its descriptor, or the number 0, size 0 and zero bytes when it has none, in all messages inside as well; flags, counts and selectors are cleared |
| DefaultValues.DefaultStays | Apps/Forum17/2017/Pods/nanopb/pb_decode.c:955-967 | After pb_decode of a message without a record of a field or of its union, the field holds that default, and it is absent |
| DefaultValues.UnionMessageStarts | Apps/Forum17/2017/Pods/nanopb/pb_decode.c:415-424 | A message in a union starts from the default values, whatever its memory held |
| DefaultValues.ItemStarts | Apps/Forum17/2017/Pods/nanopb/pb_decode.c:1346-1351 | So does a message that becomes a new array item |
| Emptiness.LeftOutIffBlank | Apps/Forum17/2017/Pods/nanopb/pb_encode.c:203-267 | A proto3-style field is left out exactly when every leaf that a path through messages and first array items reaches is the number 0, has byte count 0, begins with a zero byte (strings) or has fixed length 0 |
| Delimited.FramesRoundTrip | Apps/Forum17/2017/Pods/nanopb/pb_decode.c:969-982 | Any list of pb_encode_delimited messages decodes back to that list by repeated pb_decode_delimited |
| Delimited.FrameRoundTrip | Apps/Forum17/2017/Pods/nanopb/pb_encode.c:475-478 | One frame with anything behind it gives the message back and leaves exactly what stood behind |
| OutOfStep.FrameInStep | Apps/Forum17/2017/Pods/nanopb/pb_decode.c:337-350 | After a frame whose body fails, the parent stands at the end of the frame exactly when no packed payload, behind records that decode, is refused by the byte-level predicate `ReadsAll` |
| OutOfStep.LeftIffBytes | Apps/Forum17/2017/Pods/nanopb/pb_decode.c:382-400 | The packed loop uses up its payload exactly when it is at most as many fine elements as the array has room for, or fewer and then one bad number that is cut off within ten bytes or out of range and ends the payload |
| OutOfStep.NeverLags | Apps/Forum17/2017/Pods/nanopb/pb_decode.c:374-403 | Descriptors without a packable array that decoding can reach, at any depth, never leave a parent out of step |
| OutOfStep.WitnessLags | Apps/Forum17/2017/Pods/nanopb/pb_decode.c:374-403 | For all other descriptors, as far as the frame built for them is shorter than 2^32 bytes, that frame does, whatever the struct held |
| OutOfStep.FrameOutOfStep | Apps/Forum17/2017/Pods/nanopb/pb_decode.c:374-403 | A concrete frame, two packed elements for an array of one, that fails and leaves the parent two bytes short of the frame end |
| Bounds.MessageBounded | Apps/Forum17/2017/Pods/nanopb/pb_decode.c:404-413 | Decoding arbitrary bytes into a bounded struct keeps every top-level count within array_size and every selector zero or a member tag on any outcome, and those of every level on success |
| Bounds.DecodeBounded | Apps/Forum17/2017/Pods/nanopb/pb_decode.c:955-967 | The same for pb_decode, whatever the struct held before |
| RequiredBits.MarkTracks | Apps/Forum17/2017/Pods/nanopb/pb_decode.c:908-913 | Setting bit index & 31 of word index >> 5 keeps the bitmap equal to the set of required fields seen |
| RequiredBits.CheckIsExact | Apps/Forum17/2017/Pods/nanopb/pb_decode.c:935-949 | The comparison of whole words and of the shifted mask passes exactly when every required field has been seen, for counts that are 0, or below 64 and no multiple of 32 |
| Wire.VarintRoundTrip | Apps/Forum17/2017/Pods/nanopb/pb_encode.c:494-514 | Every 64-bit value survives encoding and decoding with anything behind it; the encoding fits ten bytes |
| Wire.VarintShortest | Apps/Forum17/2017/Pods/nanopb/pb_decode.c:209-229 | No byte string shorter than the encoding decodes to the value |
| Wire.VarintDigits | Apps/Forum17/2017/Pods/nanopb/pb_encode.c:494-514 | Byte k of an encoded varint holds the seven bits of weight 2^(7 k), with the high bit set exactly on all but the last |
| Wire.VarintAccepts | Apps/Forum17/2017/Pods/nanopb/pb_decode.c:173-229 | The 64-bit decoder takes a varint of at most ten bytes, the 32-bit one of at most five, each modulo its word; what is left on failure |
| Wire.Varint32Agrees | Apps/Forum17/2017/Pods/nanopb/pb_decode.c:173-206 | pb_decode_varint32 accepts exactly the varints of at most five bytes; there pb_decode_varint consumes the same bytes and agrees modulo 2^32 |
| Wire.Varint32RoundTrip | Apps/Forum17/2017/Pods/nanopb/pb_decode.c:173-206 | Every 32-bit value survives in at most five bytes |
| Wire.FixedRoundTrip | Apps/Forum17/2017/Pods/nanopb/pb_encode.c:527-549 | Little-endian words of any width survive |
| Wire.ZigZagInverse | Apps/Forum17/2017/Pods/nanopb/pb_decode.c:1118-1130 | Zigzag numbering of the integers is a bijection, in both directions |
| Wire.TagRoundTrip | Apps/Forum17/2017/Pods/nanopb/pb_encode.c:553-557 | A tag of a valid wire type and a number below 2^29 survives |
| Wire.PieceRoundTrip | Apps/Forum17/2017/Pods/nanopb/pb_encode.c:592-598 | A length-delimited piece below 2^32 bytes survives with anything behind it |
| Wire.SkipExtend | Apps/Forum17/2017/Pods/nanopb/pb_decode.c:277-287 | Skipping a field looks at nothing behind that field |
| WireTypes.FieldTagNumber | Apps/Forum17/2017/Pods/nanopb/pb_encode.c:559-588 | The number in front of a field is 8 times its tag plus 0 for varints, 1 for eight-byte, 2 for length-delimited and 5 for four-byte types |
| WireTypes.TagOfWord | Apps/Forum17/2017/Pods/nanopb/pb.h:312-315 | Reading a tag word w gives the field number w / 8 and the wire type with the number w modulo 8, where 0, 1, 2 and 5 are varint, 64-bit, string and 32-bit |
| WireTypes.UnknownByCode | Apps/Forum17/2017/Pods/nanopb/pb_decode.c:277-287 | Behind a tag word of an unknown field that ends in 0, 1, 2 or 5, one varint, eight bytes, a length and so many bytes, or four bytes are dropped and nothing changes; with 3, 4, 6 or 7, or too few bytes, decoding fails |
| WireTypes.UnreadableTag | Apps/Forum17/2017/Pods/nanopb/pb_decode.c:258-264 | A tag of more than five bytes, or with no last byte, ends the message when no byte stands behind the first five, and fails otherwise |
| WireTypes.NumberZeroFails | Apps/Forum17/2017/Pods/nanopb/pb_decode.c:877-906 | Without descriptors the field number 0 is taken for the terminator of the list, and fails |
| WireTypes.PackedTagNumber | Apps/Forum17/2017/Pods/nanopb/pb_encode.c:129-171 | The number in front of a packed array is 8 times its tag plus 2 |
| Integers.IntRoundTrip | Apps/Forum17/2017/Pods/nanopb/pb_encode.c:652-704 | Integers of 1, 2, 4 and 8 bytes, sign-extended, unsigned and zigzag, survive for every value, the least included |
| Integers.IntAccepts | Apps/Forum17/2017/Pods/nanopb/pb_decode.c:1165-1248 | Which varints each integer decoder accepts: unsigned exactly those below 2^(8 width), zigzag exactly those whose unzigzagged value fits, two's complement below four bytes exactly those whose low 32 bits fit; the value stored |
| Integers.SignedStored | Apps/Forum17/2017/Pods/nanopb/pb_decode.c:1165-1248 | Accepted or not, the number stored in a signed field is in range and congruent modulo 2^(8 width) to the varint, or to the number it stands for in zigzag order |
| Integers.SignedCast | Apps/Forum17/2017/Pods/nanopb/pb_decode.c:1184-1198 | The cast to a signed width is the identity exactly on the numbers of that width |
| FieldIterator.FieldIter.Begin | Apps/Forum17/2017/Pods/nanopb/pb_common.c:8-18 | Points at the first field; true when there is one |
| FieldIterator.FieldIter.Next | Apps/Forum17/2017/Pods/nanopb/pb_common.c:20-76 | Advances by one field or wraps, keeping pData, pSize and required_field_index those of the field it stands on (the class invariant) |
| FieldIterator.FieldIter.Find | Apps/Forum17/2017/Pods/nanopb/pb_common.c:78-95 | Terminates within a lap; succeeds exactly when a non-extension field has the tag, and otherwise returns to where it started |
| FieldIterator.FieldIter.FindExtension | Apps/Forum17/2017/Pods/nanopb/pb_decode.c:749-760 | Finds the extension placeholder when there is one, within a lap |
| FieldIterator.IteratorFindsMember | Apps/Forum17/2017/Pods/nanopb/pb.h:391-405 | The running sum of sizes and deltas undoes the layout macros: pData is the struct base plus the true member offset, through arrays, pointers and unions |
| FieldIterator.IteratorFindsSizeMember | Apps/Forum17/2017/Pods/nanopb/pb.h:407-428 | pSize is the base plus the offset of the has_, _count or which_ member, or of the member itself when it has none |
| FieldIterator.UnionSharesPointers | Apps/Forum17/2017/Pods/nanopb/pb_common.c:43-49 | All members of a union share one data pointer and one selector |
| FieldIterator.MembersApart | Apps/Forum17/2017/Pods/nanopb/pb.h:383-399 | The memory of two fields of different unions does not overlap |
| InputStream.IStream.Read | Apps/Forum17/2017/Pods/nanopb/pb_decode.c:91-125 | Takes exactly count bytes when so many are left, otherwise fails without moving |
| InputStream.IStream.DecodeVarint | Apps/Forum17/2017/Pods/nanopb/pb_decode.c:209-229 | The shift-and-or loop computes the base-128 sum modulo 2^64, and fails at the end or beyond ten bytes |
| InputStream.IStream.DecodeVarint32 | Apps/Forum17/2017/Pods/nanopb/pb_decode.c:173-206 | The same for five bytes and 2^32; says which bytes are left on failure |
| InputStream.IStream.DecodeSvarint | Apps/Forum17/2017/Pods/nanopb/pb_decode.c:1118-1130 | The unzigzagged varint |
| InputStream.IStream.DecodeFixed32 | Apps/Forum17/2017/Pods/nanopb/pb_decode.c:1132-1144 | The little-endian word of the next four bytes |
| InputStream.IStream.DecodeFixed64 | Apps/Forum17/2017/Pods/nanopb/pb_decode.c:1146-1163 | The little-endian word of the next eight bytes |
| InputStream.IStream.DecodeTag | Apps/Forum17/2017/Pods/nanopb/pb_decode.c:251-275 | Tag and wire type; a tag that cannot be read with no byte left, and a zero tag word, count as the end |
| InputStream.IStream.SkipField | Apps/Forum17/2017/Pods/nanopb/pb_decode.c:231-287 | Consumes exactly the payload of the wire type, or fails |
| InputStream.IStream.MakeSubstream | Apps/Forum17/2017/Pods/nanopb/pb_decode.c:322-335 | A substream of exactly the announced length, the parent counting only what stands behind it |
| InputStream.IStream.CloseSubstream | Apps/Forum17/2017/Pods/nanopb/pb_decode.c:337-350 | The parent takes over the position of the substream, skipping what it left |
| Decoder.DecVarintField | Apps/Forum17/2017/Pods/nanopb/pb_decode.c:1165-1200 | Stores the clamped value; accepts exactly when the cast loses nothing |
| Decoder.DecUvarintField | Apps/Forum17/2017/Pods/nanopb/pb_decode.c:1202-1224 | The same, unsigned |
| Decoder.DecSvarintField | Apps/Forum17/2017/Pods/nanopb/pb_decode.c:1226-1248 | The same, zigzag |
| Decoder.DecBytesField | Apps/Forum17/2017/Pods/nanopb/pb_decode.c:1262-1297 | Size and contents, the rest of the buffer kept; refuses what does not fit |
| Decoder.DecStringField | Apps/Forum17/2017/Pods/nanopb/pb_decode.c:1299-1332 | Contents and terminator; refuses what does not fit with its terminator |
| Decoder.DecFixedLengthField | Apps/Forum17/2017/Pods/nanopb/pb_decode.c:1358-1379 | Exactly data_size bytes, or zeros for length 0 |
| Decoder.SetToDefaults | Apps/Forum17/2017/Pods/nanopb/pb_decode.c:763-846 | The iterator loop gives every field its default, clears has, counts and selectors, and leaves array items and union members |
| Decoder.DecodeElements | Apps/Forum17/2017/Pods/nanopb/pb_decode.c:382-397 | The packed loop: elements decoded in order until the end, a full array or a bad element |
| Decoder.DecodePacked | Apps/Forum17/2017/Pods/nanopb/pb_decode.c:374-403 | The packed branch of decode_static_field, with its two early returns |
| Decoder.DecodeSlot | Apps/Forum17/2017/Pods/nanopb/pb_decode.c:356-429 | decode_static_field for all four field rules, including what a failure leaves behind |
| Decoder.DecodeSubmessage | Apps/Forum17/2017/Pods/nanopb/pb_decode.c:1334-1356 | Decodes inside the substream, array entries from defaults, others merging |
| Decoder.CheckRequired | Apps/Forum17/2017/Pods/nanopb/pb_decode.c:915-950 | Walks the iterator to the end, with the last-field fix-up, and compares the bitmap for exactly the number of required fields |
| Decoder.FindAndMark | Apps/Forum17/2017/Pods/nanopb/pb_decode.c:877-913 | Finds the field of a tag wherever the iterator stands and marks it when required |
| Decoder.DecodeRecord | Apps/Forum17/2017/Pods/nanopb/pb_decode.c:863-917 | One turn of the loop: end, unknown field, empty descriptor list or field |
| Decoder.DecodeNoinit | Apps/Forum17/2017/Pods/nanopb/pb_decode.c:852-953 | The whole loop and the final check; terminates because every turn and every nesting level consumes bytes, and reads inside the buffer only |
| Decoder.Decode | Apps/Forum17/2017/Pods/nanopb/pb_decode.c:955-967 | Defaults first, then the same |
| Decoder.DecodeDelimited | Apps/Forum17/2017/Pods/nanopb/pb_decode.c:969-982 | Decodes one frame; the byte count then is what stood behind the frame on every outcome, and on success so is the position |
| Acceptance.BytesAccept | Apps/Forum17/2017/Pods/nanopb/pb_decode.c:1262-1297 | A bytes field accepts a payload exactly when it fits behind a header of four bytes, and stores it, keeping what stands behind it in the buffer |
| Acceptance.StringAccept | Apps/Forum17/2017/Pods/nanopb/pb_decode.c:1299-1332 | A string field accepts a payload exactly when there is room for a terminator, and stores both |
| Acceptance.FixedLengthAccept | Apps/Forum17/2017/Pods/nanopb/pb_decode.c:1358-1379 | A fixed-length field accepts a payload of its length, or none at all, which is read as zeros, and nothing else |
| Acceptance.CutPayload | Apps/Forum17/2017/Pods/nanopb/pb_decode.c:1295-1331 | Of a payload that is cut short, a bytes field keeps the announced size and a string gets its terminator where it would have stood |
| Acceptance.IntOverflows | Apps/Forum17/2017/Pods/nanopb/pb_decode.c:1202-1224 | An unsigned number too big for its field is refused, and stored modulo 2^(8 width) |
| Acceptance.CodeIgnored | Apps/Forum17/2017/Pods/nanopb/pb_decode.c:356-413 | Except for packed arrays, the wire type of a record does not matter to the field it is for |
| Acceptance.FullArrayFails | Apps/Forum17/2017/Pods/nanopb/pb_decode.c:404-413 | A record for an array that is full fails and leaves all fields as they were |
| Acceptance.FailureMarks | Apps/Forum17/2017/Pods/nanopb/pb_decode.c:365-417 | A record that fails leaves its flag or selector set, its item counted and its required field marked, and the other fields as they were |
| OutputStream.SizingPredictsWriting | Apps/Forum17/2017/Pods/nanopb/pb_encode.c:480-489 | A writing pass succeeds exactly when the sizing pass did with n and bytes_written + n <= max_size; it then appends exactly those n bytes and changes no other |
| OutputStream.DidBoth | Apps/Forum17/2017/Pods/nanopb/pb_encode.c:91-109 | Two parts written one after the other are one part, with one capacity check and the same bytes |
| OutputStream.FillVarint | Apps/Forum17/2017/Pods/nanopb/pb_encode.c:502-513 | The loop over the ten-byte buffer yields the varint encoding |
| OutputStream.OStream.Write | Apps/Forum17/2017/Pods/nanopb/pb_encode.c:62-109 | Fails exactly when there is no room; otherwise appends exactly the bytes, or counts them when sizing |
| OutputStream.OStream.EncodeVarint | Apps/Forum17/2017/Pods/nanopb/pb_encode.c:494-514 | Appends the varint encoding of any 64-bit value or fails for lack of room |
| OutputStream.OStream.EncodeSvarint | Apps/Forum17/2017/Pods/nanopb/pb_encode.c:516-525 | Appends the varint of the zigzag number, by shift and complement |
| OutputStream.OStream.EncodeFixed32 | Apps/Forum17/2017/Pods/nanopb/pb_encode.c:527-536 | Appends the four bytes, least significant first |
| OutputStream.OStream.EncodeFixed64 | Apps/Forum17/2017/Pods/nanopb/pb_encode.c:538-551 | Appends the eight bytes, least significant first |
| OutputStream.OStream.EncodeTag | Apps/Forum17/2017/Pods/nanopb/pb_encode.c:553-557 | Appends the tag word |
| OutputStream.OStream.EncodeString | Apps/Forum17/2017/Pods/nanopb/pb_encode.c:592-598 | Appends length and bytes |
| Encoder.StringLength | Apps/Forum17/2017/Pods/nanopb/pb_encode.c:746-760 | The scan stops at the terminator or at the end of the buffer |
| Encoder.EncodeIntField | Apps/Forum17/2017/Pods/nanopb/pb_encode.c:652-704 | Appends the encoding of an integer field of any width and kind |
| Encoder.CheckProto3Default | Apps/Forum17/2017/Pods/nanopb/pb_encode.c:203-267 | The test of a proto3 field, with its recursion over all fields of a message and its loop over the bytes of a number, holds exactly when every leaf reached through messages and first array items is blank |
| Encoder.ZeroMemory | Apps/Forum17/2017/Pods/nanopb/pb_encode.c:250-266 | The bytes of a number of any width and signedness are all zero exactly when the number is |
| Encoder.PackedSize | Apps/Forum17/2017/Pods/nanopb/pb_encode.c:138-157 | The precomputed size is the size of the packed payload |
| Encoder.EncodePacked | Apps/Forum17/2017/Pods/nanopb/pb_encode.c:129-171 | Tag, length and payload of a packed array, or the count when sizing |
| Encoder.EncodeArray | Apps/Forum17/2017/Pods/nanopb/pb_encode.c:116-201 | Nothing for an empty array, refusal beyond array_size, otherwise packed or one record per item |
| Encoder.EncodeField | Apps/Forum17/2017/Pods/nanopb/pb_encode.c:271-349 | encode_basic_field for all four field rules |
| Encoder.EncodeSubmessage | Apps/Forum17/2017/Pods/nanopb/pb_encode.c:600-648 | Sizing pass, length and writing pass append the framed encoding; "submsg size changed" is unreachable at every depth |
| Encoder.Encode | Apps/Forum17/2017/Pods/nanopb/pb_encode.c:451-473 | Succeeds exactly when the message has an encoding and there is room for all of it, and then appends exactly that; a failure touches nothing before the start or beyond the limit |
| Encoder.GetEncodedSize | Apps/Forum17/2017/Pods/nanopb/pb_encode.c:480-489 | The exact size, or failure when the message has no encoding |
| Mime.BodyRoundTrip | Apps/Forum17/2017/Pods/Alamofire/Source/MultipartFormData.swift:62-75 | A parser after section 5.1.1 of RFC 2046 recovers the contents of the parts in order exactly when none of them contains CRLF "--" boundary |
| Mime.PartsRoundTrip | Apps/Forum17/2017/Pods/Alamofire/Source/MultipartFormData.swift:402-430 | With clean headers it recovers the headers and bodies of all parts in order |
| Mime.NoStraddling | Apps/Forum17/2017/Pods/Alamofire/Source/MultipartFormData.swift:62-75 | The delimiter cannot begin inside a part and end in the real delimiter behind it |
| Mime.RandomBoundaryIsLegal | Apps/Forum17/2017/Pods/Alamofire/Source/MultipartFormData.swift:58-60 | Every generated boundary is one RFC 2046 allows and contains no line end |
| Mime.BoundariesDiffer | Apps/Forum17/2017/Pods/Alamofire/Source/MultipartFormData.swift:58-60 | Different random words give different boundaries |
| Mime.BodyIsText | Apps/Forum17/2017/Pods/Alamofire/Source/MultipartFormData.swift:402-430 | The body is the text of RFC 2046 line by line, with the characters written out: for each part the boundary line, "name: value" lines, an empty line, the contents and a line end, and the closing boundary line after the last |
| Mime.ContentRoundTrip | Apps/Forum17/2017/Pods/Alamofire/Source/MultipartFormData.swift:421-430 | Header lines and body come apart again |
| Multipart.EncodeBodyStream | Apps/Forum17/2017/Pods/Alamofire/Source/MultipartFormData.swift:432-455 | All bytes of the stream in order for every pattern of short reads |
| Multipart.WriteBuffer | Apps/Forum17/2017/Pods/Alamofire/Source/MultipartFormData.swift:517-533 | Without a stream error the loop over partial writes returns normally, having written as much of the buffer as the stream has space for |
| Multipart.FilledIsWhole | Apps/Forum17/2017/Pods/Alamofire/Source/MultipartFormData.swift:517-533 | That is the whole buffer exactly when it fits |
| Multipart.NoRoom | Apps/Forum17/2017/Pods/Alamofire/Source/MultipartFormData.swift:374-398 | Where the stream has no room, what `WriteEncodedData` writes of a form that is not empty is nothing, and nothing is no form |
| Multipart.WriteBodyStream | Apps/Forum17/2017/Pods/Alamofire/Source/MultipartFormData.swift:476-500 | Reading and writing in pieces of any sizes copies the stream, as far as the stream has space |
| Multipart.MultipartFormData.SetBodyPartError | Apps/Forum17/2017/Pods/Alamofire/Source/MultipartFormData.swift:576-579 | The first error stays |
| Multipart.MultipartFormData.AppendFile | Apps/Forum17/2017/Pods/Alamofire/Source/MultipartFormData.swift:225-293 | A failed check records that check's error, unless one is recorded already, and adds no part; a file that passes becomes the last part |
| Multipart.MultipartFormData.Encode | Apps/Forum17/2017/Pods/Alamofire/Source/MultipartFormData.swift:348-364 | The boundaries, headers and bodies of all parts, with the flags that were set and the first and last part marked; with a recorded error it fails and touches nothing |
| Multipart.MultipartFormData.WriteEncodedData | Apps/Forum17/2017/Pods/Alamofire/Source/MultipartFormData.swift:374-398 | With good input streams and no output error, exactly the bytes of encode(), for every pattern of reads and writes, cut off where the stream has no more space, and no error then, nothing at all where it had none; with a recorded error it fails and touches nothing |
| Multipart.MultipartFormData.EncodePart | Apps/Forum17/2017/Pods/Alamofire/Source/MultipartFormData.swift:402-419 | Initial or encapsulated boundary, headers, body and, when flagged, the final boundary |
| Multipart.FirstEncoding | Apps/Forum17/2017/Pods/Alamofire/Source/MultipartFormData.swift:348-364 | The result of a first encode, or writeEncodedData, parses back to the parts |
| Multipart.FlagsAdded | Apps/Forum17/2017/Pods/Alamofire/Source/MultipartFormData.swift:348-354 | The first part gets the initial and the last part the final boundary, and flags set by an earlier encode stay set |
| UrlQuery.Escape | Apps/Forum17/2017/Pods/Alamofire/Source/ParameterEncoding.swift:195-235 | Escaping in batches of 50 characters equals escaping the whole string |
| UrlQuery.Utf8One | Apps/Forum17/2017/Pods/Alamofire/Source/ParameterEncoding.swift:195-235 | A text of one character is the bytes of that character |
| UrlQuery.Utf8Concat | Apps/Forum17/2017/Pods/Alamofire/Source/ParameterEncoding.swift:195-235 | Joined texts are the joined bytes |
| UrlQuery.PercentRoundTrip | Apps/Forum17/2017/Pods/Alamofire/Source/ParameterEncoding.swift:195-235 | Percent decoding after section 2.1 of RFC 3986 inverts escaping on every byte string |
| UrlQuery.EncodedIsLegal | Apps/Forum17/2017/Pods/Alamofire/Source/ParameterEncoding.swift:180-199 | Escaped text holds no delimiter, "&" and "=" among them, and nothing but characters a query may hold and escapes |
| UrlQuery.AllowedIsUndelimited | Apps/Forum17/2017/Pods/Alamofire/Source/ParameterEncoding.swift:196-200 | What stays unescaped is what section 3.4 of RFC 3986 allows in a query, less the delimiters listed in the source |
| UrlQuery.ByteEncoding | Apps/Forum17/2017/Pods/Alamofire/Source/ParameterEncoding.swift:195-235 | Such a byte stays, every other one becomes "%" and two upper-case hexadecimal digits |
| UrlQuery.QueryComponents | Apps/Forum17/2017/Pods/Alamofire/Source/ParameterEncoding.swift:155-179 | The recursion appends exactly the escaped flattened list, in order |
| UrlQuery.Query | Apps/Forum17/2017/Pods/Alamofire/Source/ParameterEncoding.swift:237-249 | The joined escaped pairs of all parameters, in the order of their sorted keys |
| UrlQuery.SortedKeys | Apps/Forum17/2017/Pods/Alamofire/Source/ParameterEncoding.swift:240 | All the keys, each once, sorted |
| UrlQuery.ListsUnique | Apps/Forum17/2017/Pods/Alamofire/Source/ParameterEncoding.swift:240 | For a given order there is only one such list |
| UrlQuery.QueryRoundTrip | Apps/Forum17/2017/Pods/Alamofire/Source/ParameterEncoding.swift:237-249 | Splitting on "&", then on "=", and decoding recovers the flattened list in order, exactly when it is not empty |
| UrlQuery.QueryInjective | Apps/Forum17/2017/Pods/Alamofire/Source/ParameterEncoding.swift:237-249 | Different flattened lists never give the same query string |
| QueryTree.FlatNames | Apps/Forum17/2017/Pods/Alamofire/Source/ParameterEncoding.swift:155-179 | The flattened list has one pair for each leaf of the tree, in order: its key is the root followed by the name of every dictionary entry, or nothing for an array, on the way down in brackets, and its value the text of the leaf, with 1 and 0 for booleans |
| QueryTree.TreeRoundTrip | Apps/Forum17/2017/Pods/Alamofire/Source/ParameterEncoding.swift:237-249 | A reader that splits, decodes and follows the brackets recovers from the query string all leaves of all parameters, with their names and texts and in order, exactly when there is one, no root holds "[" and no name inside brackets holds "]" |
| QueryTree.BracketsConfused | Apps/Forum17/2017/Pods/Alamofire/Source/ParameterEncoding.swift:158-163 | The parameter a[b] gives the same pairs as the entry b of a dictionary a |

## Left out

- Callback fields and custom stream callbacks: user code, on which the progress of the decoding loop would depend.
- Pointer fields, allocation and `pb_release`: not compiled in this build. The iterator does cover pointer fields.
- Extension fields: linked lists with decoders of their own. Descriptors here contain no placeholder, and the decoder is proved never to find one.
- Error texts and the difference between error causes; floats are four or eight bytes.
- Memory: a struct is a value with one slot per field. `IteratorFindsMember` and `MembersApart` say why the iterator's pointers pick out these slots; that writing one union member changes what the others read as is not modelled. Only the emptiness test of proto3-style messages looks at members that are not selected.
- The emptiness test of a proto3-style message on a repeated field whose array has no items at all: C would read behind the member; here there is nothing to look at.
- Required counts that are positive multiples of 32 or above 63: the final shift or the word index is then outside what C defines. `BitmapCovers` states the bound.
- Descriptors no generator writes (an integer of another width than 1, 2, 4 or 8, a bytes field smaller than its header, a submessage without descriptors, a default value that does not fit its field): `TypeOk` and `FieldOk` exclude them, with the errors they would cause. The integer decoders are modelled for every width.
- RoundTrip.EncodeThenDecode: requires `FitsMessage`, that every nested message and packed array encodes to fewer than 2^32 bytes, because the decoder reads lengths into 32 bits.
- Survival.SurvivesIffCarried: requires `FitsMessage` for the same reason.
- Reencode.DecodedIsProper: requires `KeptInitialsOk`, that a proto3-style field has no unterminated or oversized default value, because such a field may keep it without ever being received. Without such defaults it always holds.
- Readers.ReaderShows: requires `SaneMessage` and `FitsMessage`, that the data the writer sends is sane and its nested messages and packed arrays encode to fewer than 2^32 bytes. A common field may grow but not shrink or change its type; fields that go together on the wire only by their wire type are not covered.
- Sent.SameBytes: requires the same of both structs.
- OutOfStep.WitnessLags: requires the frame it builds, a few bytes for each level of nesting, to be shorter than 2^32 bytes; deeper descriptor trees are not covered.
- Truncation.TruncationNoticed: the records before the cut must decode; where they fail, the message fails by `LoopSplits`.
- Delimited.FramesRoundTrip: each message must encode to fewer than 2^32 bytes.
- Encoder.Encode: requires `SizedMessage`, that nothing it sends encodes to 2^64 bytes or more. Sizes and positions of streams are otherwise unbounded integers, so that wrap-around of size_t at 2^64 is not modelled.
- Records.NestedMerging: the first payload must be complete records; what stands behind a zero tag word or a cut tag is not merged.
- Multipart: what the file checks look at (their outcome is a parameter), MIME types, opening and closing streams, and the random words of the boundary (parameters). Headers are byte strings in the order in which the dictionary yields them.
- Multipart: a second encode after further appends. The final flag of the old last part stays set; `Encode` says what is written then, and `FirstEncoding` is about the first one.
- Multipart.MultipartFormData.Append: each part has an input stream of its own; sharing one between parts is excluded.
- Multipart.MultipartFormData.WriteEncodedData: says nothing about what is written when a stream fails.
- UrlQuery: the entries of a nested dictionary come in the order in which Swift yields them, and Swift's order of strings is a parameter; the text of numbers and other objects comes with the value. Swift's joining of characters across concatenated strings is not modelled, and neither is a string that has no UTF-8 form.
- The rest of Alamofire (sessions, requests, trust, validation), the view controllers and network clients of the two applications, and the header-only pods: plumbing over system frameworks.
