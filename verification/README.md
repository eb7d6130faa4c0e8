# FoodHub: models of the code it is built with

FoodHub is a food-ordering app for iOS. The code compiled into it that does most of the work is
vendored, and this project models the four parts of it that other behaviour depends on, and
proves what they keep:

1. **nanopb**, the Protocol Buffers encoder and decoder in C. A descriptor list is a
   sequence of `Field` records and a message structure is a sequence of `Slot` values. What
   `pb_encode` writes and what `pb_decode` reads are defined as functions on byte strings
   (`EncodeSpec`, `DecodeSpec`). The C functions are methods over mutable streams, iterators and
   bitmaps (`InputStream`, `OutputStream`, `FieldIteration`, `Encoder`, `Decoder`,
   `RequiredFields`, `PointerArray`), each proved to do what those functions say. The theorems about
   whole messages (`RoundTrip`, `Merge`, `Packed`, `Presence`), about what arbitrary bytes can do
   (`Storage`, `Resending`), about what they leave alone and what was not sent (`Keeping`,
   `Defaults`), about submessages (`Submessages`), about the bytes themselves (`Format`) and about
   the two varint readers (`Readers`) are about the functions.
2. **Alamofire's AuthenticationInterceptor**: the sections that hold the lock are methods of a
   class (`AuthenticationInterception`), proved against step functions; `InterceptorRuns` puts
   them among calls on other threads, the interceptor's queue and the authenticator, and proves
   what holds in every interleaving. `InterceptorWindow` proves when a refresh is begun and how its
   answer is passed on, `InterceptorOutcomes` why completions are told what
   they are told, `InterceptorCredentials` which credential is refreshed, and
   `InterceptorProgress` that the interceptor comes to rest.
3. **Alamofire's MultipartFormData**: the format and a reader for it after section 5.1.1 of RFC 2046
   (`Multipart`), and the in-memory and the streaming encoder over streams that cut data up as
   they like (`MultipartStreams`).
4. **Alamofire's Request**: its state and its response serializers (`RequestPipeline`), again a
   class proved against step functions, and runs of those steps (`RequestRuns`).

The build configuration modelled is the one in the project's Pods: `PB_FIELD_32BIT`,
`PB_ENABLE_MALLOC`, `PB_NO_PACKED_STRUCTS`, a 64-bit `size_t` and 64-bit integers.

`dafny verify dfyconfig.toml` checks everything.

## Where the code and its promises part

- `pb_encode` sends a string that fills its whole array; `pb_decode` refuses it
  (`RoundTrip.FullStringIsLost`). `RoundTrip.DecodeEncode` says exactly which messages come
  back.
- `pb_decode.h` offers `pb_decode_noinit` for merging messages. Concatenated input is merged
  likewise, except when the second part begins with the fixed-count array that the first one
  ended with: the array is then over-full, and decoding fails. `Merge.Concatenation` is the exact
  statement and `Merge.FixedCountIsOverfull` the smallest case.
- `pb_decode_varint32` also accepts ten-byte encodings that are not sign-extended 32-bit
  integers: any in which bit 31 is set and each of the groups 5 to 8 is all zeros or all ones
  (`WireProofs.Varint32OfEncoding`, and one of them in `WireProofs.AcceptedThoughNoInt32`).
- `pb_decode_varint32` has no limit on the number of bytes either: it accepts a zero of any
  length, where the 64-bit reader stops at ten (`Readers.PaddedZero`). On ten bytes or fewer it
  accepts nothing that the 64-bit reader reads otherwise (`Readers.ReadersAgree`).
- Only the first 64 required fields are checked (`Presence.FailsIffRequiredMissing`, and
  `Presence.LastIsNotChecked` for a message of 65).
- `AuthenticationInterceptor.retry` reads the credential outside the lock, so a refresh can be
  repeated with a credential that has already been replaced
  (`InterceptorCredentials.RefreshCanBeRepeated`). It can happen exactly while a call of retry
  holds a replaced credential (`InterceptorCredentials.StaleIffHeld` and `StaleRefreshIff`), and
  never happens if none is replaced while it is held (`RefreshesAreCurrent`).
- `writeEncodedData` does not look at `bodyContentLength`, and returns normally with the file
  cut short when the output stream runs out of space without an error
  (`MultipartStreams.WritingSucceedsIff`).
- A form that is encoded again after more parts were appended never gives the multipart format
  (`MultipartStreams.SecondEncodeIsNotFormat`); `EncodeIsFormat` says exactly when a form does.
- A response serializer appended while the serializers are being cleared is dropped
  (`RequestRuns.AppendWhileClearingIsLost`), and of two appended after a request has finished
  the first can run twice (`RequestRuns.AppendCanRunTwice`). `RequestRuns.CareIsNecessary` gives
  the exact conditions for an append and for a finish.

## Model

| member | source | states |
|---|---|---|
| RoundTrip.DecodeEncode | FoodHub/Pods/nanopb/pb_decode.c:928-1090 | for every descriptor list and every message the encoder accepts, decoding the encoding returns the message up to storage that is not part of it, with nothing left over, if every string has its terminator within its array and every length prefix is below 2^32; and fails otherwise |
| RoundTrip.SameBytesSameMessage | FoodHub/Pods/nanopb/pb_encode.c:528-550 | messages that meet the conditions of the format and have the same encoding are the same up to storage that is not part of them |
| RoundTrip.FullStringIsLost | FoodHub/Pods/nanopb/pb_encode.c:875-899 | a message the encoder accepts and the decoder refuses: a one-character string in a one-character array |
| Inverse.MessageInverts | FoodHub/Pods/nanopb/pb_encode.c:528-550 | a message that meets the conditions of the format is decoded, at every depth, from what was encoded |
| Inverse.FieldInverts | FoodHub/Pods/nanopb/pb_encode.c:341-428 | wherever the decoder's loop stands before field i, it reads back what was sent for that field and arrives at field i+1 |
| Inverse.TagInverts | FoodHub/Pods/nanopb/pb_encode.c:669-673 | a field header is read back, and what follows it is untouched |
| Inverse.DelimitedInverts | FoodHub/Pods/nanopb/pb_encode.c:709-715 | a length-prefixed byte string is read back, and what follows it is untouched |
| Merge.Concatenation | FoodHub/Pods/nanopb/pb_decode.c:928-1076 | when decoding A and then B into the result both succeed, decoding A followed by B gives the same result, or fails exactly if B begins with the fixed-count array that A ended with |
| Merge.ConcatenationWithCounts | FoodHub/Pods/nanopb/pb_decode.h:70-80 | without fixed-count arrays, decoding A followed by B is decoding one after the other |
| Merge.ConcatenationAfterZero | FoodHub/Pods/nanopb/pb_decode.c:946-958 | when a zero tag ends A, nothing of B is read |
| Merge.LoopAppends | FoodHub/Pods/nanopb/pb_decode.c:946-1024 | the loop over A followed by B goes on with B from the state it reached at the end of A |
| Merge.UnknownFieldIsInvisible | FoodHub/Pods/nanopb/pb_decode.c:960-989 | a complete field of unknown tag inserted between two fields changes neither the message nor whether decoding succeeds, even in the middle of a fixed-count array |
| Packed.PackedAgreesWithUnpacked | FoodHub/Pods/nanopb/pb_decode.c:424-464 | from any state, one packed record of some items and one record for each of them have the same effect, failures included |
| Merge.FixedCountIsOverfull | FoodHub/Pods/nanopb/pb_decode.c:990-1013 | the smallest such failure: an array of one element sent twice can be decoded in two calls and not in one |
| Presence.SeenIsMet | FoodHub/Pods/nanopb/pb_decode.c:1015-1020 | after the loop a tracked required field is marked exactly if a record with its tag was met |
| Presence.FailsIffRequiredMissing | FoodHub/Pods/nanopb/pb_decode.c:1033-1073 | when every record decodes and fixed-count arrays are complete, decoding fails exactly if one of the first 64 required fields has no record |
| Presence.RequiredWereSent | FoodHub/Pods/nanopb/pb_decode.c:1033-1073 | after a successful decoding every required field with fewer than 64 before it has had a record |
| Presence.FixedCountsAreComplete | FoodHub/Pods/nanopb/pb_decode.c:990-1031 | and every fixed-count array that has had a record has all its elements |
| Presence.LastIsNotChecked | FoodHub/Pods/nanopb/pb_decode.c:1049-1052 | a message of 65 required fields of which the last is not sent is decoded |
| DecodeSpec.DecodeNoinit | FoodHub/Pods/nanopb/pb_decode.c:928-1076 | whatever the bytes are, a successful decoding leaves a structure of the shape its descriptors give: a slot of the right kind for each field, numbers in range of their type, and at most one current member for each union |
| Storage.DecodeStaysWithin | FoodHub/Pods/nanopb/pb_decode.c:1078-1090 | whatever the bytes are, what pb_decode stores is within its storage at every depth: no array has more than array_size entries, every bytes value fits in data_size with its size word, and every string with its terminator |
| Storage.NoinitStaysWithin | FoodHub/Pods/nanopb/pb_decode.c:928-1076 | the same for decoding into a structure that is within its storage already |
| Storage.FieldStaysWithin | FoodHub/Pods/nanopb/pb_decode.c:406-483 | and for every field on its own, so it holds of every state that the loop goes through, if decoding fails later too |
| Resending.DecodedCanBeSent | FoodHub/Pods/nanopb/pb_encode.c:528-550 | whatever bytes a message was decoded from, if its fixed-count arrays are complete it can be encoded, and decoding the encoding gives it back, up to storage that is not part of it, if every length prefix is below 2^32, as they are when the encoding is; and fails otherwise |
| Message.DefaultsFit | FoodHub/Pods/nanopb/pb_decode.c:839-926 | the structure that decoding starts from has the shape of its descriptors, at every depth |
| Defaults.NotSentIsDefault | FoodHub/Pods/nanopb/pb_decode.c:839-926 | whatever bytes pb_decode accepts, at every depth: a field without a record, and without one of its union, holds the default of its descriptor or, if it has none, the number 0, the empty string or zero bytes; has_ flags are false, counts are 0 and no union member is current |
| Defaults.UnsetIsDefault | FoodHub/Pods/nanopb/pb_decode.c:839-926 | that description fits one structure only, the one that decoding starts from |
| Keeping.MergesInto | FoodHub/Pods/nanopb/pb_decode.c:1519-1541 | a submessage of a field that is no array is read over what is stored for it, and marked as present |
| Keeping.NoinitKeeps | FoodHub/Pods/nanopb/pb_decode.c:928-1076 | pb_decode_noinit, at every depth: storage that no record is for, and no record of a union on the way to it, is what it was |
| Keeping.UnmetIsKept | FoodHub/Pods/nanopb/pb_decode.c:928-1076 | so a field of the message stays as it was if its tag was not met, nor that of another member of its union |
| Submessages.RecordsMerge | FoodHub/Pods/nanopb/pb_decode.c:1519-1541 | from any state, two records of a submessage do what one record with both bodies does, with the one exception of Merge.Concatenation, where that one record is refused |
| Submessages.EmptyRecordKeeps | FoodHub/Pods/nanopb/pb_decode.c:1531-1536 | an empty record of a submessage without required fields changes nothing |
| Submessages.LastOneWins | FoodHub/Pods/nanopb/pb_decode.c:414-421 | a number, string or bytes replaces what is stored and is marked as present |
| Submessages.NewEntryIsDecoded | FoodHub/Pods/nanopb/pb_decode.c:1531-1536 | an entry of an array of submessages is what pb_decode makes of its body, whatever the storage held, and comes last |
| Submessages.NewMemberIsDecoded | FoodHub/Pods/nanopb/pb_decode.c:465-478 | a union member that was not the current one is what pb_decode makes of its body, the others are cleared, and everything else stays |
| Keeping.UnionIsRun | FoodHub/Pods/nanopb/pb.h:405 | the members of a union are those that follow each other with the mark of PB_DATAOFFSET_UNION |
| WireProofs.VarintLength | FoodHub/Pods/nanopb/pb_encode.c:608-628 | a 64-bit value takes at most ten bytes |
| Format.VarintIsBase128 | FoodHub/Pods/nanopb/pb_encode.c:608-628 | an encoded varint has the value in groups of seven bits, low ones first, the continuation bit on every byte but the last, and no byte more than it needs |
| WireProofs.VarintInverts | FoodHub/Pods/nanopb/pb_decode.c:255-275 | the 64-bit reader returns any 64-bit value that was encoded and leaves what follows |
| WireProofs.Varint32OfEncoding | FoodHub/Pods/nanopb/pb_decode.c:187-252 | on the encoding of any 64-bit value the 32-bit reader returns the low 32 bits of exactly the values of Fits32 and fails on all others |
| WireProofs.Varint32Inverts | FoodHub/Pods/nanopb/pb_decode.c:187-252 | values below 2^32 are read back exactly |
| WireProofs.Varint32OfNegative | FoodHub/Pods/nanopb/pb_decode.c:211-229 | the encoding of a negative 32-bit integer gives its low 32 bits |
| WireProofs.AcceptedThoughNoInt32 | FoodHub/Pods/nanopb/pb_decode.c:211-229 | a value that the 32-bit reader accepts and that is no sign-extended 32-bit integer |
| WireProofs.TooLargeFor32 | FoodHub/Pods/nanopb/pb_decode.c:211-243 | no value from 2^32 up to 2^63 is accepted |
| Readers.ReadersAgree | FoodHub/Pods/nanopb/pb_decode.c:187-275 | whatever bytes the 32-bit reader accepts, the 64-bit reader accepts with the same bytes left over and the same low 32 bits if they are at most ten, and refuses if they are more |
| Readers.PaddedZero | FoodHub/Pods/nanopb/pb_decode.c:187-275 | a zero of any number of bytes is accepted by the 32-bit reader, and by the 64-bit one exactly up to ten |
| WireProofs.ZigZagInverts | FoodHub/Pods/nanopb/pb_decode.c:1279-1291 | unzigzag undoes zigzag for every 64-bit integer, and zigzag stays in 64 bits |
| WireProofs.LittleEndianInverts | FoodHub/Pods/nanopb/pb_decode.c:1293-1326 | fixed-width values are read back |
| WireProofs.FourBytes | FoodHub/Pods/nanopb/pb_encode.c:641-651 | the four bytes of a fixed32, low byte first |
| Format.SkipsByWireType | FoodHub/Pods/nanopb/pb_decode.c:321-331 | wire type 0 skips up to the first byte below 128, 1 eight bytes, 2 a length and so many bytes, 5 four bytes, and no other skips anything |
| Format.FieldStartsWithHeader | FoodHub/Pods/nanopb/pb_encode.c:675-707 | whatever is sent for a field starts with the varint of 8 times its tag plus 5 for fixed32, 1 for fixed64, 0 for bool and the other integers, and 2 for everything else, packed arrays included |
| Format.NumbersSent | FoodHub/Pods/nanopb/pb_encode.c:769-852 | the bytes sent for one number of each varint type |
| Format.Fixed32Sent | FoodHub/Pods/nanopb/pb_encode.c:675-707 | and for a fixed32, with header 13 |
| Format.Fixed64Sent | FoodHub/Pods/nanopb/pb_encode.c:675-707 | and for a fixed64, with header 9 |
| Format.ArraySent | FoodHub/Pods/nanopb/pb_encode.c:162-205 | and for a packed array |
| Format.MessageSent | FoodHub/Pods/nanopb/pb_encode.c:717-765 | and for a submessage |
| Format.StringIsUpToNul | FoodHub/Pods/nanopb/pb_encode.c:875-899 | what is sent of a char array is all of it before the first zero |
| Format.NumbersAreChecked | FoodHub/Pods/nanopb/pb_decode.c:1338-1430 | an integer is stored if a field of its size can hold it and refused otherwise; of an int of less than 64 bits only the low 32 bits are looked at |
| Format.LengthsAreChecked | FoodHub/Pods/nanopb/pb_decode.c:1441-1517 | a string or bytes value is stored exactly if it fits with its terminator or count and its bytes are there; an empty one of a fixed length gives zeros |
| Format.ZeroIsNotSent | FoodHub/Pods/nanopb/pb_encode.c:240-337 | a field without has_ flag is left out exactly if it holds the number 0, an empty string, no bytes, or a submessage for which nothing is sent |
| InputStream.IStream.Read | FoodHub/Pods/nanopb/pb_decode.c:87-139 | copies or skips exactly the next bytes, or fails and moves nothing |
| InputStream.IStream.ReadByte | FoodHub/Pods/nanopb/pb_decode.c:141-157 | returns the next byte, or fails at the end |
| InputStream.IStream.DecodeVarint32Eof | FoodHub/Pods/nanopb/pb_decode.c:187-252 | the in-place loop with its 8-bit bit position is the 32-bit reader; end of stream is reported exactly if there was no byte |
| InputStream.IStream.DecodeVarint | FoodHub/Pods/nanopb/pb_decode.c:255-275 | the in-place loop is the 64-bit reader |
| InputStream.IStream.SkipVarintBytes | FoodHub/Pods/nanopb/pb_decode.c:278-287 | skips to after the first byte without continuation bit |
| InputStream.IStream.Skip | FoodHub/Pods/nanopb/pb_decode.c:289-331 | skips exactly one field of each wire type, and fails for the others |
| InputStream.IStream.DecodeTag | FoodHub/Pods/nanopb/pb_decode.c:298-319 | splits the header, and tells a zero tag and the end of the stream from errors |
| InputStream.IStream.MakeSubstream | FoodHub/Pods/nanopb/pb_decode.c:372-385 | the substream holds the delimited bytes, and with what the parent keeps it covers exactly what was there |
| InputStream.IStream.CloseSubstream | FoodHub/Pods/nanopb/pb_decode.c:387-400 | the parent goes on right after the substream, however much of it was read |
| OutputStream.OStream.Write | FoodHub/Pods/nanopb/pb_encode.c:74-124 | succeeds exactly if the bytes fit; then they and nothing else are written, and on failure nothing is |
| OutputStream.OStream.EncodeVarint | FoodHub/Pods/nanopb/pb_encode.c:608-628 | writes the varint of the value if it fits |
| OutputStream.OStream.FillVarint | FoodHub/Pods/nanopb/pb_encode.c:616-627 | the buffer loop, with its correction of the last byte, gives the varint |
| OutputStream.OStream.EncodeSvarint | FoodHub/Pods/nanopb/pb_encode.c:630-639 | the shift and complement of the C code give zigzag |
| OutputStream.OStream.EncodeFixed32 | FoodHub/Pods/nanopb/pb_encode.c:641-651 | writes four bytes, low byte first |
| OutputStream.OStream.EncodeFixed64 | FoodHub/Pods/nanopb/pb_encode.c:653-667 | writes eight bytes, low byte first |
| FieldIteration.OffsetIsTrue | FoodHub/Pods/nanopb/pb_common.c:20-76 | the offsets the iterator accumulates are those of the structure's layout, through unions, arrays and pointers |
| FieldIteration.FieldIter.Begin | FoodHub/Pods/nanopb/pb_common.c:8-18 | the iterator stands at the first field and points to it |
| FieldIteration.FieldIter.Next | FoodHub/Pods/nanopb/pb_common.c:20-76 | moves to the next field or wraps; pData is the field's place and required_field_index counts the required fields before it |
| FieldIteration.FieldIter.Find | FoodHub/Pods/nanopb/pb_common.c:78-95 | from any position terminates and succeeds exactly if a field that is no extension has the tag, at the first such field round the list; on failure it is back where it was |
| FieldIteration.FieldIter.FindExtension | FoodHub/Pods/nanopb/pb_decode.c:825-837 | the same for the extension placeholder |
| Encoder.EncodeScalar | FoodHub/Pods/nanopb/pb_encode.c:769-913 | every pb_enc function but that of submessages writes its value's bytes if they fit |
| Encoder.CheckDefault | FoodHub/Pods/nanopb/pb_encode.c:240-337 | decides implicit presence, through submessages |
| Encoder.EncodePackedArray | FoodHub/Pods/nanopb/pb_encode.c:162-205 | the size computed beforehand is that of the items written after it, also when only sizing |
| Encoder.EncodeItemArray | FoodHub/Pods/nanopb/pb_encode.c:147-236 | arrays are written packed whenever the type allows, and refused when over-full |
| Encoder.EncodeField | FoodHub/Pods/nanopb/pb_encode.c:341-428 | writes what its presence asks for: nothing, one record or an array, as far as it fits |
| Encoder.EncodeMessage | FoodHub/Pods/nanopb/pb_encode.c:528-550 | on any stream, succeeds exactly if the message has an encoding and it fits; then exactly the encoding is written |
| Encoder.EncodeSubmessage | FoodHub/Pods/nanopb/pb_encode.c:717-765 | the length prefix of the sizing pass is that of what the writing pass emits |
| Encoder.EncodeSized | FoodHub/Pods/nanopb/pb_encode.c:738-764 | the substream is filled exactly: the branch "submsg size changed" cannot be reached |
| Encoder.EncodeNullTerminated | FoodHub/Pods/nanopb/pb_encode.c:557-565 | the encoding and a zero byte |
| Encoder.GetEncodedSize | FoodHub/Pods/nanopb/pb_encode.c:567-576 | the length of the encoding, exactly |
| Encoder.EncodeToBuffer | FoodHub/Pods/nanopb/pb_encode.c:86-124 | succeeds exactly if the encoding fits in the buffer, which then begins with it and is otherwise unchanged |
| RequiredFields.MarkSeen | FoodHub/Pods/nanopb/pb_decode.c:1015-1020 | setting a bit records one number in the set that the words hold |
| RequiredFields.CheckSeen | FoodHub/Pods/nanopb/pb_decode.c:1049-1072 | whole words and the masked tail are full exactly if every number below the count has been recorded |
| Decoder.DecodeScalar | FoodHub/Pods/nanopb/pb_decode.c:1328-1517 | every pb_dec function but that of submessages reads what the format says, range errors included |
| Decoder.DecodeString | FoodHub/Pods/nanopb/pb_decode.c:1441-1517 | strings and bytes are read within their storage or refused |
| Decoder.DecodeSubmessage | FoodHub/Pods/nanopb/pb_decode.c:1519-1541 | the submessage is decoded from its own bytes alone, over what is stored or, in an array, into defaults, and the stream goes on after them |
| Decoder.DecodePackedArray | FoodHub/Pods/nanopb/pb_decode.c:424-450 | all items of a packed record are appended, or it fails when one is bad or the array is full |
| Decoder.DecodeArray | FoodHub/Pods/nanopb/pb_decode.c:424-464 | a packed record or a single item is appended |
| Decoder.MessageDecoder.HandleField | FoodHub/Pods/nanopb/pb_decode.c:406-483 | a known field is decoded, its presence is set, and the bitmap records it |
| Decoder.MessageDecoder.HandleArray | FoodHub/Pods/nanopb/pb_decode.c:990-1013 | with the local count of fixed-count arrays: entering another one is refused while the last is incomplete |
| Decoder.MessageDecoder.SkipUnknown | FoodHub/Pods/nanopb/pb_decode.c:960-989 | an unknown field is skipped and the rest of the state stays |
| Decoder.MessageDecoder.HandleAll | FoodHub/Pods/nanopb/pb_decode.c:946-1024 | the loop in place, over every input: it terminates, stays within the stream and does what DecodeLoop says |
| Decoder.MessageDecoder.CountRequired | FoodHub/Pods/nanopb/pb_decode.c:1033-1048 | the walk to the last field and its fix-up count all required fields |
| Decoder.MessageDecoder.Finished | FoodHub/Pods/nanopb/pb_decode.c:1026-1073 | the final checks pass exactly if the last fixed-count array is complete and no tracked required field is missing |
| Decoder.DecodeMessageNoinit | FoodHub/Pods/nanopb/pb_decode.c:928-1076 | pb_decode_noinit on a stream reads what DecodeNoinit says |
| Decoder.DecodeMessage | FoodHub/Pods/nanopb/pb_decode.c:1078-1090 | pb_decode on a stream reads what Decode says |
| Decoder.DecodeDelimited | FoodHub/Pods/nanopb/pb_decode.c:1107-1120 | a delimited message is decoded and the stream stands right after it |
| PointerArray.GuardIsExact | FoodHub/Pods/nanopb/pb_decode.c:499-511 | the half-width guard passes exactly if the product does not overflow size_t |
| PointerArray.ReadAllIsDecodePacked | FoodHub/Pods/nanopb/pb_decode.c:601-654 | a growing array receives what a static one that is large enough would |
| PointerArray.CountIsLimit | FoodHub/Pods/nanopb/pb_decode.c:611-620 | a growing array takes exactly as many entries as its 32-bit count can count |
| PointerArray.GuessIsExact | FoodHub/Pods/nanopb/pb_decode.c:622-632 | for numbers of a fixed size the guess is exact: one request, for all entries that the record has left |
| PointerArray.PointerField.Allocate | FoodHub/Pods/nanopb/pb_decode.c:490-533 | succeeds exactly for sizes that are positive, do not overflow and are available, and keeps the items |
| PointerArray.PointerField.MakeRoom | FoodHub/Pods/nanopb/pb_decode.c:622-638 | a full array asks for exactly the size that Wanted computes, which is within PB_SIZE_MAX; it fails exactly if that size is refused, and otherwise there is room for one more item |
| PointerArray.PointerField.Grow | FoodHub/Pods/nanopb/pb_decode.c:611-650 | every item is written inside the current allocation, which stays within PB_SIZE_MAX, and the items are those of the record; if memory is refused, it is the size that the full array asked for with so many bytes left |
| PointerArray.PointerField.DecodePacked | FoodHub/Pods/nanopb/pb_decode.c:598-655 | succeeds exactly if the record is good, unless a size is refused that was asked for |
| PointerArray.PointerField.DecodeOne | FoodHub/Pods/nanopb/pb_decode.c:656-672 | one entry of any type: succeeds exactly if there may be one more entry, memory for it is granted and the entry is good; it is counted before it is read, and the entries before it stay |
| PointerArray.ReadAllocated | FoodHub/Pods/nanopb/pb_decode.c:1441-1517 | a string or bytes value on the heap is read exactly if its size, with terminator or size word, neither wraps around nor is refused and so many bytes are left |
| AuthenticationInterception.AuthenticationInterceptor.IsRefreshExcessive | FoodHub/Pods/Alamofire/Source/AuthenticationInterceptor.swift:355-368 | excessive exactly if there is a window and the set of attempts since its start has as many elements as it allows |
| AuthenticationInterception.AuthenticationInterceptor.Refresh | FoodHub/Pods/Alamofire/Source/AuthenticationInterceptor.swift:330-353 | fails everything that waits when the window is full, and otherwise stamps and dispatches one refresh |
| AuthenticationInterception.AuthenticationInterceptor.AdaptSection | FoodHub/Pods/Alamofire/Source/AuthenticationInterceptor.swift:250-274 | the four ways adapt leaves its section, with the state each one leaves |
| AuthenticationInterception.AuthenticationInterceptor.RetrySection | FoodHub/Pods/Alamofire/Source/AuthenticationInterceptor.swift:319-325 | the completion is queued, and a refresh is begun if none is under way |
| AuthenticationInterception.AuthenticationInterceptor.HandleRefreshSuccess | FoodHub/Pods/Alamofire/Source/AuthenticationInterceptor.swift:370-386 | the queues move into one block as they are, and the new credential is stored |
| AuthenticationInterception.AuthenticationInterceptor.HandleRefreshFailure | FoodHub/Pods/Alamofire/Source/AuthenticationInterceptor.swift:388-402 | the queues move into one block as they are |
| InterceptorRuns.ExactlyOnePlace | FoodHub/Pods/Alamofire/Source/AuthenticationInterceptor.swift:250-402 | in every run each completion handed over is in exactly one place: with its call, queued, dispatched or called |
| InterceptorRuns.OneRefreshAtATime | FoodHub/Pods/Alamofire/Source/AuthenticationInterceptor.swift:330-402 | in every run nonempty queues imply isRefreshing, which holds exactly while one refresh is dispatched and unanswered |
| InterceptorRuns.NothingIsStranded | FoodHub/Pods/Alamofire/Source/AuthenticationInterceptor.swift:250-402 | in every run, unless all completions have been called exactly once, the interceptor can take a step or the authenticator owes an answer |
| InterceptorRuns.RefreshRate | FoodHub/Pods/Alamofire/Source/AuthenticationInterceptor.swift:330-368 | in every run at most max(0, maximumAttempts) refreshes are stamped within any interval, if the clock does not go back between the check and the stamp |
| InterceptorWindow.RefreshBeginsIff | FoodHub/Pods/Alamofire/Source/AuthenticationInterceptor.swift:330-368 | in every run a section that needs a refresh while none is under way begins one exactly if there is no window or fewer than maximumAttempts were begun in it, and otherwise fails its own completion and no other |
| InterceptorWindow.AllGoOn | FoodHub/Pods/Alamofire/Source/AuthenticationInterceptor.swift:370-386 | the block of a refresh that succeeded grants every retry that waited, in order, and makes every adapt again |
| InterceptorWindow.AllToldError | FoodHub/Pods/Alamofire/Source/AuthenticationInterceptor.swift:388-402 | the block of one that failed tells every completion that waited the error, in order |
| InterceptorWindow.AnswerIsPassedOn | FoodHub/Pods/Alamofire/Source/AuthenticationInterceptor.swift:370-402 | so an answer of the authenticator is passed on to all that waited, and nothing waits any more |
| InterceptorOutcomes.AuthenticatedWithCurrent | FoodHub/Pods/Alamofire/Source/AuthenticationInterceptor.swift:250-289 | in every run a request is authenticated only with a credential that its own call's section found current, not about to expire and not being refreshed |
| InterceptorOutcomes.RetriedForAReason | FoodHub/Pods/Alamofire/Source/AuthenticationInterceptor.swift:306-386 | in every run a retry is granted only because the request's credential was not the one retry read, or because a refresh the completion waited for succeeded |
| InterceptorOutcomes.FailedForAReason | FoodHub/Pods/Alamofire/Source/AuthenticationInterceptor.swift:250-402 | in every run an adapt fails only because there was no credential, its own section found the window full, or the refresh it waited for failed with that error |
| InterceptorOutcomes.RefusedForAReason | FoodHub/Pods/Alamofire/Source/AuthenticationInterceptor.swift:306-402 | in every run a retry is refused with an error only because retry read no credential, its own section found the window full, or the refresh it waited for failed with that error |
| InterceptorProgress.StepUsesWork | FoodHub/Pods/Alamofire/Source/AuthenticationInterceptor.swift:250-402 | every step of the interceptor or the authenticator lowers a measure of the work left, except a section of adapt that starts a refresh |
| InterceptorProgress.ComesToRest | FoodHub/Pods/Alamofire/Source/AuthenticationInterceptor.swift:250-402 | from any state of any run the interceptor and the authenticator can by themselves get to where every completion has been called exactly once |
| InterceptorCredentials.StaleIffHeld | FoodHub/Pods/Alamofire/Source/AuthenticationInterceptor.swift:306-353 | whatever step dispatches a refresh, it is not of the current credential if and only if a call of retry dispatches it that holds another |
| InterceptorCredentials.RefreshesAreCurrent | FoodHub/Pods/Alamofire/Source/AuthenticationInterceptor.swift:306-353 | in every run in which no credential is replaced while a call of retry holds it, every refresh is of the current credential |
| InterceptorCredentials.HeldStaysCurrent | FoodHub/Pods/Alamofire/Source/AuthenticationInterceptor.swift:306-325 | replacing a held credential is the only way to come to hold one that is not current |
| InterceptorCredentials.StaleRefreshIff | FoodHub/Pods/Alamofire/Source/AuthenticationInterceptor.swift:319-353 | while nothing refreshes and the window is not full, a replaced credential can be refreshed next if and only if a call of retry holds one |
| InterceptorCredentials.RefreshCanBeRepeated | FoodHub/Pods/Alamofire/Source/AuthenticationInterceptor.swift:306-325 | a run in which a replaced credential is refreshed again |
| Multipart.ParseInvertsEncode | FoodHub/Pods/Alamofire/Source/MultipartFormData.swift:322-400 | if the boundary has no carriage return, reading gives back the parts exactly if no name holds a colon and a space, no header line a line break and no body the delimiter |
| Multipart.UniquelyDecodable | FoodHub/Pods/Alamofire/Source/MultipartFormData.swift:64-77 | such part lists with the same bytes are the same |
| Multipart.HeadersInvert | FoodHub/Pods/Alamofire/Source/MultipartFormData.swift:394-400 | header lines are read back, or something else is if one is not clean |
| Multipart.FormInBytes | FoodHub/Pods/Alamofire/Source/MultipartFormData.swift:50-77 | a form is two dashes and the boundary on a line, the parts with their header lines, an empty line and their body, the same line between them, and at the end the boundary between dashes |
| Multipart.PlainHeaderIsClean | FoodHub/Pods/Alamofire/Source/MultipartFormData.swift:394-400 | headers without carriage returns whose names have no colon are clean |
| MultipartStreams.WriteBytes | FoodHub/Pods/Alamofire/Source/MultipartFormData.swift:486-509 | for every series of partial writes the file takes the bytes, or as many as there is space for; an error is thrown exactly if the stream reports one |
| MultipartStreams.EncodeBodyStream | FoodHub/Pods/Alamofire/Source/MultipartFormData.swift:402-431 | for every chunking the content is returned, or the read error, or the wrong length |
| MultipartStreams.WriteBodyStream | FoodHub/Pods/Alamofire/Source/MultipartFormData.swift:452-476 | for every chunking the content goes to the file, whatever length was declared |
| MultipartStreams.EncodeHeaderData | FoodHub/Pods/Alamofire/Source/MultipartFormData.swift:394-400 | the header lines and an empty one |
| MultipartStreams.EncodeBodyPart | FoodHub/Pods/Alamofire/Source/MultipartFormData.swift:375-392 | boundary, headers, content and final boundary |
| MultipartStreams.WriteBodyPart | FoodHub/Pods/Alamofire/Source/MultipartFormData.swift:435-482 | the same bytes go to the file, up to the first error |
| MultipartStreams.MultipartFormData.Append | FoodHub/Pods/Alamofire/Source/MultipartFormData.swift:307-310 | one more part at the end, also with a stream that another part has: it will find it used up |
| MultipartStreams.MultipartFormData.SetBodyPartError | FoodHub/Pods/Alamofire/Source/MultipartFormData.swift:553-556 | the first error is kept |
| MultipartStreams.MultipartFormData.Encode | FoodHub/Pods/Alamofire/Source/MultipartFormData.swift:322-338 | all parts with the boundaries their flags ask for, or the first error, the first time and any later one; after success every stream is used up and the flags stay |
| MultipartStreams.MultipartFormData.WriteEncodedData | FoodHub/Pods/Alamofire/Source/MultipartFormData.swift:347-371 | what goes to the file and how it ends, the first time and any later one |
| MultipartStreams.EncodeIsFormat | FoodHub/Pods/Alamofire/Source/MultipartFormData.swift:322-431 | encode succeeds exactly if every stream ends after its declared length, and returns the parts in the format exactly if besides no part that was last before is followed by another |
| MultipartStreams.SecondEncodeIsNotFormat | FoodHub/Pods/Alamofire/Source/MultipartFormData.swift:329-335 | a form encoded again after parts were appended is never in the format |
| MultipartStreams.FirstErrorIsThrown | FoodHub/Pods/Alamofire/Source/MultipartFormData.swift:402-431 | encode throws the error of the first part that has one, with both lengths if it is the wrong one |
| MultipartStreams.StreamingRefinesEncoding | FoodHub/Pods/Alamofire/Source/MultipartFormData.swift:347-371 | when encode would succeed, writeEncodedData gives the file the same bytes |
| MultipartStreams.WritingSucceedsIff | FoodHub/Pods/Alamofire/Source/MultipartFormData.swift:493-509 | when no input fails, writing returns normally exactly if the file takes all bytes or its stream has no space without failing, and the file holds all bytes only in the first case |
| MultipartStreams.BrokenStreamIsReported | FoodHub/Pods/Alamofire/Source/MultipartFormData.swift:452-509 | when an input stream fails, what the file has got by then, and which error is thrown |
| RequestPipeline.Request.Cancel | FoodHub/Pods/Alamofire/Source/Request.swift:669-689 | the state is cancelled afterwards unless it was finished, which the result tells; and then the last task is cancelled, or finish dispatched if there is none that runs |
| RequestPipeline.Request.Suspend | FoodHub/Pods/Alamofire/Source/Request.swift:695-710 | the state is suspended afterwards unless it was cancelled or finished; the task is suspended exactly if it changed |
| RequestPipeline.Request.Resume | FoodHub/Pods/Alamofire/Source/Request.swift:716-731 | the state is resumed afterwards unless it was cancelled or finished; the task is resumed exactly if it changed |
| RequestPipeline.Request.Finish | FoodHub/Pods/Alamofire/Source/Request.swift:513-526 | only the first of overlapping calls starts the serializers |
| RequestPipeline.Request.AppendResponseSerializer | FoodHub/Pods/Alamofire/Source/Request.swift:533-549 | the serializer is last and a finished request is resumed; whether processing and resume are dispatched |
| RequestPipeline.Request.NextResponseSerializer | FoodHub/Pods/Alamofire/Source/Request.swift:554-566 | the first serializer without a completion |
| RequestPipeline.Request.ClearResponseSerializers | FoodHub/Pods/Alamofire/Source/Request.swift:574-590 | all completions are taken, everything is cleared, and the request has finished unless it was cancelled |
| RequestRuns.InOrderAndOnce | FoodHub/Pods/Alamofire/Source/Request.swift:513-610 | in every run whose appends and finishes are allowed, serializers are dispatched and run once each in order, and completions are called once each in that order after all serializers of their batch have run |
| RequestRuns.AppendsBeforeClearingAreCareful | FoodHub/Pods/Alamofire/Source/Request.swift:513-549 | appends made at any time before the first clearing, while serializers run too, are allowed, and then so is finish at any time |
| RequestRuns.CareIsNecessary | FoodHub/Pods/Alamofire/Source/Request.swift:533-610 | after any such run, order and once survive an append or a finish, whatever the pipeline does next, if and only if it is allowed: an append not while clearing, and after the first clearing neither it nor a finish while a look for a serializer is under way |
| RequestRuns.AppendWhileClearingIsLost | FoodHub/Pods/Alamofire/Source/Request.swift:568-590 | in every run a serializer appended between the last look and the clearing is never dispatched, run or completed |
| RequestRuns.PipelineEnds | FoodHub/Pods/Alamofire/Source/Request.swift:568-610 | in every such run, once finish has been called, all completions have been called, and the request is finished or cancelled, when the blocks of work left then have run, whatever else is called, finish included |
| RequestRuns.WorkIsNotStuck | FoodHub/Pods/Alamofire/Source/Request.swift:568-610 | in every such run, once finish has been called, either all completions have been called or a block can run |
| RequestRuns.CancelledIsForGood | FoodHub/Pods/Alamofire/Source/Request.swift:50-63 | no run of any steps leaves the cancelled state |
| RequestRuns.CancelWins | FoodHub/Pods/Alamofire/Source/Request.swift:669-689 | every run in which cancel is called before the request has finished ends cancelled |
| RequestRuns.LastOfThemWins | FoodHub/Pods/Alamofire/Source/Request.swift:695-731 | between cancels and clearings the last of suspend and resume decides the state |
| RequestRuns.FinishAgain | FoodHub/Pods/Alamofire/Source/Request.swift:513-526 | repeating finish changes nothing, or runs three blocks that call nothing |
| RequestRuns.AppendCanBeLost | FoodHub/Pods/Alamofire/Source/Request.swift:568-590 | the smallest run in which an appended serializer is dropped |
| RequestRuns.AppendCanRunTwice | FoodHub/Pods/Alamofire/Source/Request.swift:541-543 | a run in which a serializer is dispatched and run twice |

## Left out

- FoodHub's view controllers, cells, models and Firestore calls: user interface and foreign storage.
- RoundTrip.DecodeEncode: for encodings below 2^63 bytes, because no buffer is longer and a longer length prefix would be cut by a cast.
- Merge.UnknownFieldIsInvisible: for fields inserted at the top level; inside a submessage the length prefix would have to change as well.
- Submessages.RecordsMerge: for two bodies of less than 2^32 bytes together, which is what one length prefix can announce.
- InterceptorWindow.AnswerIsPassedOn: when no block was dispatched before; AllGoOn and AllToldError are about the block itself.
- Packed.PackedAgreesWithUnpacked: not for the empty packed record of a fixed-count array, which begins that array where no record does not, and not for records of 2^32 bytes or more, which have no length prefix.
- PointerArray.PointerField.DecodeOne: repeated pointer fields only; single pointer fields are not modelled, entries are values rather than bytes in the allocation, a submessage entry has no pointer fields of its own, and whether memory of a size is granted does not change from one request to the next.
- Storage.DecodeStaysWithin: for defaults that are themselves within their storage, as those of the generator are; they are copied as they are.
- OutputStream.OStream.Write: byte counters are unbounded integers; the check for wrap-around of bytes_written is for sizes that no object has.
- MultipartStreams.MultipartFormData.Encode: a stream that has been read to its end and is opened again is taken to deliver nothing and report no error.
- InterceptorRuns.NothingIsStranded: that a step can be taken, not that the scheduler takes it; a credential that always expires can make an adapt wait again and again.
- InterceptorRuns.RefreshRate: bounds the time stamps; the authenticator is called later, when the queue gets to the block.
- RequestRuns.InOrderAndOnce: for requests that are not retried; reset, which a retry calls, is not modelled.
- Message structures are values: struct layout is modelled for the iterator's pointers only, and storage that is not part of a message (array entries past the count, union members other than the current one, what a failed decode leaves) is not.
- nanopb's field callbacks, extension fields and custom streams, error message strings, pb_release and ownership of the heap.
- nanopb's variants PB_WITHOUT_64BIT, PB_BUFFER_ONLY and PB_OLD_CALLBACK_STYLE, and descriptor lists without fields.
- Bitwise operations are functions on unbounded naturals with the width written out.
- The order in which one block of the interceptor's queue runs its operations is relaxed: an adapt that is re-entered may overlap the next one, so more runs are covered than the serial queue has.
- MultipartFormData's file checks, MIME types, random boundaries and the text encoding of headers: operating system calls; headers and boundaries are bytes.
- Request's tasks, retry and reset, progress and event monitors; HTTP and URL loading.
- RequestTaskMap, HTTPHeaders, RetryPolicy, ParameterEncoding, RedirectHandler and the other Alamofire types: they would add easy members or depend on Foundation.
