# nanopb 0.3.9.6: codec model and proofs

The app bundles nanopb, a table-driven Protocol Buffers encoder and decoder in
C. This project models its four files (pb.h, pb_common.c, pb_encode.c,
pb_decode.c) in Dafny and proves what the library is for: messages survive
encoding and decoding, the decoder keeps the rules of the "Encoding"
specification of Protocol Buffers ("Message Structure", "Packed Repeated
Fields", "Last One Wins", "Field Order") on every byte sequence, with the
exceptions named below, and neither side leaves its buffers.

## How it is built

Each part exists twice, and the two are connected.

*Specification functions* on byte sequences and on structs as values:
`Varint`, `Leaf` (single items), `EncodeSpec` and `DecodeSpec` (messages), with
`Descriptor` (pb_field_t arrays and the memory they describe) and `Message`
(well-formed descriptors, structs within bounds, what of a struct can be
observed). The theorems are about these:

- `RoundTrip`, `Merge`, `Framing`: what an encoded message does to any struct,
  round trip as the case of a fresh struct, delimited and null-terminated
  framing, truncation.
- `Canonical`: the same bytes exactly for the same observable struct.
- `WireFormat` is the format of the "Encoding" specification, with a reader of
  its own. `Conformance` says in its terms what a struct's bytes are, and that
  the encoder's are these; `Presence` and `Refusal` say what is left out and what
  is refused; `Outcome` and `Initial` what a field holds after records from any
  sender, or without any.
- `Records`, `Order`, `Arrays`, `Required`: the decoder as a fold over records;
  unknown fields, merging, reordering, packed against unpacked arrays,
  fixed-count runs, the bitmap of required fields.
- `Bounds`: any accepted bytes leave a struct within its bounds.

*Methods* in the form of the C code, each proved to do what its specification
function says: `InputStream` and `OutputStream` (the stream structs as classes
over a buffer), `FieldIter` (the cyclic iterator, and the struct layout that it
recovers), `PbDecode` and `PbEncode`. `EndToEnd` joins both sides on one buffer.

Two definitions carry most statements. `DecodeSpec.Framed` says when bytes are
one complete record for a descriptor. The decoder ignores the wire type of a
known field except for packed arrays, so a record's end is that of the field's
own wire type. `OutputStream.Appended` says what any writer does to a stream:
it succeeds exactly when the bytes fit, counts the same bytes whether it sizes
or writes, keeps the cursor at a fixed distance from bytes_written and leaves
the bytes before the cursor and beyond the limit alone, on failure as well.

## Where the code decides

- An empty message's terminator entry has tag 0 and is found by a search for
  tag 0, so a tag-0 record (with a wire type other than 0) is read as a bool
  instead of being skipped. Unknown fields are transparent in every other case
  (`Records.TransparentExactly`).
- pb_decode_varint32 has no length limit, and its bit position is a
  uint_fast8_t, modelled with 8 bits as in glibc and Darwin. Of all lengths,
  exactly those up to 37 bytes are read right (`Varint.WidthExactly`).
- The data_offset of a oneof's first member counts from the end of the last
  member of the oneof before it, not of the union. When that is PB_SIZE_MAX, the
  second oneof is mistaken for a continuation of the first
  (`FieldIter.LayoutRecoveredExactly`, `FieldIter.AmbiguousLayout`).
- Signed varint fields of up to 32 bits drop the high half of the value before
  checking that it fits, so that values outside may be stored as others
  (`Leaf.SentValueExactly`, `Leaf.HighHalfDropped`).
- A submessage in a oneof replaces the old contents even when the same member
  was set before, where the standard would merge them. Of singular submessages,
  exactly those outside oneofs merge (`Order.MergesExactly`,
  `Order.OneofReplaces`).
- Only the first 64 required fields are checked: success vouches for all of them
  exactly when there are no more (`Required.CheckedExactly`,
  `Required.LaterFlagsUnchecked`).
- The overflow check of pb_decode_varint32 looks at five-byte varints only.
  2^32 with a byte of padding is read as 0, and as a tag it ends the message
  (`Leaf.PaddedOverflow`; exactly what is accepted, and when without loss, in
  `Varint.AcceptedExactly` and `Varint.SentExactly`).
- A which-field that names no member is encoded as nothing, but keeps an
  implicit-presence submessage around it from counting as empty
  (`Canonical.UnknownMember`).

PB_SIZE_MAX stays symbolic: 2^8-1, 2^16-1 or 2^32-1, as pb.h allows. The other
options have the values that pb.h gives by default: 64-bit integers, packed
arrays, no malloc.

## Model

| member | source | states |
|---|---|---|
| RoundTrip.MessageRoundTrip | PlateChat_Swift5/Pods/nanopb/pb_decode.c:925-1087 | For every well-formed descriptor (required, optional, implicit-presence, repeated, fixed-count, oneof, nested) and every struct that holds a message, pb_decode of what pb_encode writes succeeds, consumes everything and restores what can be observed: has-flags, counts, the first count items, the chosen oneof member, strings up to their NUL |
| Conformance.EncodesExactly | PlateChat_Swift5/Pods/nanopb/pb_encode.c:528-550 | pb_encode writes exactly the one byte sequence that the "Encoding" specification prescribes for the struct: a reader of that specification, defined here without nanopb, finds in it the records of the present fields in the order of the descriptors, with the right numbers, wire types and payloads at every depth, every number in as few bytes as possible, arrays of numbers in one packed block, and nothing else; and no other bytes read so |
| Conformance.OnlyBytes | PlateChat_Swift5/Pods/nanopb/pb_encode.c:341-425 | What is to be said about a struct can be said in one way only, at every depth |
| Conformance.LeafSays | PlateChat_Swift5/Pods/nanopb/pb_encode.c:768-899 | The payload of every type and width of item, as a number, four or eight bytes or a block: negative int32 as 64 bits, zigzag, bools as 0 or 1, strings up to their NUL |
| Conformance.PackedArraySays | PlateChat_Swift5/Pods/nanopb/pb_encode.c:147-192 | A nonempty array of numbers is exactly one record, of wire type 2, whose block reads as the payloads of the items in order, also when there is only one |
| Conformance.DelimitedExactly | PlateChat_Swift5/Pods/nanopb/pb_encode.c:552-555 | pb_encode_delimited writes the length and the prescribed bytes, and nothing else |
| Conformance.NullTerminatedExactly | PlateChat_Swift5/Pods/nanopb/pb_encode.c:557-565 | pb_encode_nullterminated writes the prescribed bytes and one zero |
| Presence.FieldOmittedExactly | PlateChat_Swift5/Pods/nanopb/pb_encode.c:240-337 | An implicit field is left out if and only if nothing in its type has to be sent always (required fields, fixed-count arrays, fixed-length bytes) and what can be observed of it is the decoder's default, through nested submessages |
| Presence.SilentExactly | PlateChat_Swift5/Pods/nanopb/pb_encode.c:240-337 | The check of an item's bytes leaves out exactly zero numbers, empty bytes and strings, and submessages in which every field is absent, zero or empty |
| Refusal.RefusedExactly | PlateChat_Swift5/Pods/nanopb/pb_encode.c:147-236 | For every descriptor and struct: pb_encode refuses it if and only if, at some depth, something present cannot be sent: a count above array_size, a fixed-count array that is not full, a bytes size above its buffer, a string without room for its characters, an integer size that C does not have, a field that is not static, memory nobody has written |
| Outcome.AbsentFields | PlateChat_Swift5/Pods/nanopb/pb_decode.c:836-919 | After pb_decode of any records, a field none of which is its own holds its declared default, or else zero, nothing, or zero bytes, with has-flag, count or which-field saying that it is absent; submessages so at every depth |
| Outcome.LastRecordDecides | PlateChat_Swift5/Pods/nanopb/pb_decode.c:406-477 | After any run a scalar field, and a oneof with its which-field, holds what its last record says, whatever the other records and whatever the wire types |
| Outcome.ArraysCollect | PlateChat_Swift5/Pods/nanopb/pb_decode.c:424-464 | After any run an array with a count holds what it held before and behind that all items of its records in order, packed or not, from any sender |
| Outcome.ArraysAreFilledExactly | PlateChat_Swift5/Pods/nanopb/pb_decode.c:424-464 | Records of one array are refused if and only if one of them does not decode or they bring more items than there is room for |
| Outcome.ItemsAreStored | PlateChat_Swift5/Pods/nanopb/pb_decode.c:1318-1548 | Every item from any sender, within the limits of the specification, is stored as the value given in closed form for its type and width, or refused when it does not fit |
| Outcome.KeysAreTags | PlateChat_Swift5/Pods/nanopb/pb_decode.c:298-319 | Every key below 2^32 is taken apart into field number and wire type as the specification has it |
| Outcome.PayloadsAreSkipped | PlateChat_Swift5/Pods/nanopb/pb_decode.c:321-331 | Skipping an unknown field ends exactly where the specification ends its payload |
| Outcome.WireTypesAreIgnored | PlateChat_Swift5/Pods/nanopb/pb_decode.c:406-464 | The wire type of a known field's record changes nothing, but for 2 against others in arrays of numbers |
| Outcome.ZeroTagEndsSubmessage | PlateChat_Swift5/Pods/nanopb/pb_decode.c:387-401 | A zero tag ends a submessage, and whatever follows in its block is skipped |
| Outcome.ZeroTagEndsDelimited | PlateChat_Swift5/Pods/nanopb/pb_decode.c:1104-1117 | The same for a delimited message |
| Outcome.PointersAreRefused | PlateChat_Swift5/Pods/nanopb/pb_decode.c:550-556 | One record of a field that is not static makes decoding fail, wherever it stands |
| RoundTrip.ValueRoundTrip | PlateChat_Swift5/Pods/nanopb/pb_encode.c:341-425 | An item of any type, submessages included, decodes to its observable part where there is nothing to merge with, whatever bytes follow |
| RoundTrip.ValueMerges | PlateChat_Swift5/Pods/nanopb/pb_decode.c:1503-1525 | An item is merged into what its memory held, submessages at every depth, and is refused exactly when some array there has no room |
| RoundTrip.FieldMerges | PlateChat_Swift5/Pods/nanopb/pb_encode.c:341-425 | The records that one field emits, decoded onto any struct within its bounds, merge exactly that field's slot and set its required mark and fixed-count state; they are refused exactly when the slot has no room |
| RoundTrip.MessageMerges | PlateChat_Swift5/Pods/nanopb/pb_decode.c:925-1073 | pb_decode_noinit of what pb_encode writes, onto any struct within its bounds, gives the slot-by-slot merge of both (scalars and oneofs replaced, arrays appended, submessages merged) and fails if and only if the items of some array at some depth do not fit |
| Merge.MergedIntoDefaults | PlateChat_Swift5/Pods/nanopb/pb_decode.c:836-919 | Merging into the defaults always fits and gives the observable message |
| RoundTrip.PackedRoundTrip | PlateChat_Swift5/Pods/nanopb/pb_encode.c:147-236 | The contents of a packed array decode to its items in order, given room for them |
| Message.ZeroIsDefault | PlateChat_Swift5/Pods/nanopb/pb_encode.c:240-337 | An implicit-presence item that the encoder leaves out is, as far as it can be observed, the one that the decoder's defaults put there, through nested submessages |
| Basics.ZeroBytesExactly | PlateChat_Swift5/Pods/nanopb/pb_encode.c:317-335 | The bytes of a number that fits its memory are all zero exactly when the number is |
| Framing.EncodeSucceeds | PlateChat_Swift5/Pods/nanopb/pb_encode.c:528-550 | pb_encode refuses no struct that holds a message of a well-formed descriptor |
| Canonical.EncodingIsCanonical | PlateChat_Swift5/Pods/nanopb/pb_encode.c:240-425 | The bytes do not depend on anything that cannot be observed, for structs whose which-fields, at every depth, are 0 or name a member |
| Canonical.SameBytesExactly | PlateChat_Swift5/Pods/nanopb/pb_encode.c:528-550 | Two such structs, of encodings below 2^32 bytes, are sent as the same bytes if and only if they are the same as far as can be observed |
| Canonical.UnknownMember | PlateChat_Swift5/Pods/nanopb/pb_encode.c:288-306 | A which-field that names no member: the submessage around it is sent, though its observable part is left out, so the condition is needed |
| Framing.DelimitedRoundTrip | PlateChat_Swift5/Pods/nanopb/pb_decode.c:1104-1117 | A delimited message followed by any bytes decodes to the message and leaves the stream exactly at those bytes |
| Framing.NullTerminatedRoundTrip | PlateChat_Swift5/Pods/nanopb/pb_decode.c:1119-1123 | A null-terminated message followed by any bytes decodes to the message and leaves the stream exactly behind the zero; no record begins with one |
| Framing.TruncatedMessageFails | PlateChat_Swift5/Pods/nanopb/pb_decode.c:943-955 | Cutting an encoded message anywhere that is not a boundary between top-level records makes pb_decode fail |
| Framing.InsideSomeRecord | PlateChat_Swift5/Pods/nanopb/pb_decode.c:943-955 | Every position that is no record boundary lies strictly inside one record, with the bytes up to it split accordingly |
| Framing.UnknownFieldsAreSkipped | PlateChat_Swift5/Pods/nanopb/pb_decode.c:957-986 | An encoded message with a record of an unknown field put in at any top-level boundary decodes to the same message |
| Framing.EncodedMessagesMerge | PlateChat_Swift5/Pods/nanopb/pb_decode.c:925-1087 | Two encoded messages one behind the other decode to the slot-by-slot merge of the second into the first, and fail if and only if some array has no room for the items of both, or the descriptor has exactly one fixed-count array, whose two runs become one |
| Records.LoopRecord | PlateChat_Swift5/Pods/nanopb/pb_decode.c:943-1021 | The loop consumes a complete record at the front exactly, whatever follows it, or fails for good |
| Records.LoopFold | PlateChat_Swift5/Pods/nanopb/pb_decode.c:943-1021 | Decoding a list of complete records followed by any bytes is applying the records' effects in order and going on with those bytes |
| Records.StepSkips | PlateChat_Swift5/Pods/nanopb/pb_decode.c:321-331 | Every record that decodes ends where pb_skip_field would have ended it, for the wire type that the decoder uses |
| Records.StepExtend | PlateChat_Swift5/Pods/nanopb/pb_decode.c:406-477 | Bytes behind a complete record change neither its outcome nor its effect |
| Records.UnknownRecordIsTransparent | PlateChat_Swift5/Pods/nanopb/pb_decode.c:957-986 | A record of an unknown field can be dropped at any position without changing the run, its failure or where it stops; the one exception is tag 0 in a message without fields |
| Records.TagZeroInEmptyMessage | PlateChat_Swift5/Pods/nanopb/pb_decode.c:939-957 | That exception with concrete bytes: the terminator of an empty message answers to tag 0, so an eight-byte record is read as a bool and fails |
| Records.TransparentExactly | PlateChat_Swift5/Pods/nanopb/pb_decode.c:957-986 | Leaving out records of an unknown tag never matters if and only if the message has fields or the tag is not 0 |
| Records.TruncationIsDetected | PlateChat_Swift5/Pods/nanopb/pb_decode.c:943-955 | A run over complete records and a proper prefix of one more fails; it is never taken for the end of the message |
| Records.MergeByConcatenation | PlateChat_Swift5/Pods/nanopb/pb_decode.c:925-1073 | If decoding a and then b into the same struct succeeds, a fully consumed, without a zero tag and without a record of a fixed-count array, then decoding a followed by b succeeds with the same struct and the same bytes left |
| Records.PartsExactly | PlateChat_Swift5/Pods/nanopb/pb_decode.c:925-1073 | For such an a, decoding a and then b is decoding a followed by b, failures included, exactly as far as both parts have all required fields by themselves; it fails where one of them has not |
| Records.ConcatenationSplits | PlateChat_Swift5/Pods/nanopb/pb_decode.c:925-1073 | The outcome of decoding a followed by b, success or failure, told from the two runs, for every descriptor, where a runs to its end: b resumes the fixed-count array that a was receiving, and required fields count from either part |
| Records.LoopSeen | PlateChat_Swift5/Pods/nanopb/pb_decode.c:1012-1017 | Required marks that are already set influence neither the records' effects nor any failure, and are kept |
| Order.StepFieldLocal | PlateChat_Swift5/Pods/nanopb/pb_decode.c:988-1020 | A record reads and writes its own field's slot only, and the fixed-count variables only for a fixed-count array |
| Order.RecordsCommute | PlateChat_Swift5/Pods/nanopb/pb_decode.c:943-1021 | Two complete records of different slots, not both of fixed-count arrays, have the same effect in either order, failures included |
| Order.OrderIndependence | PlateChat_Swift5/Pods/nanopb/pb_decode.c:943-1021 | Any two arrangements of records that agree, slot by slot, on the order of that slot's records have the same effect; records of unknown fields may stand anywhere or be left out |
| Order.ReorderedMessagesDecodeAlike | PlateChat_Swift5/Pods/nanopb/pb_decode.c:925-1073 | Such arrangements decode alike: same success, same struct, same bytes left |
| Order.SwapNeighbours | PlateChat_Swift5/Pods/nanopb/pb_decode.c:943-1021 | Two neighbouring records of different slots can be swapped anywhere in a message, whatever follows |
| Order.LastOneWins | PlateChat_Swift5/Pods/nanopb/pb_decode.c:406-477 | Of two records of one scalar field, or of members of one oneof, the first leaves no trace once it has decoded: the result, failures included, is that of the second alone |
| Order.SubmessagesConcatenate | PlateChat_Swift5/Pods/nanopb/pb_decode.c:1503-1525 | Two records of one singular submessage act like one record with the first payload followed by the second, failures included, where the first payload runs to its end and has received no fixed-count array; only when one of the payloads misses a required field do the two records fail where the one may not |
| Order.MergesExactly | PlateChat_Swift5/Pods/nanopb/pb_decode.c:406-477 | For each kind of singular field: submessages of that kind merge as the standard has it, two records acting like one with the payloads concatenated, for every descriptor, if and only if the kind is not a oneof |
| Order.OneofReplaces | PlateChat_Swift5/Pods/nanopb/pb_decode.c:1503-1525 | The oneof with concrete bytes: a submessage with its flag set, then an empty one of the same member. Two records leave the flag unset, one record with both payloads leaves it set |
| Arrays.PackedUnpackedEquivalence | PlateChat_Swift5/Pods/nanopb/pb_decode.c:424-464 | Every way of splitting a list of scalars into packed chunks, empty ones included, and single unpacked items decodes to the list in order; it is refused exactly when the list is longer than the room in the array |
| RoundTrip.PackedOverflow | PlateChat_Swift5/Pods/nanopb/pb_decode.c:439-451 | The contents of a packed array with more items than there is room for are refused |
| Arrays.FixedCountRunsAreComplete | PlateChat_Swift5/Pods/nanopb/pb_decode.c:988-1010 | On success every maximal run of records of one fixed-count array, other fields' records aside, brought exactly array_size items, packed or not |
| Arrays.DecodingSucceedsExactly | PlateChat_Swift5/Pods/nanopb/pb_decode.c:1023-1070 | A list of complete records decodes if and only if each record does, the last fixed-count run is complete and every tracked required field was seen |
| Required.RequiredFieldsExactly | PlateChat_Swift5/Pods/nanopb/pb_decode.c:1030-1070 | The required-field check passes if and only if each of the first 64 required fields occurred at least once, for every descriptor and every order of records |
| Required.CheckedExactly | PlateChat_Swift5/Pods/nanopb/pb_decode.c:1030-1070 | For every number n: success means that all required fields occurred, for every descriptor with n of them and every list of records, if and only if n is at most 64 |
| Required.LaterFlagsUnchecked | PlateChat_Swift5/Pods/nanopb/pb_decode.c:1012-1017 | For every n above 64, a descriptor with n required bools and records that decode without the 65th |
| Required.SeenExactly | PlateChat_Swift5/Pods/nanopb/pb_decode.c:1012-1017 | A required field's mark is set at the end exactly when it was set before or one of the records was that field's |
| Required.WordCheck | PlateChat_Swift5/Pods/nanopb/pb_decode.c:1048-1068 | A word of the bitmap equals the all-ones word, or its mask in the last word, exactly when all the required fields that it stands for have been seen |
| Required.SetBit | PlateChat_Swift5/Pods/nanopb/pb_decode.c:1012-1017 | Or-ing the bit of one index into its word gives the word of the set with that index added |
| Required.MarksTracked | PlateChat_Swift5/Pods/nanopb/pb_decode.c:1012-1046 | The index that a record marks is below the number of required fields that the final check counts |
| Bounds.DecodeStaysInBounds | PlateChat_Swift5/Pods/nanopb/pb_decode.c:406-477 | Whatever bytes pb_decode accepts, the struct stays within its bounds at every depth: counts within arrays, sizes within buffers, strings with room for their terminator, numbers within their width |
| Bounds.MergeStaysInBounds | PlateChat_Swift5/Pods/nanopb/pb_decode.c:925-1073 | The same for merging any bytes into a struct that is within its bounds |
| Bounds.DecodedMessagesReencode | PlateChat_Swift5/Pods/nanopb/pb_encode.c:528-550 | A message that pb_decode accepts, from whatever bytes, can be encoded again, and decoding that gives its observable part, whenever every present item of its fixed-count arrays has been written; that is so for every message without fixed-count arrays |
| Bounds.HoldsExactly | PlateChat_Swift5/Pods/nanopb/pb_encode.c:528-550 | A struct within its bounds is one that the encoder can be given if and only if the present items of its fixed-count arrays, at every depth, have been written |
| Varint.VarintRoundTrip | PlateChat_Swift5/Pods/nanopb/pb_encode.c:608-628 | For every uint64 and every suffix, encoding takes 1 to 10 bytes, and decoding gives the value back and stops at the suffix |
| Varint.VarintMinimal | PlateChat_Swift5/Pods/nanopb/pb_encode.c:608-628 | No byte sequence that decodes to a value is shorter than the encoder's |
| Varint.OrGroup64 | PlateChat_Swift5/Pods/nanopb/pb_decode.c:255-275 | One turn of the decoder's shift-and-or loop adds the next 7-bit group to the sum of the groups, modulo 2^64, also where the tenth group is cut off |
| Varint.Varint64TooLong | PlateChat_Swift5/Pods/nanopb/pb_decode.c:255-275 | The 64-bit reader refuses every varint of more than ten bytes |
| Varint.ReadVarint32Value | PlateChat_Swift5/Pods/nanopb/pb_decode.c:187-247 | A varint of up to 37 bytes that the 32-bit reader accepts has the sum of its groups modulo 2^32 as its value |
| Varint.AcceptedExactly | PlateChat_Swift5/Pods/nanopb/pb_decode.c:213-244 | Which varints of up to 37 bytes the 32-bit reader accepts: all of up to four bytes; of five bytes those without overflow; of more bytes those where each byte from the sixth on is padding or, when bit 31 is set, sign extension |
| Varint.ReadVarint32Exactly | PlateChat_Swift5/Pods/nanopb/pb_decode.c:187-247 | For varints of up to 37 bytes, all that the 32-bit reader does: the accepted ones give the number that their groups spell modulo 2^32 and end where the varint ends |
| Varint.SentExactly | PlateChat_Swift5/Pods/nanopb/pb_decode.c:187-247 | The 32-bit reader returns the number that a varint of up to 37 bytes spells exactly when it accepts the varint and the groups stay below bit 32 |
| Varint.Within32Exactly | PlateChat_Swift5/Pods/nanopb/pb_decode.c:213-244 | The groups spell a number below 2^32 exactly when those from bit 32 on are zero, for every length |
| Varint.WidthExactly | PlateChat_Swift5/Pods/nanopb/pb_decode.c:213-236 | For every length n: the 32-bit reader gives all varints of n bytes that it accepts their value modulo 2^32 if and only if n is at most 37 |
| Varint.BitPositionWraps | PlateChat_Swift5/Pods/nanopb/pb_decode.c:213-236 | At every length from 38 bytes on there is a varint that means 2^259 and is read as 8, because the 8-bit bit position has wrapped to 3 |
| Varint.Varint32IsLowHalf | PlateChat_Swift5/Pods/nanopb/pb_decode.c:187-275 | Where both readers accept, they consume the same bytes and the 32-bit value is the 64-bit value modulo 2^32 |
| Varint.Varint32RoundTrip | PlateChat_Swift5/Pods/nanopb/pb_decode.c:187-247 | The 32-bit reader reads back every encoded value below 2^32 |
| Varint.Varint32AcceptsNegative | PlateChat_Swift5/Pods/nanopb/pb_decode.c:213-228 | The 32-bit reader accepts every negative int32 that was encoded with its sign extended to 64 bits |
| Varint.ReadVarint32Span | PlateChat_Swift5/Pods/nanopb/pb_decode.c:187-247 | The 32-bit reader stops exactly behind the first byte without continuation bit |
| Varint.ZigZagRoundTrip | PlateChat_Swift5/Pods/nanopb/pb_encode.c:630-639 | ZigZag encoding of every int64 is 2v or -2v-1, and decoding gives v back |
| Varint.UnZigZagRoundTrip | PlateChat_Swift5/Pods/nanopb/pb_decode.c:1269-1281 | ZigZag decoding of every uint64 is an int64 that encodes to it again |
| Leaf.LeafRoundTrip | PlateChat_Swift5/Pods/nanopb/pb_decode.c:1318-1480 | For every type and width of item but submessages, what is encoded from memory decodes at that width to what the encoder looked at, whatever follows; what the bytes themselves are is stated by Conformance.LeafSays |
| Leaf.SentWide | PlateChat_Swift5/Pods/nanopb/pb_encode.c:775-796 | Signed fields of every width are sent as 64-bit numbers: a reader of 64 bits gets the same value, and negative ones take ten bytes |
| Leaf.BoolExact | PlateChat_Swift5/Pods/nanopb/pb_decode.c:1318-1327 | Bools accept exactly the varints of up to 37 bytes that the 32-bit reader accepts, and are true exactly when the low half is not zero |
| Leaf.BlobExact | PlateChat_Swift5/Pods/nanopb/pb_decode.c:1431-1548 | Bytes, strings and fixed-length bytes are accepted exactly when they fit behind their size, in front of their terminator, or exactly; an empty block means zeros for fixed-length bytes |
| Leaf.SizeMemberExactly | PlateChat_Swift5/Pods/nanopb/pb.h:269-270 | The size in front of a bytes array takes exactly the bytes of a pb_size_t |
| Leaf.SkipExactly | PlateChat_Swift5/Pods/nanopb/pb_decode.c:321-331 | pb_skip_field skips a varint for wire type 0, eight bytes for 1, a block for 2 and four bytes for 5, and refuses every other wire type |
| Leaf.TagExactly | PlateChat_Swift5/Pods/nanopb/pb_decode.c:298-319 | A varint of up to 37 bytes is read as a tag if and only if the 32-bit reader accepts it; its low half gives number and wire type, and zero ends the message |
| Leaf.BlockExactly | PlateChat_Swift5/Pods/nanopb/pb_decode.c:372-385 | A length of up to 37 bytes delimits a block if and only if it is accepted and its low half is no more than what follows |
| Leaf.StoreVarintRoundTrip | PlateChat_Swift5/Pods/nanopb/pb_decode.c:1329-1364 | Signed varints of 1, 2, 4 and 8 bytes come back from their 64-bit encoding over the whole range |
| Leaf.UVarintExact | PlateChat_Swift5/Pods/nanopb/pb_decode.c:1366-1388 | Unsigned fields accept exactly the varints whose value fits, and store that value unchanged |
| Leaf.SVarintExact | PlateChat_Swift5/Pods/nanopb/pb_decode.c:1390-1412 | ZigZag fields accept exactly the varints whose mapped value fits, and store that value unchanged |
| Leaf.VarintExact | PlateChat_Swift5/Pods/nanopb/pb_decode.c:1329-1364 | Signed fields look at the low 32 bits only (8-byte fields at all 64) and accept exactly the values that fit; with 4 bytes or more every varint is accepted |
| Leaf.SentValueExactly | PlateChat_Swift5/Pods/nanopb/pb_decode.c:1329-1364 | The int64 that a varint carries is stored unchanged if and only if it fits the signed field |
| Leaf.HighHalfDropped | PlateChat_Swift5/Pods/nanopb/pb_decode.c:1340-1343 | 2^32, sent to a field of four bytes, is accepted and stored as 0 |
| Leaf.CanonLeafIdentity | PlateChat_Swift5/Pods/nanopb/pb_encode.c:875-899 | An item comes back literally, and not just as far as it can be observed, exactly when a string has no embedded NUL and a bool is 0 or 1 |
| Leaf.StringRoundTripExactly | PlateChat_Swift5/Pods/nanopb/pb_encode.c:875-899 | Every string in its buffer is encoded; it comes back if and only if its terminator lies inside the buffer, else the decoder refuses it |
| Leaf.DecodedLeafHolds | PlateChat_Swift5/Pods/nanopb/pb_decode.c:1318-1548 | Whatever the bytes are, a decoded item fits its memory |
| Leaf.LeafSkips | PlateChat_Swift5/Pods/nanopb/pb_decode.c:321-331 | An item that decodes ends where pb_skip_field for its wire type ends |
| Leaf.TagRoundTrip | PlateChat_Swift5/Pods/nanopb/pb_decode.c:298-319 | Every field number of the protocol and every wire type are read back from their common varint |
| Leaf.PaddedOverflow | PlateChat_Swift5/Pods/nanopb/pb_decode.c:239-244 | The overflow check looks at five-byte varints only: 2^32 is refused in five bytes, but with a byte of padding it is read as 0, and where a tag is expected it ends the message |
| Leaf.BlockRoundTrip | PlateChat_Swift5/Pods/nanopb/pb_decode.c:372-385 | A length-prefixed block is read back as its contents and exactly what followed |
| FieldIter.Iter.Begin | PlateChat_Swift5/Pods/nanopb/pb_common.c:8-18 | Begins at position 0 with the pointers of the closed form; false for an empty message |
| FieldIter.Iter.Next | PlateChat_Swift5/Pods/nanopb/pb_common.c:20-76 | Moves to the next position in a cycle; pData, pSize and required_field_index become those of the closed form at that position, even when the decoder had pointed pSize elsewhere |
| FieldIter.Iter.FindTag | PlateChat_Swift5/Pods/nanopb/pb_common.c:78-95 | Terminates, succeeds exactly when some field has the tag (an empty message's terminator has tag 0), otherwise is back where it started; pSize keeps a foreign value only when the iterator has not moved |
| FieldIter.FoundOnlyOnce | PlateChat_Swift5/Pods/nanopb/pb_common.c:78-95 | With distinct tags, a match found from any starting position is the one that a search from the beginning gives |
| FieldIter.OffsetsRecovered | PlateChat_Swift5/Pods/nanopb/pb.h:399-409 | The iterator's running sum over the data_offset deltas of the layout macros gives every member's offset in the struct, oneof members sharing one |
| FieldIter.CountersRecovered | PlateChat_Swift5/Pods/nanopb/pb_common.c:45-74 | So does pSize: it is the address of the field's count, has-flag or which-field, the first member's inside a oneof, and that of the item where there is none |
| FieldIter.LayoutRecoveredExactly | PlateChat_Swift5/Pods/nanopb/pb_common.c:45-74 | The addresses of all items and of all counts, has-flags and which-fields are recovered if and only if no oneof begins PB_SIZE_MAX bytes behind the end of the last member of another oneof |
| FieldIter.AmbiguousLayout | PlateChat_Swift5/Pods/nanopb/pb.h:399-409 | That case with concrete members, without padding and aligned: the first oneof's last member is smaller than the union, and the second oneof's member is taken for one of the first oneof |
| FieldIter.SlotsAreDisjoint | PlateChat_Swift5/Pods/nanopb/pb_common.c:45-74 | Two fields share a slot of the model exactly when they are members of one oneof; then their addresses agree, else neither their items nor their counts, has-flags and which-fields overlap |
| Descriptor.LeaderLeads | PlateChat_Swift5/Pods/nanopb/pb_common.c:53-59 | The member that a oneof member shares its memory with shares it with itself |
| InputStream.IStream.constructor | PlateChat_Swift5/Pods/nanopb/pb_decode.c:159-181 | A buffer stream delivers the first bufsize bytes |
| InputStream.IStream.BufRead | PlateChat_Swift5/Pods/nanopb/pb_decode.c:87-100 | Moves the position and copies the bytes, or none when there is no destination |
| InputStream.IStream.Read | PlateChat_Swift5/Pods/nanopb/pb_decode.c:102-137 | All or nothing: succeeds exactly when enough bytes are left; position plus bytes_left never changes |
| InputStream.IStream.ReadByte | PlateChat_Swift5/Pods/nanopb/pb_decode.c:141-157 | The next byte, failing exactly at the end of the stream |
| InputStream.IStream.DecodeVarint32Eof | PlateChat_Swift5/Pods/nanopb/pb_decode.c:187-247 | Accepts exactly what the specification function does, with its value and bytes consumed; end of file is reported only before the first byte |
| InputStream.IStream.DecodeVarint | PlateChat_Swift5/Pods/nanopb/pb_decode.c:255-275 | The shift-and-or loop computes the sum of the groups modulo 2^64, and refuses exactly an unfinished varint or one of more than ten bytes |
| InputStream.IStream.DecodeFixed32 | PlateChat_Swift5/Pods/nanopb/pb_decode.c:1283-1295 | The shifts and ors put the four bytes together, least significant first; fails exactly when fewer are left |
| InputStream.IStream.DecodeFixed64 | PlateChat_Swift5/Pods/nanopb/pb_decode.c:1298-1316 | The same for eight bytes |
| InputStream.IStream.SkipVarint | PlateChat_Swift5/Pods/nanopb/pb_decode.c:278-287 | Stops behind the first byte without continuation bit, and fails exactly when there is none |
| InputStream.IStream.SkipString | PlateChat_Swift5/Pods/nanopb/pb_decode.c:289-296 | Skips a length-prefixed block, failing exactly when it is cut short |
| InputStream.IStream.DecodeTag | PlateChat_Swift5/Pods/nanopb/pb_decode.c:298-319 | Tag and wire type, the end of the message at the stream's end or behind a zero varint, or an error |
| InputStream.IStream.SkipOne | PlateChat_Swift5/Pods/nanopb/pb_decode.c:321-331 | Skips one value of any of the four wire types, and fails for others |
| InputStream.IStream.MakeSubstream | PlateChat_Swift5/Pods/nanopb/pb_decode.c:372-385 | The substream delivers exactly the block, and what lies behind its limit is what the parent has left |
| InputStream.IStream.CloseSubstream | PlateChat_Swift5/Pods/nanopb/pb_decode.c:387-400 | Never fails, and leaves the parent exactly behind the block however much of it was read |
| PbDecode.DecVarint | PlateChat_Swift5/Pods/nanopb/pb_decode.c:1329-1364 | Refines the specification of a signed varint field: same success, value and position; keeps position plus bytes_left |
| PbDecode.DecUVarint | PlateChat_Swift5/Pods/nanopb/pb_decode.c:1366-1388 | The same for unsigned varint fields |
| PbDecode.DecSVarint | PlateChat_Swift5/Pods/nanopb/pb_decode.c:1390-1412 | The same for ZigZag fields |
| PbDecode.DecFixed | PlateChat_Swift5/Pods/nanopb/pb_decode.c:1414-1428 | The same for fixed32 and fixed64 |
| PbDecode.DecBool | PlateChat_Swift5/Pods/nanopb/pb_decode.c:1318-1327 | The same for bools |
| PbDecode.DecBytes | PlateChat_Swift5/Pods/nanopb/pb_decode.c:1431-1466 | The same for bytes fields, with both size checks |
| PbDecode.DecString | PlateChat_Swift5/Pods/nanopb/pb_decode.c:1468-1501 | The same for strings, with the wrapping 32-bit sum of the size check |
| PbDecode.DecFixedLengthBytes | PlateChat_Swift5/Pods/nanopb/pb_decode.c:1527-1548 | The same for fixed-length bytes, where an empty string means zeros |
| PbDecode.SetToDefaults | PlateChat_Swift5/Pods/nanopb/pb_decode.c:836-919 | The loop over the iterator, recursively, leaves exactly the default struct, in which every field has its declared default or zero and says that it is absent |
| Initial.DefaultsAreInitial | PlateChat_Swift5/Pods/nanopb/pb_decode.c:836-919 | The default struct, spelled out: the declared default where there is one, otherwise zero, nothing or zero bytes; absent fields, empty arrays and no oneof member, at every depth |
| PbDecode.DecodePackedItems | PlateChat_Swift5/Pods/nanopb/pb_decode.c:439-448 | The packed loop gives all items of the block, or stops short of its end or at an error exactly when the block does not decode into the room left |
| PbDecode.DecodePackedArray | PlateChat_Swift5/Pods/nanopb/pb_decode.c:424-455 | The packed branch as a whole: same success, items and position as the specification |
| PbDecode.DecodeStaticField | PlateChat_Swift5/Pods/nanopb/pb_decode.c:406-477 | Refines the specification of one field's record on that field's memory, with the decoder's own counter for fixed-count arrays |
| PbDecode.DecSubmessage | PlateChat_Swift5/Pods/nanopb/pb_decode.c:1503-1525 | A submessage is decoded in its substream, anew in arrays and merged elsewhere, and the parent advances by exactly prefix and length |
| PbDecode.MarkSeen | PlateChat_Swift5/Pods/nanopb/pb_decode.c:1012-1017 | Setting a bit in the word array keeps the words equal to the bitmap of the set of fields seen |
| PbDecode.CheckSeen | PlateChat_Swift5/Pods/nanopb/pb_decode.c:1048-1068 | The word-and-mask check is true exactly when every tracked required field is in the set |
| PbDecode.CountRequired | PlateChat_Swift5/Pods/nanopb/pb_decode.c:1032-1046 | Running the iterator to its end counts the required fields, up to 64, wherever the iterator stood |
| PbDecode.EnterFixedArray | PlateChat_Swift5/Pods/nanopb/pb_decode.c:988-1010 | A fixed-count array is entered, or continued, exactly when the one before is complete; pSize then points at the decoder's counter |
| PbDecode.DecodeRecord | PlateChat_Swift5/Pods/nanopb/pb_decode.c:943-1020 | One turn of the loop refines one step of the specification, and keeps iterator, bitmap and counters in agreement with its state |
| PbDecode.DecodeRecords | PlateChat_Swift5/Pods/nanopb/pb_decode.c:943-1021 | The loop terminates on every byte sequence and refines the specification's run |
| PbDecode.DecodeMessageNoinit | PlateChat_Swift5/Pods/nanopb/pb_decode.c:925-1073 | pb_decode_noinit: same success, struct and position as the specification; position plus bytes_left is kept, and nothing behind the stream's limit is read |
| PbDecode.DecodeMessage | PlateChat_Swift5/Pods/nanopb/pb_decode.c:1075-1087 | pb_decode, the same |
| PbDecode.DecodeDelimitedMessage | PlateChat_Swift5/Pods/nanopb/pb_decode.c:1104-1117 | pb_decode_delimited, the same |
| OutputStream.VarintBytes | PlateChat_Swift5/Pods/nanopb/pb_encode.c:618-625 | The loop over the ten-byte buffer produces exactly the varint |
| OutputStream.OStream.FromBuffer | PlateChat_Swift5/Pods/nanopb/pb_encode.c:86-101 | An empty stream at the start of the buffer, limited to bufsize |
| OutputStream.OStream.BufWrite | PlateChat_Swift5/Pods/nanopb/pb_encode.c:74-84 | Writes the bytes at the cursor and nothing else |
| OutputStream.OStream.Write | PlateChat_Swift5/Pods/nanopb/pb_encode.c:103-127 | All or nothing: succeeds exactly when the bytes fit, or when the stream only sizes; a failed write changes nothing |
| OutputStream.OStream.EncodeVarint | PlateChat_Swift5/Pods/nanopb/pb_encode.c:608-628 | Appends the varint; success exactly when it fits |
| OutputStream.OStream.EncodeSvarint | PlateChat_Swift5/Pods/nanopb/pb_encode.c:630-639 | Appends the ZigZag varint; success exactly when it fits |
| OutputStream.OStream.EncodeFixed32 | PlateChat_Swift5/Pods/nanopb/pb_encode.c:641-650 | Appends the four bytes, least significant first; success exactly when they fit |
| OutputStream.OStream.EncodeFixed64 | PlateChat_Swift5/Pods/nanopb/pb_encode.c:653-666 | Appends the eight bytes, least significant first; success exactly when they fit |
| OutputStream.OStream.EncodeTag | PlateChat_Swift5/Pods/nanopb/pb_encode.c:669-673 | Appends the common varint of field number and wire type |
| OutputStream.OStream.EncodeString | PlateChat_Swift5/Pods/nanopb/pb_encode.c:709-715 | Appends length prefix and contents; success exactly when both fit |
| OutputStream.ThenAppended | PlateChat_Swift5/Pods/nanopb/pb_encode.c:103-127 | Output accounting composes: the outcome of two writes, sizes, limits, unchanged bytes and all, is that of one write of both |
| OutputStream.SubstreamAppended | PlateChat_Swift5/Pods/nanopb/pb_encode.c:741-764 | What a substream writes up to its own limit is what its parent appends; and it writes exactly that limit, so a changed size cannot occur |
| PbEncode.CheckProto3Default | PlateChat_Swift5/Pods/nanopb/pb_encode.c:240-337 | Refines the specification of implicit presence for one value, and is true exactly for zero, empty and wholly absent contents |
| PbEncode.CheckZeroBytes | PlateChat_Swift5/Pods/nanopb/pb_encode.c:317-335 | The byte-per-byte loop is true exactly when all bytes are zero |
| PbEncode.CheckAllDefault | PlateChat_Swift5/Pods/nanopb/pb_encode.c:288-306 | The loop over a submessage's fields is true exactly when all of them are at their zero |
| PbEncode.StringLength | PlateChat_Swift5/Pods/nanopb/pb_encode.c:875-899 | The loop counts the characters before the first NUL within the buffer |
| PbEncode.FixedSize | PlateChat_Swift5/Pods/nanopb/pb_encode.c:170-177 | The 4*count and 8*count shortcuts are the sizes that writing the items gives |
| PbEncode.PackedSize | PlateChat_Swift5/Pods/nanopb/pb_encode.c:168-192 | The sizing pass over a packed array gives exactly the size of what is written afterwards |
| PbEncode.EncodePackedContents | PlateChat_Swift5/Pods/nanopb/pb_encode.c:194-221 | The contents are appended item by item when writing, or counted at once from the sizing pass; either way success is exactly fitting |
| PbEncode.EncodeArrayField | PlateChat_Swift5/Pods/nanopb/pb_encode.c:147-236 | encode_array appends the specification's records, which Conformance.PackedArraySays and Conformance.EncodesExactly pin down; success exactly when there are some and they fit |
| PbEncode.EncodeBasicField | PlateChat_Swift5/Pods/nanopb/pb_encode.c:341-425 | encode_basic_field appends the specification's records of one field; success exactly when there are some and they fit |
| PbEncode.EncodeMessage | PlateChat_Swift5/Pods/nanopb/pb_encode.c:528-550 | pb_encode appends exactly the specification's bytes, and succeeds exactly when the message can be encoded and the bytes fit; on failure too the cursor keeps its distance from bytes_written, earlier bytes stay and nothing beyond the limit is written |
| PbEncode.EncodeSubmessage | PlateChat_Swift5/Pods/nanopb/pb_encode.c:717-765 | Sizing pass, length and writing pass agree at every depth: the length prefix is that of the payload that follows, and success is again exactly fitting |
| PbEncode.EncodeSecondPass | PlateChat_Swift5/Pods/nanopb/pb_encode.c:741-764 | The second pass writes exactly the size found by the first, so 'submsg size changed' is unreachable for messages below 2^64 bytes |
| PbEncode.EncodeDelimitedMessage | PlateChat_Swift5/Pods/nanopb/pb_encode.c:552-555 | pb_encode_delimited, the same with a length prefix |
| PbEncode.EncodeNullTerminatedMessage | PlateChat_Swift5/Pods/nanopb/pb_encode.c:557-565 | pb_encode_nullterminated, the same with a zero behind the message |
| PbEncode.GetEncodedSize | PlateChat_Swift5/Pods/nanopb/pb_encode.c:567-576 | pb_get_encoded_size is exact, and succeeds exactly when the message can be encoded |
| EndToEnd.EncodeInto | PlateChat_Swift5/Pods/nanopb/pb_encode.c:567-576 | Sizing first and then encoding into a buffer of at least that size always succeeds, and touches only the bytes of the message |
| EndToEnd.EncodeThenDecode | PlateChat_Swift5/Pods/nanopb/pb_decode.c:1075-1087 | pb_encode into a buffer and pb_decode of the bytes written there works exactly when the buffer is large enough, leaves the prescribed bytes in it, and restores what can be observed |

## Left out

- Callback fields and custom stream callbacks: user code. A callback field makes encoding and decoding fail in the model, and streams are buffers or the sizing stream; io errors do not occur.
- Pointer fields and the PB_ENABLE_MALLOC code, with pb_release: off by default. A pointer field makes both sides fail, as decoding does without malloc.
- Extension fields: their handlers are user code. The encoder's descriptors have no placeholder, and the decoder finds none.
- errmsg strings, PB_WITHOUT_64BIT, PB_BUFFER_ONLY, PB_ENCODE_ARRAYS_UNPACKED and the old callback style: build variants without logic of their own.
- The struct's memory is a sequence of slots, one for each field or oneof, and not bytes that are written in place; `FieldIter.SlotsAreDisjoint` is the link to addresses. The contents of the struct after a failed decode are not modelled.
- Items whose memory was never written are a value of their own (`Garbage`), and encoding them fails. After pb_decode these are the items of fixed-count arrays that were not received: set-to-default writes only a count there, into the first item's bytes.
- The bytes of a union when a oneof submessage replaces another member are the submessage's defaults; the memset before that, for its callbacks, is not modelled.
- bytes_written and sizes are unbounded numbers: the writers' contracts speak of outputs below 2^64 bytes, where size_t does not wrap.
- Descriptor entries are taken to fit their C types, a bool to have one byte, and pointers to submessage descriptors to form no cycle (recursive message types need pointer fields).
- DecodedMessagesReencode: not for structs with unwritten items in fixed-count arrays; what the encoder would send for those is whatever the memory held.
- MergeByConcatenation: not where the first part has received a fixed-count array, since its run may go on in the second; `Records.ConcatenationSplits` covers that, and for encoded messages `Framing.EncodedMessagesMerge` says exactly when. And not behind a zero tag, which ends the message.
- SubmessagesConcatenate: the same restriction on the first payload.
- SameBytesExactly: for encodings below 2^32 bytes, like MessageRoundTrip.
- SentExactly, AcceptedExactly, ReadVarint32Exactly, TagExactly, BlockExactly, BoolExact: up to 37 bytes, where the bit position wraps (`Varint.WidthExactly`).
- ItemsAreStored: for numbers below 2^64, bools below 2^32 and blocks below 2^32 bytes in minimal varints; padded ones are covered by the exact statements on varints. Submessages are covered by the merging results.
- LastRecordDecides, ArraysCollect: not for submessages, which merge or start anew (`Order.MergesExactly`, `RoundTrip.MessageMerges`), nor for fixed-count arrays (`Arrays.FixedCountRunsAreComplete`).
- MessageRoundTrip: for encodings below 2^32 bytes, since the decoder reads length prefixes into 32 bits.
- pb_decode_delimited_noinit differs from pb_decode_delimited only in the missing defaults and has no member of its own.
- The Swift app: views, Rx and Firestore calls, and small pure helpers. Easy members or unseen libraries.
