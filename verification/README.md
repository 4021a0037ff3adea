# The protobuf codec of the game messages

`game66/common/cs_msg/cpp` holds message classes generated for Protocol Buffers 2.5. This project models what
those classes do - parse, size, serialize, clear, merge, copy and swap - and proves that the pieces fit: the parser
undoes the serializer, the sizes are exact, the fast path and the masked guards change nothing, and no run of
operations leaves the invariant they all rely on.

## How it is built

Meaning first, on values:

- `Varint`, `Wire`: varints, tags, records, groups and length prefixes, after the sections "Base 128 Varints",
  "Message Structure", "Length-Delimited Records", "Packed Repeated Fields" and "Last One Wins" of the Protocol
  Buffers Encoding specification. `Wire` reads records without knowing any message; `Record.Cut` is a
  length-delimited record whose prefix reaches past the input.
- `Codec`: a message is a list of values, one per field of its table, and its unknown records. `Serialize`, `Parse`
  (a loop that only reads a tag and dispatches on it), `Merge`, and the invariant `Valid`. An `Outcome` says how a
  parse ended: at the end of its input, at a zero or malformed tag, at an end-group tag, or with failure, and the
  message it leaves in each case. `Parse` terminates by one measure: the nesting left in the field table, then the
  bytes left, then the step within one tag.
- `RoundTrip`, `Sizes`, `SizeBounds`, `Invariants`, `Merging`, `Failures`, `Orders`: the theorems, for every field
  table but the play logs' size bounds.
- `Runs`: what a caller observes of each operation of a run, and that everything else stays as it was.
- `Tables`: the field tables of the messages modelled here. `WireBytes` and `Formats`: what records and messages are
  as bytes, written out key by key, so that nothing rests on reader and writer agreeing with each other alone.
  `PresenceBits`: the has-bits word and its group masks.

Then the code, as classes whose methods update their fields:

- `Stream`, `WireFormatLite`: the library calls the generated code makes, with position, pushed limit, recursion
  budget and the legitimate-end flag. `ExpectTag` and `ExpectAtEnd` may answer false at will.
- `Generated`: the steps the generated methods share, one field at a time.
- `Cards` (`msg_cards`, and `bainiu_play_log`, whose generated code is the same), `BaccaratPlayLogs`
  (`baccarat_play_log` and its reply), `BainiuPlayLogs` (the reply), `BainiuGameEnds` (`msg_bainiu_game_end`),
  `BaccaratGameInfo` (`msg_baccarat_game_info_play_rep`) and `ApplyLists` (`msg_baccarat_apply_list`). The `goto`
  between cases is the variable `jumped`: the loop goes on at the label of field `num` instead of reading a tag. A
  ghost `view`, or `View()`, is the message an object stands for, and every method is proved against the functions of
  `Codec` on it.
- `Heaps`, `Programs`: a program of any length carried out on objects leaves in them the messages of the run.
- `Packets`: how a message is put into a packet and taken out again. `Limits`: real messages beyond the packet size and
  the recursion limit.

Choices a reader should know:

- The classes hold `_has_bits_[0]` as a 32-bit word and test and update it with the masks of the code. Their
  invariants speak of the set of its one bits; `PresenceBits` proves what each mask operation does to that set.
- The library clamps a length prefix that reaches past the enclosing limit; the encoding specification calls such
  input malformed. `Env.clamp` selects either, and every theorem holds for both unless it says so. Concatenation of
  inputs is merge only for inputs without such a prefix: `ComposesExactlyWhenWhole` gives the exact condition and
  `ClampedInputsNeedNotCompose` a pair that shows it.
- The recursion limit is `Env.depth`. A message nested deeper than the reader's limit does not come back;
  `RoundTripExactlyWhenItFits` gives the exact condition, and `RepliesCanOutgrowTheLimit` a reply, built by parses
  within the limit, that the limit refuses.
- `SendProtobufMsg` does not look at the result of `SerializeToArray`, so a message of more than 16375 bytes does not
  arrive; `ArrivesExactlyWhenItFits` says what arrives instead, and `ManyCardsArriveAsNone` shows one that arrives empty.
- Unknown records are any that a switch sends to `handle_uninterpreted`: an unlisted field number, or a listed one
  with a wire type its case does not take. A scalar list takes single and packed records. When SkipField fails inside
  such a record, what it had read so far stays in the unknown fields, as in the library.
- Sizes and lengths are C++ `int`s: a length prefix of 2^31 or more is no length, and sizes are stated below 2^31 bytes.

`dafny verify dfyconfig.toml` checks the whole project.

## Model

| member | source | states |
|---|---|---|
| Varint.VarintRoundTrip | game66/common/cs_msg/cpp/bainiu_logic_msg.pb.cc:3317-3317 | Every 64-bit number a writer emits is read back whole, whatever bytes follow; a 32-bit read gives its low 32 bits; at most ten bytes are used |
| Varint.EncodedDigits | game66/common/cs_msg/cpp/bainiu_logic_msg.pb.cc:3317-3317 | The bytes written for a number: all but the last are at least 128, the last is below 128 and idle only for zero, and their low seven bits, the first byte counting least, add up to the number |
| Varint.ReadersTakeLowBits | game66/common/cs_msg/cpp/bainiu_logic_msg.pb.cc:2947-2949 | On any bytes, over-long forms included: a varint of at most ten bytes reads as the low 64 or 32 bits of what its digits add up to, and anything else is malformed |
| Varint.SizeTablesAreExact | game66/common/cs_msg/cpp/bainiu_logic_msg.pb.cc:3388-3389 | The 32-bit threshold table and the 64-bit comparison tree count exactly the bytes the varint writer emits, for every value |
| Wire.PayloadRoundTrip | game66/common/cs_msg/cpp/bainiu_logic_msg.pb.cc:3375-3376 | A written unknown record, groups within groups included, reads back as itself before any tail if its groups fit the recursion limit left, and is refused otherwise |
| Wire.ReadIsStorable | game66/common/cs_msg/cpp/bainiu_logic_msg.pb.cc:3201-3202 | Whatever SkipField puts into the unknown field set - a whole record, or what it had read of one when it failed - can be written again, and its groups fitted the recursion limit |
| Wire.PayloadIsLocal | game66/common/cs_msg/cpp/bainiu_logic_msg.pb.cc:3201-3202 | What a record reads as depends only on the bytes it consumes: any other tail leaves the result the same |
| Wire.UnknownSizeIsExact | game66/common/cs_msg/cpp/bainiu_logic_msg.pb.cc:3504-3505 | ComputeUnknownFieldsSize is the number of bytes the unknown records are written as |
| WireBytes.RecordBytes | game66/common/cs_msg/cpp/bainiu_logic_msg.pb.cc:3375-3376 | A record is the varint of eight times its number plus 0, 1, 2, 3 or 5, then its payload, with a length before delimited bytes and eight times the number plus 4 behind a group |
| WireBytes.FixedWidthBytes | game66/common/cs_msg/cpp/bainiu_logic_msg.pb.cc:3201-3202 | 0x09 and eight bytes, 0x0D and four, are kept as they are whatever the message; with fewer bytes the parse fails and nothing is kept |
| WireBytes.GroupBytes | game66/common/cs_msg/cpp/bainiu_logic_msg.pb.cc:3196-3203 | 0x0B 0x0C is kept as an empty group if the recursion limit has a level left and fails otherwise; 0x0C alone ends the loop |
| WireBytes.NoSuchWireType | game66/common/cs_msg/cpp/bainiu_logic_msg.pb.cc:2937-3209 | 0x0E and 0x0F fail with nothing kept; a zero byte stops the loop without failing it and is consumed |
| WireBytes.TornRecordStays | game66/common/cs_msg/cpp/bainiu_logic_msg.pb.cc:3201-3202 | A delimited record of no field whose payload is cut off fails and leaves the bytes that were there, or none if its length is negative as an int |
| WireBytes.TornGroupStays | game66/common/cs_msg/cpp/bainiu_logic_msg.pb.cc:3201-3202 | A group that ends with the input, under another group's end tag or inside a record fails and stays with its whole records and what there was of the last one |
| WireBytes.InnerGroupFails | game66/common/cs_msg/cpp/bainiu_logic_msg.pb.cc:3201-3202 | A group inside a group that fails stays in it with what it had, or not at all if the recursion limit kept it from starting |
| Codec.KindRoundTrip | game66/common/cs_msg/cpp/bainiu_logic_msg.pb.cc:3086-3088 | uint32, int32 and int64 values survive widening to a 64-bit varint and truncation back, negative ones included |
| Codec.WireKeepsLowBits | game66/common/cs_msg/cpp/bainiu_logic_msg.pb.cc:3317-3317 | No zigzag: the number on the wire is the value modulo 2^64, and what is read is in range and has the low 64 bits of the number on the wire for int64 and the low 32 bits for uint32 and int32, also of numbers no writer emits |
| Codec.KindSizeIsExact | game66/common/cs_msg/cpp/bainiu_logic_msg.pb.cc:3388-3388 | UInt32Size, Int32Size and Int64Size count the bytes of the value as it is written |
| Sizes.Int32ElementSize | game66/common/cs_msg/cpp/bainiu_logic_msg.pb.cc:3344-3344 | A win_multiple element takes 11 bytes with its tag when negative, else 1 plus its 32-bit size; its low 32 bits give it back |
| RoundTrip.ParseUndoesSerialize | game66/common/cs_msg/cpp/bainiu_logic_msg.pb.cc:6298-6312 | Parsing what was serialized (less than 2^31 bytes) from a message that fits the recursion limit consumes every byte and gives back presence bits, scalars, lists, nested messages and unknown records in order |
| RoundTrip.RoundTripExactlyWhenItFits | game66/common/cs_msg/cpp/bainiu_logic_msg.pb.cc:6247-6282 | For every message with one-byte tags and less than 2^31 bytes: the serialized form comes back as that message if and only if no group or nested message lies deeper than the reader's recursion limit, and fails to parse otherwise |
| RoundTrip.UnknownRestored | game66/common/cs_msg/cpp/bainiu_logic_msg.pb.cc:6269-6276 | Stored records the parser would not interpret come back as unknown records, all of them and in order, on top of what was there |
| RoundTrip.TooDeepIsRefused | game66/common/cs_msg/cpp/baccarat_logic_msg.pb.cc:6364-6365 | A message nested deeper than the recursion limit makes the parser return false, whatever message it parses into |
| Formats.CardsFormat | game66/common/cs_msg/cpp/base_msg_struct.pb.cc:23773-23786 | A card list is valid exactly when its values are uint32, and is written as 0x08 and a varint for each, then the unknown records |
| Formats.PlayLogFormat | game66/common/cs_msg/cpp/baccarat_logic_msg.pb.cc:6102-6144 | A log is valid exactly when its seven values are uint32 with 0 where absent, and is written as 0x08, 0x10, 0x18, 0x20, 0x28, 0x30, 0x38 and a varint for those present, then the unknown records |
| Formats.PlayLogRepFormat | game66/common/cs_msg/cpp/baccarat_logic_msg.pb.cc:6404-6418 | A reply is written as 0x0A, a length and the log for each log, then the unknown records |
| Formats.BainiuPlayLogRepFormat | game66/common/cs_msg/cpp/bainiu_logic_msg.pb.cc:6298-6312 | A reply is written as 0x0A, a length and the seats for each log, then the unknown records |
| Formats.GameInfoPlayFormat | game66/common/cs_msg/cpp/baccarat_logic_msg.pb.cc:1388-1454 | The range and sign of each of the 11 fields, exactly, and the bytes of the message, key by key in field order |
| Formats.GameEndFormat | game66/common/cs_msg/cpp/bainiu_logic_msg.pb.cc:3295-3379 | The range and sign of each of the 14 fields, exactly, and the bytes of the message, key by key in field order; card lists are nested, win_multiple is int32, the scores are int64 |
| Formats.ApplyListFormat | game66/common/cs_msg/cpp/baccarat_logic_msg.pb.cc:4702-4721 | player_ids are uint32, apply_score int64, exactly; the bytes are 0x08 and a varint for each id, 0x10 and a varint for each score, then the unknown records |
| Formats.ApplyListComesBack | game66/common/cs_msg/cpp/baccarat_logic_msg.pb.cc:4702-4721 | For all uint32 ids and int64 scores, those bytes (less than 2^31) parse to exactly the two lists |
| Sizes.ByteSizeIsExact | game66/common/cs_msg/cpp/baccarat_logic_msg.pb.cc:6420-6440 | ByteSize, with its one byte per tag and its length prefixes, equals the number of serialized bytes, for messages whose size fits 32 bits |
| Generated.SizeIgnoresOrder | game66/common/cs_msg/cpp/bainiu_logic_msg.pb.cc:3381-3511 | Summing the field sizes in any order that visits each field once gives the same total as field order |
| SizeBounds.PlayLogIsSmall | game66/common/cs_msg/cpp/baccarat_logic_msg.pb.cc:6146-6209 | A log without unknown records takes at most 42 bytes, 0 exactly when it is the fresh message, and its length prefix is one byte |
| SizeBounds.ReplyIsBounded | game66/common/cs_msg/cpp/baccarat_logic_msg.pb.cc:6420-6440 | A reply of n such logs takes between 2n and 44n bytes |
| Invariants.ParseKeepsValid | game66/common/cs_msg/cpp/baccarat_logic_msg.pb.cc:5926-6057 | Any parse, successful or failed, leaves widths in range, defaults behind clear presence bits, and only unknown records the parser would not interpret; a successful one fits the recursion limit |
| Invariants.NormalFormIsFixed | game66/common/cs_msg/cpp/baccarat_logic_msg.pb.cc:4616-4680 | Whatever complete input a message came from - over-long varints, packed lists, repeated or reordered fields - serializing it (in less than 2^31 bytes) and parsing that gives the same message again |
| Invariants.MergeKeepsValid | game66/common/cs_msg/cpp/bainiu_logic_msg.pb.cc:3525-3562 | MergeFrom keeps the invariant: defaults behind clear bits, widths, and foreign unknown records |
| Invariants.EditKeepsValid | game66/common/cs_msg/cpp/baccarat_logic_msg.pb.h:2227-2475 | Each setter, clearer, list edit, Clear and parse keeps the invariant of the message it is called on |
| Invariants.EveryRunKeepsValid | game66/common/cs_msg/cpp/baccarat_logic_msg.pb.h:2227-2475 | Every finite program of constructors, setters, clearers, list edits, parses (failed ones too), Clear, MergeFrom, CopyFrom and Swap, on any number of messages of any types and on the messages inside them, keeps the invariant in all of them |
| Invariants.SameTypeIsApart | game66/common/cs_msg/cpp/bainiu_logic_msg.pb.cc:3581-3601 | Of two messages of one type neither is inside the other, so changing one by Swap, CopyFrom or MergeFrom leaves the other as it is |
| Runs.SetScalarDoes | game66/common/cs_msg/cpp/baccarat_logic_msg.pb.h:3562-3565 | Afterwards the field reads as present with the value given; no other field and no unknown record differs |
| Runs.ClearScalarDoes | game66/common/cs_msg/cpp/baccarat_logic_msg.pb.h:3555-3558 | Afterwards the field reads as absent and 0; nothing else differs |
| Runs.AddIntDoes | game66/common/cs_msg/cpp/baccarat_logic_msg.pb.h:3315-3317 | The list has one more element, at its end; nothing else differs |
| Runs.SetIntDoes | game66/common/cs_msg/cpp/baccarat_logic_msg.pb.h:3312-3314 | That element reads the value given and every other element what it was; nothing else differs |
| Runs.ClearListDoes | game66/common/cs_msg/cpp/baccarat_logic_msg.pb.h:3306-3308 | The list is empty; nothing else differs |
| Runs.AddNestedDoes | game66/common/cs_msg/cpp/baccarat_logic_msg.pb.h:3716-3718 | The list has one more element, at its end, all of whose fields are absent or empty; nothing else differs |
| Runs.ClearAllDoes | game66/common/cs_msg/cpp/baccarat_logic_msg.pb.cc:5912-5924 | Every scalar is absent and 0, every list empty, and no unknown record is left |
| Runs.ParseIntoDoes | game66/common/cs_msg/cpp/baccarat_logic_msg.pb.cc:5926-6057 | A parse, failed ones too, merges in what a parse into an empty message gives |
| Runs.EditAtDoes | game66/common/cs_msg/cpp/baccarat_logic_msg.pb.h:2227-2475 | An edit changes the message it names as it would on its own, and no message that is neither around it nor inside it |
| Runs.OwnerSees | game66/common/cs_msg/cpp/baccarat_logic_msg.pb.h:3713-3715 | A message around the edited one has that element replaced, and no other element, field or unknown record |
| Runs.MergeFromDoes | game66/common/cs_msg/cpp/bainiu_logic_msg.pb.cc:3525-3562 | Field by field: present scalars of the source overwrite, its lists and unknown records are appended; the source and all messages elsewhere keep theirs |
| Runs.CopyFromDoes | game66/common/cs_msg/cpp/bainiu_logic_msg.pb.cc:3570-3574 | The target reads as the source whatever it held; the source and all messages elsewhere keep theirs |
| Runs.SwapDoes | game66/common/cs_msg/cpp/bainiu_logic_msg.pb.cc:3581-3601 | Each side reads as the other did; all messages elsewhere keep theirs |
| Programs.EditLog | game66/common/cs_msg/cpp/baccarat_logic_msg.pb.h:3543-3720 | Each edit of a log in a run is what the method of the class does to the object |
| Programs.EditReply | game66/common/cs_msg/cpp/baccarat_logic_msg.pb.cc:6353-6388 | The same for a reply; logs it gains are new objects |
| Programs.Perform | game66/common/cs_msg/cpp/baccarat_logic_msg.pb.cc:6454-6458 | Any operation on objects - new, edits, MergeFrom, CopyFrom and Swap, of logs, replies and logs inside replies - leaves in all objects the messages that the run's step gives, each object still at one place only |
| Programs.Execute | game66/common/cs_msg/cpp/baccarat_logic_msg.pb.cc:6353-6388 | Any whole program over logs and replies, carried out on objects with their presence bits, masks and jumping loops, leaves in them exactly the messages of the run |
| ApplyLists.EditApplyList | game66/common/cs_msg/cpp/baccarat_logic_msg.pb.cc:4616-4680 | Each edit of an apply list in a run is what the method of the class does to the object |
| Generated.DefaultBehindClearBit | game66/common/cs_msg/cpp/baccarat_logic_msg.pb.h:2276-2298 | In a valid message a scalar whose presence bit is clear holds its default |
| PresenceBits.TestOfBit | game66/common/cs_msg/cpp/baccarat_logic_msg.pb.h:2277-2279 | The test of has_f holds exactly when its bit is among the one bits of the word |
| PresenceBits.SetOneBit | game66/common/cs_msg/cpp/baccarat_logic_msg.pb.h:2280-2282 | Or-ing the mask of a bit into the word adds that bit to its one bits and no other |
| PresenceBits.ClearOneBit | game66/common/cs_msg/cpp/baccarat_logic_msg.pb.h:2283-2285 | And-ing the complement of its mask takes a bit out of the one bits and no other |
| PresenceBits.GuardsTestTheirBits | game66/common/cs_msg/cpp/baccarat_logic_msg.pb.cc:1094-1101 | The mask tests at bits 0, 2 and 9 of the has-bits word hold exactly when one of the eight bits from there is set; the one at bit 2 reaches bit 9, which belongs to the next group |
| Merging.ParseUnderMerge | game66/common/cs_msg/cpp/baccarat_logic_msg.pb.cc:5926-6057 | Parsing into a message is parsing into a fresh one and merging the result, for every outcome, failures included |
| Merging.ConcatenationIsMerge | game66/common/cs_msg/cpp/baccarat_logic_msg.pb.cc:1113-1320 | Two complete inputs in a row, the first with no length prefix that reaches past its end, parse as one complete input that holds the MergeFrom of the two messages |
| Merging.ComposesExactlyWhenWhole | game66/common/cs_msg/cpp/baccarat_logic_msg.pb.cc:1113-1320 | A complete input can be continued by every other input if and only if no length prefix in it reaches past its end; a reader that does not clamp limits only accepts such inputs |
| Merging.SerializedConcatenationIsMerge | game66/common/cs_msg/cpp/baccarat_logic_msg.pb.cc:1570-1604 | The serialized forms of two messages that fit the recursion limit, in a row, parse as their MergeFrom |
| Merging.MergeIsAssociative | game66/common/cs_msg/cpp/bainiu_logic_msg.pb.cc:3525-3562 | MergeFrom is associative: presence, last scalar, list order, nested messages and unknown records |
| Merging.MergeFresh | game66/common/cs_msg/cpp/bainiu_logic_msg.pb.cc:3525-3562 | Merging a fresh message changes nothing |
| Merging.CopyIsExactlyForDefaults | game66/common/cs_msg/cpp/bainiu_logic_msg.pb.cc:3570-3574 | Clear then MergeFrom reproduces a message if and only if nothing but defaults lies behind its clear presence bits, which every valid message satisfies |
| Generated.MergeEnds | game66/common/cs_msg/cpp/bainiu_logic_msg.pb.cc:3525-3562 | Visiting the fields in any order that takes each once - lists first and scalars after, or field order - amounts to the same merge |
| Generated.AbsentKeeps | game66/common/cs_msg/cpp/bainiu_logic_msg.pb.cc:3550-3560 | A group of scalars that are all absent in the source may be skipped without changing the merge |
| Orders.PackedRoundTrip | game66/common/cs_msg/cpp/baccarat_logic_msg.pb.cc:4633-4635 | Packed elements are read back in order, to the last byte of the payload |
| Orders.MixedEncodingsAgree | game66/common/cs_msg/cpp/baccarat_logic_msg.pb.cc:4616-4680 | However player_ids and apply_score are cut into packed and single records, and however the records of the lists are interleaved, each list gets its own elements in order and nothing else changes |
| Formats.ApplyListReads | game66/common/cs_msg/cpp/baccarat_logic_msg.pb.cc:4616-4680 | Any sequence of records - 0x08 or 0x10 and one number, 0x0A or 0x12, a length and any number of them - parses to exactly the ids of the one and the scores of the other, in order |
| Formats.PackedApplyListReads | game66/common/cs_msg/cpp/baccarat_logic_msg.pb.cc:4616-4680 | Both lists packed, one record each, parse to exactly those lists |
| Formats.OverlongListReads | game66/common/cs_msg/cpp/baccarat_logic_msg.pb.cc:4633-4635 | A packed list whose length reaches past the input gives its elements to a reader that clamps, and is refused with nothing kept by one that does not |
| Orders.OrderAcrossFieldsIsFree | game66/common/cs_msg/cpp/baccarat_logic_msg.pb.cc:4616-4680 | Two record sequences that agree per field, and in their unknown records, have the same effect on every message |
| Orders.NeighboursMayChangePlaces | game66/common/cs_msg/cpp/baccarat_logic_msg.pb.cc:4616-4680 | Two neighbouring records of different fields, or of a field and an unknown number, may change places in any complete input |
| Orders.ReorderedInputsParseAlike | game66/common/cs_msg/cpp/baccarat_logic_msg.pb.cc:4616-4680 | So any complete input parses like every other input whose records agree per field, whatever their order across fields and however tags, lengths and numbers were encoded |
| Failures.FailedParse | game66/common/cs_msg/cpp/baccarat_logic_msg.pb.cc:5926-6057 | A failed parse leaves what the whole records before the failing one give, and on top of that exactly what the failing record adds before it fails: at most one list grown at its end, a message list by one element, or one unknown record |
| Failures.FailsExactlyAtOneRecord | game66/common/cs_msg/cpp/baccarat_logic_msg.pb.cc:5926-6057 | A parse fails if and only if it comes to a record that cannot be read or not be taken in behind whole records that parse to their end, and that record is the only such one |
| Failures.FailedElement | game66/common/cs_msg/cpp/baccarat_logic_msg.pb.cc:6364-6365 | A nested message that fails halfway stays as the last element of its list, with exactly what its own payload gave before it failed |
| BaccaratPlayLogs.ClampedInputsNeedNotCompose | game66/common/cs_msg/cpp/baccarat_logic_msg.pb.cc:6353-6388 | A concrete pair of replies, each complete for a clamping reader, whose concatenation parses completely but not to their merge |
| Stream.CodedInputStream.ReadTag | game66/common/cs_msg/cpp/bainiu_logic_msg.pb.cc:2941-2941 | 0 at the limit, for a zero tag and for a malformed one, and only at the limit the legitimate-end flag; otherwise the tag |
| Stream.CodedInputStream.ExpectTag | game66/common/cs_msg/cpp/bainiu_logic_msg.pb.cc:2954-2954 | True only if the tag is next, which it then consumes; may be false even so, and then consumes nothing |
| Stream.CodedInputStream.ExpectAtEnd | game66/common/cs_msg/cpp/bainiu_logic_msg.pb.cc:3191-3191 | True only at the limit, and then the legitimate-end flag is set; may be false even so |
| Generated.FollowedMeans | game66/common/cs_msg/cpp/baccarat_logic_msg.pb.cc:1137-1137 | Where a jump lands is where the plain loop gets by reading the tag and dispatching on it |
| WireFormatLite.ReadPrimitive | game66/common/cs_msg/cpp/bainiu_logic_msg.pb.cc:2947-2949 | Continues as the plain loop with the scalar set, or fails with the message untouched |
| WireFormatLite.ReadRepeatedPrimitive | game66/common/cs_msg/cpp/bainiu_logic_msg.pb.cc:2978-2980 | However many elements it takes in one go, the plain loop goes on from where it stops with those elements appended; on failure the elements read stay |
| WireFormatLite.ReadPackedPrimitive | game66/common/cs_msg/cpp/bainiu_logic_msg.pb.cc:2984-2986 | The same for a packed payload, which must end on an element boundary |
| WireFormatLite.ReadUnknown | game66/common/cs_msg/cpp/bainiu_logic_msg.pb.cc:3201-3202 | A skipped record is stored as one the parser would not interpret, and the plain loop goes on behind it; a record that cannot be read to its end leaves what was read of it, as one the parser would not interpret |
| WireFormatLite.WriteToArray | game66/common/cs_msg/cpp/bainiu_logic_msg.pb.cc:3299-3299 | Writes tag and varint of one scalar at the given position, returns the position behind, and touches no other byte |
| Generated.WriteOptional | game66/common/cs_msg/cpp/bainiu_logic_msg.pb.cc:3298-3300 | With the fields before it written, a present scalar is written and an absent one is not, so that the fields up to this one are written |
| Generated.WriteList | game66/common/cs_msg/cpp/bainiu_logic_msg.pb.cc:3310-3313 | The same for a list of scalars, element by element |
| Generated.ListSize | game66/common/cs_msg/cpp/bainiu_logic_msg.pb.cc:3455-3459 | data_size plus one byte per element is the size of the list's records |
| Cards.MsgCards.MergePartialFromCodedStream | game66/common/cs_msg/cpp/base_msg_struct.pb.cc:23715-23757 | For every input and every sequence of answers of ExpectTag and ExpectAtEnd, the jumping loop ends in the message, return value, unread input and end flag of the loop that only reads tags and dispatches; it terminates; on success limit and recursion budget are restored |
| Cards.MsgCards.ByteSize | game66/common/cs_msg/cpp/base_msg_struct.pb.cc:23788-23810 | Returns and caches the exact size |
| Cards.MsgCards.SerializeWithCachedSizesToArray | game66/common/cs_msg/cpp/base_msg_struct.pb.cc:23773-23786 | Writes exactly the serialized bytes at the given position, returns the position behind them, and leaves the rest of the buffer alone |
| Cards.MsgCards.Clear | game66/common/cs_msg/cpp/base_msg_struct.pb.cc:23709-23713 | Leaves the fresh message, whatever was held |
| Cards.MsgCards.MergeFrom | game66/common/cs_msg/cpp/base_msg_struct.pb.cc:23824-23828 | Leaves the merge of the old message and the source; the source is not touched |
| Cards.MsgCards.CopyFrom | game66/common/cs_msg/cpp/base_msg_struct.pb.cc:23836-23840 | Leaves the source's message, whatever the target held |
| Cards.MsgCards.Swap | game66/common/cs_msg/cpp/base_msg_struct.pb.cc:23847-23854 | Exchanges the two messages and their cached sizes |
| Cards.ReadLast | game66/common/cs_msg/cpp/bainiu_logic_msg.pb.cc:2963-2964 | The element just added gets exactly what the plain loop gives for its payload, and the outer loop goes on behind it; if the payload is not one whole message the read fails and the partly filled element stays |
| Cards.SizeAll | game66/common/cs_msg/cpp/bainiu_logic_msg.pb.cc:3445-3450 | The tags, length prefixes and payloads of all elements, each element left with its exact size cached |
| Cards.WriteAll | game66/common/cs_msg/cpp/bainiu_logic_msg.pb.cc:3303-3307 | With current cached sizes, every element is written behind an exact length prefix |
| Cards.MergeList | game66/common/cs_msg/cpp/bainiu_logic_msg.pb.cc:3527-3527 | Appends a fresh, equal copy of each element; elements already there stay the same objects |
| BaccaratPlayLogs.BaccaratPlayLog.MergePartialFromCodedStream | game66/common/cs_msg/cpp/baccarat_logic_msg.pb.cc:5926-6057 | For every input and every sequence of answers of ExpectTag and ExpectAtEnd, the jumping loop ends in the message, return value, unread input and end flag of the loop that only reads tags and dispatches; it terminates; on success limit and recursion budget are restored |
| BaccaratPlayLogs.BaccaratPlayLog.ByteSize | game66/common/cs_msg/cpp/baccarat_logic_msg.pb.cc:6146-6209 | Returns and caches the exact size |
| BaccaratPlayLogs.BaccaratPlayLog.SerializeWithCachedSizesToArray | game66/common/cs_msg/cpp/baccarat_logic_msg.pb.cc:6102-6144 | Writes exactly the serialized bytes at the given position, returns the position behind them, and leaves the rest of the buffer alone |
| BaccaratPlayLogs.BaccaratPlayLog.Clear | game66/common/cs_msg/cpp/baccarat_logic_msg.pb.cc:5912-5924 | Leaves the fresh message, whatever was held |
| BaccaratPlayLogs.BaccaratPlayLog.MergeFrom | game66/common/cs_msg/cpp/baccarat_logic_msg.pb.cc:6223-6249 | Leaves the merge of the old message and the source; the source is not touched |
| BaccaratPlayLogs.BaccaratPlayLog.CopyFrom | game66/common/cs_msg/cpp/baccarat_logic_msg.pb.cc:6257-6261 | Leaves the source's message, whatever the target held |
| BaccaratPlayLogs.BaccaratPlayLog.Swap | game66/common/cs_msg/cpp/baccarat_logic_msg.pb.cc:6268-6281 | Exchanges the two messages and their cached sizes |
| BaccaratPlayLogs.MsgBaccaratPlayLogRep.MergePartialFromCodedStream | game66/common/cs_msg/cpp/baccarat_logic_msg.pb.cc:6353-6388 | For every input and every sequence of answers of ExpectTag and ExpectAtEnd, the jumping loop ends in the message, return value, unread input and end flag of the loop that only reads tags and dispatches; it terminates; on success limit and recursion budget are restored |
| BaccaratPlayLogs.MsgBaccaratPlayLogRep.ByteSize | game66/common/cs_msg/cpp/baccarat_logic_msg.pb.cc:6420-6440 | Returns and caches the exact size, and leaves each nested element with its own exact size cached |
| BaccaratPlayLogs.MsgBaccaratPlayLogRep.SerializeWithCachedSizesToArray | game66/common/cs_msg/cpp/baccarat_logic_msg.pb.cc:6404-6418 | Writes exactly the serialized bytes at the given position, returns the position behind them, and leaves the rest of the buffer alone; element length prefixes are the cached sizes, exact when ByteSize was called last |
| BaccaratPlayLogs.MsgBaccaratPlayLogRep.Clear | game66/common/cs_msg/cpp/baccarat_logic_msg.pb.cc:6347-6351 | Leaves the fresh message, whatever was held |
| BaccaratPlayLogs.MsgBaccaratPlayLogRep.MergeFrom | game66/common/cs_msg/cpp/baccarat_logic_msg.pb.cc:6454-6458 | Leaves the merge of the old message and the source; the source is not touched |
| BaccaratPlayLogs.MsgBaccaratPlayLogRep.CopyFrom | game66/common/cs_msg/cpp/baccarat_logic_msg.pb.cc:6466-6470 | Leaves the source's message, whatever the target held; elements are fresh copies |
| BaccaratPlayLogs.MsgBaccaratPlayLogRep.Swap | game66/common/cs_msg/cpp/baccarat_logic_msg.pb.cc:6477-6484 | Exchanges the two messages and their cached sizes |
| BaccaratPlayLogs.MsgBaccaratPlayLogRep.ParseField | game66/common/cs_msg/cpp/baccarat_logic_msg.pb.cc:6364-6365 | Adds one log at the end, filled as the plain loop fills it; a log whose payload fails stays, partly filled |
| BaccaratPlayLogs.MsgBaccaratPlayLogRep.AddLogs | game66/common/cs_msg/cpp/baccarat_logic_msg.pb.h:3716-3718 | One fresh object holding the fresh message at the end; the other elements stay |
| ApplyLists.MsgBaccaratApplyList.MergePartialFromCodedStream | game66/common/cs_msg/cpp/baccarat_logic_msg.pb.cc:4616-4680 | For every input and every sequence of answers of ExpectTag and ExpectAtEnd, the jumping loop ends in the message, return value, unread input and end flag of the loop that only reads tags and dispatches; it terminates; on success limit and recursion budget are restored |
| ApplyLists.MsgBaccaratApplyList.ByteSize | game66/common/cs_msg/cpp/baccarat_logic_msg.pb.cc:4723-4755 | Returns and caches the exact size |
| ApplyLists.MsgBaccaratApplyList.SerializeWithCachedSizesToArray | game66/common/cs_msg/cpp/baccarat_logic_msg.pb.cc:4702-4721 | Writes exactly the serialized bytes at the given position, returns the position behind them, and leaves the rest of the buffer alone |
| ApplyLists.MsgBaccaratApplyList.Clear | game66/common/cs_msg/cpp/baccarat_logic_msg.pb.cc:4609-4614 | Leaves the fresh message, whatever was held |
| ApplyLists.MsgBaccaratApplyList.MergeFrom | game66/common/cs_msg/cpp/baccarat_logic_msg.pb.cc:4769-4774 | Leaves the merge of the old message and the source; the source is not touched |
| ApplyLists.MsgBaccaratApplyList.CopyFrom | game66/common/cs_msg/cpp/baccarat_logic_msg.pb.cc:4782-4786 | Leaves the source's message, whatever the target held |
| ApplyLists.MsgBaccaratApplyList.Swap | game66/common/cs_msg/cpp/baccarat_logic_msg.pb.cc:4793-4801 | Exchanges the two messages and their cached sizes |
| ApplyLists.MsgBaccaratApplyList.ParseField | game66/common/cs_msg/cpp/baccarat_logic_msg.pb.cc:4616-4680 | Each case of the switch reads its payload, single or packed, into its own list as the plain loop does; on failure the elements read stay |
| ApplyLists.MsgBaccaratApplyList.ParseFromArray | game66/server/server_frame/include/network/protobuf_pkg.h:34-40 | Clears the message and accepts exactly the inputs that are one whole message, ending in what the plain loop gives |
| BainiuPlayLogs.MsgBainiuPlayLogRep.MergePartialFromCodedStream | game66/common/cs_msg/cpp/bainiu_logic_msg.pb.cc:6247-6282 | For every input and every sequence of answers of ExpectTag and ExpectAtEnd, the jumping loop ends in the message, return value, unread input and end flag of the loop that only reads tags and dispatches; it terminates; on success limit and recursion budget are restored |
| BainiuPlayLogs.MsgBainiuPlayLogRep.ByteSize | game66/common/cs_msg/cpp/bainiu_logic_msg.pb.cc:6314-6334 | Returns and caches the exact size, and leaves each nested element with its own exact size cached |
| BainiuPlayLogs.MsgBainiuPlayLogRep.SerializeWithCachedSizesToArray | game66/common/cs_msg/cpp/bainiu_logic_msg.pb.cc:6298-6312 | Writes exactly the serialized bytes at the given position, returns the position behind them, and leaves the rest of the buffer alone; element length prefixes are the cached sizes, exact when ByteSize was called last |
| BainiuPlayLogs.MsgBainiuPlayLogRep.Clear | game66/common/cs_msg/cpp/bainiu_logic_msg.pb.cc:6241-6245 | Leaves the fresh message, whatever was held |
| BainiuPlayLogs.MsgBainiuPlayLogRep.MergeFrom | game66/common/cs_msg/cpp/bainiu_logic_msg.pb.cc:6348-6352 | Leaves the merge of the old message and the source; the source is not touched |
| BainiuPlayLogs.MsgBainiuPlayLogRep.CopyFrom | game66/common/cs_msg/cpp/bainiu_logic_msg.pb.cc:6360-6364 | Leaves the source's message, whatever the target held; elements are fresh copies |
| BainiuPlayLogs.MsgBainiuPlayLogRep.Swap | game66/common/cs_msg/cpp/bainiu_logic_msg.pb.cc:6371-6378 | Exchanges the two messages and their cached sizes |
| BainiuPlayLogs.MsgBainiuPlayLogRep.ParseField | game66/common/cs_msg/cpp/bainiu_logic_msg.pb.cc:6258-6259 | Adds one log at the end, filled as the plain loop fills it; a log whose payload fails stays, partly filled |
| BainiuPlayLogs.MsgBainiuPlayLogRep.AddLogs | game66/common/cs_msg/cpp/bainiu_logic_msg.pb.h:3638-3640 | One fresh object holding the fresh message at the end; the other elements stay |
| BainiuGameEnds.MsgBainiuGameEnd.MergePartialFromCodedStream | game66/common/cs_msg/cpp/bainiu_logic_msg.pb.cc:2937-3209 | For every input and every sequence of answers of ExpectTag and ExpectAtEnd, the jumping loop ends in the message, return value, unread input and end flag of the loop that only reads tags and dispatches; it terminates; on success limit and recursion budget are restored |
| BainiuGameEnds.MsgBainiuGameEnd.ByteSize | game66/common/cs_msg/cpp/bainiu_logic_msg.pb.cc:3381-3511 | Returns and caches the exact size, and leaves each nested element with its own exact size cached |
| BainiuGameEnds.MsgBainiuGameEnd.SerializeWithCachedSizesToArray | game66/common/cs_msg/cpp/bainiu_logic_msg.pb.cc:3295-3379 | Writes exactly the serialized bytes at the given position, returns the position behind them, and leaves the rest of the buffer alone; element length prefixes are the cached sizes, exact when ByteSize was called last |
| BainiuGameEnds.MsgBainiuGameEnd.Clear | game66/common/cs_msg/cpp/bainiu_logic_msg.pb.cc:2914-2935 | Leaves the fresh message, whatever was held |
| BainiuGameEnds.MsgBainiuGameEnd.MergeFrom | game66/common/cs_msg/cpp/bainiu_logic_msg.pb.cc:3525-3562 | Leaves the merge of the old message and the source; the source is not touched |
| BainiuGameEnds.MsgBainiuGameEnd.CopyFrom | game66/common/cs_msg/cpp/bainiu_logic_msg.pb.cc:3570-3574 | Leaves the source's message, whatever the target held; elements are fresh copies |
| BainiuGameEnds.MsgBainiuGameEnd.Swap | game66/common/cs_msg/cpp/bainiu_logic_msg.pb.cc:3581-3601 | Exchanges the two messages and their cached sizes |
| BainiuGameEnds.MsgBainiuGameEnd.Facts | game66/common/cs_msg/cpp/bainiu_logic_msg.pb.h:2763-2765 | In every valid object each scalar field is the scalar of its message, in range, and 0 if its presence bit is clear; each list field is its list |
| BainiuGameEnds.MsgBainiuGameEnd.ClearLow | game66/common/cs_msg/cpp/bainiu_logic_msg.pb.cc:2915-2921 | All scalars of the first group are 0 afterwards, also when the guard skips them |
| BainiuGameEnds.MsgBainiuGameEnd.ClearHigh | game66/common/cs_msg/cpp/bainiu_logic_msg.pb.cc:2922-2926 | The same for the second group, judged by its own bits |
| BainiuGameEnds.MsgBainiuGameEnd.SizeLow | game66/common/cs_msg/cpp/bainiu_logic_msg.pb.cc:3384-3420 | Adds exactly the sizes of the present scalars of the first group, although the guard skips the group when it sees no bit |
| BainiuGameEnds.MsgBainiuGameEnd.MergeLow | game66/common/cs_msg/cpp/bainiu_logic_msg.pb.cc:3533-3549 | Merges exactly the scalars of the first group, although the guard skips the group when it sees no bit |
| BainiuGameEnds.MsgBainiuGameEnd.ParseField | game66/common/cs_msg/cpp/bainiu_logic_msg.pb.cc:2937-3209 | Each case of the switch reads its payload into its own field as the plain loop does; a failed read leaves the message of the failed plain loop |
| BainiuGameEnds.MsgBainiuGameEnd.ExpectNext | game66/common/cs_msg/cpp/bainiu_logic_msg.pb.cc:2937-3209 | What the ExpectTag calls of a case see: nothing, the tag of the field jumped to, or the end of the input |
| BainiuGameEnds.MsgBainiuGameEnd.AddTableCards | game66/common/cs_msg/cpp/bainiu_logic_msg.pb.h:2797-2799 | One fresh element holding the fresh message at the end; the others stay |
| BainiuGameEnds.MsgBainiuGameEnd.SetTimeLeave | game66/common/cs_msg/cpp/bainiu_logic_msg.pb.h:2779-2782 | Sets the value and the presence bit of this field and changes no other part of the message, as each other setter does for its field |
| BainiuGameEnds.MsgBainiuGameEnd.AddCardTypes | game66/common/cs_msg/cpp/bainiu_logic_msg.pb.h:2822-2824 | Appends values in order to this list and changes no other part of the message, as each other adder does for its list |
| BaccaratGameInfo.MsgBaccaratGameInfoPlayRep.MergePartialFromCodedStream | game66/common/cs_msg/cpp/baccarat_logic_msg.pb.cc:1113-1320 | For every input and every sequence of answers of ExpectTag and ExpectAtEnd, the jumping loop ends in the message, return value, unread input and end flag of the loop that only reads tags and dispatches; it terminates; on success limit and recursion budget are restored |
| BaccaratGameInfo.MsgBaccaratGameInfoPlayRep.ByteSize | game66/common/cs_msg/cpp/baccarat_logic_msg.pb.cc:1456-1556 | Returns and caches the exact size, and leaves each nested element with its own exact size cached |
| BaccaratGameInfo.MsgBaccaratGameInfoPlayRep.SerializeWithCachedSizesToArray | game66/common/cs_msg/cpp/baccarat_logic_msg.pb.cc:1388-1454 | Writes exactly the serialized bytes at the given position, returns the position behind them, and leaves the rest of the buffer alone; element length prefixes are the cached sizes, exact when ByteSize was called last |
| BaccaratGameInfo.MsgBaccaratGameInfoPlayRep.Clear | game66/common/cs_msg/cpp/baccarat_logic_msg.pb.cc:1093-1111 | Leaves the fresh message, whatever was held |
| BaccaratGameInfo.MsgBaccaratGameInfoPlayRep.MergeFrom | game66/common/cs_msg/cpp/baccarat_logic_msg.pb.cc:1570-1604 | Leaves the merge of the old message and the source; the source is not touched |
| BaccaratGameInfo.MsgBaccaratGameInfoPlayRep.CopyFrom | game66/common/cs_msg/cpp/baccarat_logic_msg.pb.cc:1612-1616 | Leaves the source's message, whatever the target held; elements are fresh copies |
| BaccaratGameInfo.MsgBaccaratGameInfoPlayRep.Swap | game66/common/cs_msg/cpp/baccarat_logic_msg.pb.cc:1623-1640 | Exchanges the two messages and their cached sizes |
| BaccaratGameInfo.MsgBaccaratGameInfoPlayRep.Facts | game66/common/cs_msg/cpp/baccarat_logic_msg.pb.h:2277-2279 | In every valid object each scalar field is the scalar of its message, in range, and 0 if its presence bit is clear; each list field is its list |
| BaccaratGameInfo.MsgBaccaratGameInfoPlayRep.ClearLow | game66/common/cs_msg/cpp/baccarat_logic_msg.pb.cc:1094-1101 | All scalars of the first group are 0 afterwards, also when the guard skips them |
| BaccaratGameInfo.MsgBaccaratGameInfoPlayRep.ClearHigh | game66/common/cs_msg/cpp/baccarat_logic_msg.pb.cc:1102-1105 | The same for the second group, judged by its own bits |
| BaccaratGameInfo.MsgBaccaratGameInfoPlayRep.SizeLow | game66/common/cs_msg/cpp/baccarat_logic_msg.pb.cc:1459-1502 | Adds exactly the sizes of the present scalars of the first group, although the guard skips the group when it sees no bit |
| BaccaratGameInfo.MsgBaccaratGameInfoPlayRep.MergeLow | game66/common/cs_msg/cpp/baccarat_logic_msg.pb.cc:1575-1594 | Merges exactly the scalars of the first group, although the guard skips the group when it sees no bit |
| BaccaratGameInfo.MsgBaccaratGameInfoPlayRep.ParseField | game66/common/cs_msg/cpp/baccarat_logic_msg.pb.cc:1113-1320 | Each case of the switch reads its payload into its own field as the plain loop does; a failed read leaves the message of the failed plain loop |
| BaccaratGameInfo.MsgBaccaratGameInfoPlayRep.ExpectNext | game66/common/cs_msg/cpp/baccarat_logic_msg.pb.cc:1113-1320 | What the ExpectTag calls of a case see: nothing, the tag of the field jumped to, or the end of the input |
| BaccaratGameInfo.MsgBaccaratGameInfoPlayRep.AddTableCards | game66/common/cs_msg/cpp/baccarat_logic_msg.pb.h:2264-2266 | One fresh element holding the fresh message at the end; the others stay |
| BaccaratGameInfo.MsgBaccaratGameInfoPlayRep.SetBankerId | game66/common/cs_msg/cpp/baccarat_logic_msg.pb.h:2293-2296 | Sets the value and the presence bit of this field and changes no other part of the message, as each other setter does for its field |
| BaccaratGameInfo.MsgBaccaratGameInfoPlayRep.ClearBankerId | game66/common/cs_msg/cpp/baccarat_logic_msg.pb.h:2286-2289 | Resets the value to 0 and the presence bit of this field and changes no other part of the message, as each other clearer does for its field |
| BaccaratGameInfo.MsgBaccaratGameInfoPlayRep.AddAllJettonScore | game66/common/cs_msg/cpp/baccarat_logic_msg.pb.h:2239-2241 | Appends values in order to this list and changes no other part of the message, as each other adder does for its list |
| BaccaratPlayLogs.BaccaratPlayLog.Facts | game66/common/cs_msg/cpp/baccarat_logic_msg.pb.h:3546-3548 | In every valid log each field is the scalar of its message, in range, and 0 if its presence bit is clear |
| Cards.MsgCards.AddCards | game66/common/cs_msg/cpp/base_msg_struct.pb.h:18352-18354 | Appends values in order to the list and changes nothing else |
| Tables.TagsAreOneByte | game66/common/cs_msg/cpp/bainiu_logic_msg.pb.cc:3384-3390 | Every tag of the modelled messages is one byte, so the constant 1 per tag is right |
| BainiuPlayLogs.ThereAndBack | game66/common/cs_msg/cpp/bainiu_logic_msg.pb.cc:6247-6282 | On objects: ByteSize, SerializeWithCachedSizesToArray and a parse into a fresh object succeed, for a message below 2^31 bytes, if and only if it fits the recursion limit, and then give back an equal message; the first object keeps its own |
| BainiuPlayLogs.MsgBainiuPlayLogRep.SerializeToArray | game66/server/server_frame/include/network/protobuf_pkg.cpp:34-34 | Writes the message and returns true exactly when its size is at most the room given; otherwise leaves the buffer alone |
| BainiuPlayLogs.MsgBainiuPlayLogRep.ParseFromArray | game66/server/server_frame/include/network/protobuf_pkg.h:34-40 | Clears the message and accepts exactly the inputs that are one whole message, ending in what the plain loop gives |
| BaccaratPlayLogs.ThereAndBack | game66/common/cs_msg/cpp/baccarat_logic_msg.pb.cc:6353-6388 | On objects: ByteSize, SerializeWithCachedSizesToArray and a parse into a fresh object succeed, for a message below 2^31 bytes, if and only if it fits the recursion limit, and then give back an equal message; the first object keeps its own |
| BaccaratPlayLogs.MsgBaccaratPlayLogRep.SerializeToArray | game66/server/server_frame/include/network/protobuf_pkg.cpp:34-34 | Writes the message and returns true exactly when its size is at most the room given; otherwise leaves the buffer alone |
| BaccaratPlayLogs.MsgBaccaratPlayLogRep.ParseFromArray | game66/server/server_frame/include/network/protobuf_pkg.h:34-40 | Clears the message and accepts exactly the inputs that are one whole message, ending in what the plain loop gives |
| BainiuGameEnds.ThereAndBack | game66/common/cs_msg/cpp/bainiu_logic_msg.pb.cc:2937-3209 | On objects: ByteSize, SerializeWithCachedSizesToArray and a parse into a fresh object succeed, for a message below 2^31 bytes, if and only if it fits the recursion limit, and then give back an equal message; the first object keeps its own |
| BainiuGameEnds.MsgBainiuGameEnd.SerializeToArray | game66/server/server_frame/include/network/protobuf_pkg.cpp:34-34 | Writes the message and returns true exactly when its size is at most the room given; otherwise leaves the buffer alone |
| BainiuGameEnds.MsgBainiuGameEnd.ParseFromArray | game66/server/server_frame/include/network/protobuf_pkg.h:34-40 | Clears the message and accepts exactly the inputs that are one whole message, ending in what the plain loop gives |
| BaccaratGameInfo.ThereAndBack | game66/common/cs_msg/cpp/baccarat_logic_msg.pb.cc:1113-1320 | On objects: ByteSize, SerializeWithCachedSizesToArray and a parse into a fresh object succeed, for a message below 2^31 bytes, if and only if it fits the recursion limit, and then give back an equal message; the first object keeps its own |
| BaccaratGameInfo.MsgBaccaratGameInfoPlayRep.SerializeToArray | game66/server/server_frame/include/network/protobuf_pkg.cpp:34-34 | Writes the message and returns true exactly when its size is at most the room given; otherwise leaves the buffer alone |
| BaccaratGameInfo.MsgBaccaratGameInfoPlayRep.ParseFromArray | game66/server/server_frame/include/network/protobuf_pkg.h:34-40 | Clears the message and accepts exactly the inputs that are one whole message, ending in what the plain loop gives |
| Packets.SendProtobufMsg | game66/server/server_frame/include/network/protobuf_pkg.cpp:23-44 | The packet for a msg_bainiu_game_end holds the serialized message and its size if it is at most 16375 bytes, and otherwise zeros and the low 16 bits of its size |
| Packets.ArrivesExactlyWhenItFits | game66/server/server_frame/include/network/protobuf_pkg.cpp:23-44 | A message of any type within the recursion limit arrives as it was sent if and only if its size is at most 16375 bytes; a larger one is rejected, or arrives as the empty message when the low 16 bits of its size are 0 |
| Packets.AcceptedExactlyWhenWhole | game66/server/server_frame/include/network/protobuf_pkg.cpp:7-22 | Any packet, whoever filled it, is taken for a message if and only if it announces at most 16375 bytes and those parse to exactly that message |
| Limits.LastByteThatFits | game66/server/server_frame/include/network/protobuf_pkg.cpp:23-44 | A card list of exactly 16375 bytes arrives; one of 16376 bytes is rejected |
| Limits.RepliesNeedOneLevel | game66/common/cs_msg/cpp/baccarat_logic_msg.pb.cc:6364-6365 | A reply of logs without unknown records needs one level of the recursion limit, and none when it is empty |
| Limits.ManyCardsArriveAsNone | game66/server/server_frame/include/network/protobuf_pkg.cpp:23-44 | A real message the receiver takes for an empty one: 32768 cards of value 0, 65536 bytes |
| Limits.RepliesCanOutgrowTheLimit | game66/common/cs_msg/cpp/baccarat_logic_msg.pb.cc:6353-6388 | For every recursion limit below 2^29, three calls that succeed within it - a new reply, a log added, a parse into that log - build a valid reply whose own serialized form that limit refuses |

## Left out

- Sizes.ByteSizeIsExact: says nothing of messages of 2^31 bytes and more, where the `int` in which sizes are added up overflows; the round trips have the same bound.
- Packets.SendProtobufMsg: is written for msg_bainiu_game_end, since no class stands for all messages; the null check, the other header fields and the result of Send are not modelled.
- The limit on the total bytes a stream may deliver, and where its buffer ends; buffer ends appear only as the freedom of ExpectTag and ExpectAtEnd to answer false.
- SerializeWithCachedSizes, the serializer to a stream: the same statements with another sink.
- msg_baccarat_game_end: repeats msg_bainiu_game_end.
- Accessors that replace an element or clear a list of msg_cards, msg_bainiu_game_end and msg_baccarat_game_info_play_rep, and the clear_ accessors of msg_bainiu_game_end, as class methods; they are edits of the runs in Invariants.
- Programs.Execute: holds baccarat_play_log and msg_baccarat_play_log_rep objects; the methods of the other classes are proved against the same functions, one call at a time.
- Element pointers handed out by mutable_ accessors of msg_bainiu_game_end and msg_baccarat_game_info_play_rep: an element changed behind the owner's back would have to be entered in the owner's view; the replies compute their view from their elements and allow it.
- Reuse of cleared elements by RepeatedPtrField, ownership and destructors: a new element is always a fresh object.
- Descriptors, reflection, the MergeFrom and CopyFrom that take a Message, default instances and registration.
- Bytes that Send takes from behind the packet buffer when the length it was given is larger; the receiver rejects such a packet by its length alone.
- The other messages, and the rules of the games.
