# Game message codec

A Dafny model of the message classes that the bainiu and baccarat game servers exchange with
their clients: Protocol Buffers classes with a `goto`-driven parser, a serializer to a stream
and one to an array, a size calculator that fills a size cache in every nested object, and
clear, merge, copy and swap over presence bits that are tested in masked groups.

The classes share one shape, so the model is driven by a *layout*: the fields of a class in
declaration order, each with its number, integer type and has-bit, and the guards
(`0xffu << shift`) around groups of fields. Everything is proved for every well-formed layout;
`GameMessages` gives the ten concrete layouts with the numbers, bits and guards of the
generated code and proves each of them well-formed.

There are two levels. On values, `Parse`, `Serialize`, `Size` and `Merge` say what the code
computes, and the laws that connect them are lemmas: the round trip, concatenation as merge,
order independence, packed and unpacked forms, normal forms, exact sizes. On objects, class
`Message` has the fields of a generated class (has-bits, scalars, lists, submessages, unknown
fields, cached size), updated in place; each of its methods is proved to compute the function
of that level. The parser's shortcuts and the nondeterministic answers of `ExpectTag` and
`ExpectAtEnd`, and the serializers' trust in cached sizes, are proved away there.

| module | content |
|---|---|
| `Wire` | base-128 varints and the integer types |
| `Digits` | the bytes of a varint digit by digit, and the numbers they stand for |
| `Records` | tagged records, groups included: writing, reading, sizes |
| `RecordBytes` | the wire types, in literal tags |
| `Words` | the has-bit word as a set of bit positions, and the 32-bit operations on the word it stands for |
| `Layouts` | fields, guards, well-formedness, and the dispatch on a tag |
| `Messages` | message values: parse, serialize, size, merge |
| `WrittenForm` | the bytes of a message field by field, written and read |
| `Merging`, `RoundTrip`, `NormalForm`, `Ordering` | the laws on values |
| `Concatenation` | exactly when concatenating encodings merges messages |
| `HasBits`, `Counting`, `Writing`, `Stepping` | what one object's fields mean, and the steps of its loops |
| `Streams` | coded input with position and limit, coded output, writing into an array |
| `MessageObjects` | the message class |
| `Packets` | the packets messages travel in |
| `GameMessages` | the ten classes of the two games |
| `Classes` | what each of their fields carries, and under which tag, has-bit and guard |
| `PlayLogs` | the bainiu table's play log, from the rounds played to the message received |

The byte formats are those of the Protocol Buffers Encoding guide (Base 128 Varints, Message
Structure, Length-Delimited Records, Packed Repeated Fields, Last One Wins, Groups). The
primitives the generated code calls are those of the library version it was generated for,
2.5.0, which the repository carries as game_dispatch/depend/protobuf-2.5.0.tar.bz2. They
differ from the guide in two ways that the model follows:

- A length prefix that reaches past the enclosing limit is cut to that limit
  (`PushLimit`, io/coded_stream.cc:131), for packed blocks and submessages. An input may so
  be accepted although its last record breaks off.
- `SkipField` adds a length-delimited record or a group to the unknown fields before it reads
  the content, so a failed parse leaves a partial record there. An unknown length-delimited
  record that breaks off is refused.

A parse has four outcomes. The parser returns true for `Complete`, for a zero tag and for an
end-group tag, and only the first counts as the end of a message for ParseFromArray and for a
length-delimited submessage.

Two expectations fail. The first is that concatenating two accepted encodings merges the
messages. An accepted input that is cut short takes what follows for the rest of its last
record: `Concatenation.CutShortPlayLog` has the bytes, and `Concatenation.ConcatenationIff`
shows that the law holds behind an accepted input exactly when that is a run of whole records
(`Tokenize(a).stop == End`).

The second is about the packets. SendProtobufMsg does not look at the answer of
SerializeToArray and stores ByteSize in a 16-bit field. A message of PACKET_MAX_DATA_SIZE bytes
or more therefore does not arrive; `Packets.LargeIsLost` says what arrives instead for every
size, `Packets.LongApplyList` and `Packets.EmptiedApplyList` give messages that are lost, and
`Packets.ArrivesIffItFits` gives the exact condition.

The table's own part of `PlayLogs` follows game_imple_table.cpp of the bainiu server, lines
2924-2942 (SendPlayLog) and 3107-3117 (the record of a round). `KeptIsLastTen` shows that after
any number of rounds the table holds the win flags of the last ten, oldest first, and
`RecordRound` that each round keeps it so.

## Model

| member | source | states |
|---|---|---|
| RoundTrip.ParseInvertsSerialize | game_dispatch/common/cs_msg/cpp/bainiu_logic_msg.pb.cc:3012-3291 | parsing the serialized form of any well-formed message (below 2^31 bytes) into a cleared one consumes everything and gives back the same presence, values, lists, nested messages and unknown fields |
| RoundTrip.ParsingEncodedMerges | game_dispatch/common/cs_msg/cpp/bainiu_logic_msg.pb.cc:3012-3291 | parsing a serialized message into a message that already holds something is MergeFrom of the two |
| RoundTrip.SerializeInjective | game_dispatch/common/cs_msg/cpp/bainiu_logic_msg.pb.cc:3226-3291 | two different messages never serialize to the same bytes |
| RoundTrip.SizeExact | game_dispatch/common/cs_msg/cpp/bainiu_logic_msg.pb.cc:1378-1629 | the counted size, one byte per tag, is the number of bytes written, for every message and every nesting; it rests on field numbers below 16 |
| WrittenForm.WrittenInOrder | game_dispatch/common/cs_msg/cpp/bainiu_logic_msg.pb.cc:3226-3291 | in the bytes of a message the declared fields stand by increasing number, and behind them exactly the unknown ones in their order |
| WrittenForm.IntegerBytes | game_dispatch/common/cs_msg/cpp/bainiu_logic_msg.pb.cc:3229-3231 | an optional integer is written as the byte 8 times its number and the varint of its value |
| WrittenForm.ListBytes | game_dispatch/common/cs_msg/cpp/bainiu_logic_msg.pb.cc:3271-3275 | a repeated integer is written value by value, each behind the byte 8 times the number |
| WrittenForm.ElementBytes | game_dispatch/common/cs_msg/cpp/bainiu_logic_msg.pb.cc:6312-6316 | an element is written behind the byte 8 times the number plus 2 and its length |
| WrittenForm.IntegerRead | game_dispatch/common/cs_msg/cpp/bainiu_logic_msg.pb.cc:3016-3027 | behind the tag of an integer field any varint of up to ten bytes is stored as the sum of its digits cut to the type; an optional field takes it, a list appends it, nothing else changes |
| WrittenForm.ElementRead | game_dispatch/common/cs_msg/cpp/bainiu_logic_msg.pb.cc:6279-6290 | an element is what its own parse makes of the counted bytes; it is appended in any case, and the outer parse is complete exactly when that one was |
| WrittenForm.ForeignIsKept | game_dispatch/common/cs_msg/cpp/bainiu_logic_msg.pb.cc:3210-3219 | a record no field takes, by its number or its wire type, is kept among the unknown fields as it is |
| WrittenForm.BrokenIsKept | game_dispatch/common/cs_msg/cpp/bainiu_logic_msg.pb.cc:3210-3219 | an unknown record that breaks off fails the parse and leaves what is there of it |
| WrittenForm.EndMarkEnds | game_dispatch/common/cs_msg/cpp/bainiu_logic_msg.pb.cc:1153-1376 | a zero tag or an end-group tag behind whole records ends the parse with what has been read, and that is no complete message |
| WrittenForm.LastOneWins | game_dispatch/common/cs_msg/cpp/bainiu_logic_msg.pb.cc:3012-3224 | of two encodings in a row the scalars of the second win where it has them; its lists, elements and unknown fields are appended |
| Merging.ConcatenationIsMerge | game_dispatch/common/cs_msg/cpp/bainiu_logic_msg.pb.cc:3479-3511 | behind an accepted a that is a run of whole records any b, accepted or not, is merged in: parsing a ++ b ends as b does, with MergeFrom of the two results |
| Concatenation.ConcatenationIff | game_dispatch/common/cs_msg/cpp/bainiu_logic_msg.pb.cc:3164-3169 | for an accepted a, concatenation is merge for every accepted b if and only if a is a run of whole records, which is read off its bytes without knowing the class |
| Concatenation.CutShortBreaksMerge | game_dispatch/common/cs_msg/cpp/baccarat_logic_msg.pb.cc:6312-6347 | the converse, constructed: behind an accepted a whose last record breaks off there is an accepted two-byte b that is not merged in, since its bytes are taken for the rest of that record |
| Concatenation.CutShortPlayLog | game_dispatch/common/cs_msg/cpp/bainiu_logic_msg.pb.cc:6273-6308 | an instance: the bytes 10 5 and 10 0 are each accepted as one empty log, and both together are accepted as one log, not two |
| Concatenation.CutShortRead | game_dispatch/common/cs_msg/cpp/baccarat_logic_msg.pb.cc:6312-6347 | a length that promises more than there is gives a packed block or a submessage what is there: the parse is that of the true length |
| Classes.CutShortApplyList | game_dispatch/common/cs_msg/cpp/baccarat_logic_msg.pb.cc:4615-4674 | an instance: the bytes 10 3 1 are accepted as the one id 1 |
| Merging.ParseIsMerge | game_dispatch/common/cs_msg/cpp/bainiu_logic_msg.pb.cc:3012-3224 | for every input and every outcome, parsing into a message with content is parsing into an empty one and merging the result in |
| Merging.ParseResumes | game_dispatch/common/cs_msg/cpp/bainiu_logic_msg.pb.cc:3012-3224 | a run of whole records can be gone on with: parsing a ++ b is parsing b from where a left the message, or a's own result if that has already ended |
| Merging.ParseIsFold | game_dispatch/common/cs_msg/cpp/bainiu_logic_msg.pb.cc:3012-3224 | a parse is complete exactly when the input is a run of records to its end and each is accepted; its message is the left fold of them. A packed block or submessage that is cut short at the very end is a record with what is there |
| Merging.MergeAssociative | game_dispatch/common/cs_msg/cpp/baccarat_logic_msg.pb.cc:1569-1603 | MergeFrom is associative |
| Merging.MergeIdentity | game_dispatch/common/cs_msg/cpp/baccarat_logic_msg.pb.cc:1569-1615 | the cleared message is a left and right identity of MergeFrom |
| Ordering.OrderIndependence | game_dispatch/common/cs_msg/cpp/baccarat_logic_msg.pb.cc:2934-3146 | two inputs with the same records per field and the same sequence of uninterpreted records, a cut-short last one included, are both accepted or both not, and parse to the same message |
| Ordering.FoldSlotMeaning | game_dispatch/common/cs_msg/cpp/baccarat_logic_msg.pb.cc:2934-3146 | what a field holds after a parse is a function of its own records alone: the last one of a scalar, all of a list in order |
| Ordering.FoldUnknownMeaning | game_dispatch/common/cs_msg/cpp/bainiu_logic_msg.pb.cc:3210-3219 | the unknown-field set grows by exactly the uninterpreted records, in input order |
| Ordering.NeighboursSwap | game_dispatch/common/cs_msg/cpp/baccarat_logic_msg.pb.cc:2934-3146 | two neighbouring records of different fields may change places |
| Ordering.PackedEquivalence | game_dispatch/common/cs_msg/cpp/baccarat_logic_msg.pb.cc:4615-4699 | any accepted mix of packed blocks (empty ones too) and single values parses to the same message as the unpacked form the serializer emits, also when the last block is cut short; that form has no packed block left |
| Ordering.PackedAppends | game_dispatch/common/cs_msg/cpp/baccarat_logic_msg.pb.cc:4632-4634 | a packed block of any values of the type appends exactly those to the list |
| NormalForm.ParseIsNormalForm | game_dispatch/common/cs_msg/cpp/bainiu_logic_msg.pb.cc:3012-3291 | whatever any input leaves in the message, even after a failed parse and with the partial unknown record that one leaves, serializing and parsing that again gives the same message; it is at most three times as large as the input |
| NormalForm.ParseOk | game_dispatch/common/cs_msg/cpp/bainiu_logic_msg.pb.cc:3210-3219 | the parser keeps the invariant that values fit their types and the unknown set holds only records the class would again not interpret, nested messages included |
| NormalForm.MergeOk | game_dispatch/common/cs_msg/cpp/bainiu_logic_msg.pb.cc:3479-3511 | MergeFrom keeps that invariant |
| NormalForm.ParseGrowth | game_dispatch/common/cs_msg/cpp/bainiu_logic_msg.pb.cc:3012-3224 | a parse, failed ones included, adds at most three bytes of counted size per input byte; the worst case is a packed block |
| NormalForm.RecCanonical | game_dispatch/common/cs_msg/cpp/bainiu_logic_msg.pb.cc:3210-3219 | re-encoding a record that was read never takes more bytes than it was read from, over-long varints and nested groups included |
| Wire.IntInversion | game_dispatch/common/cs_msg/cpp/bainiu_logic_msg.pb.cc:3156-3176 | every int32, int64 and uint32 survives writing and reading; the counted size is the bytes written, 10 for any negative |
| Digits.WireIsCongruent | game_dispatch/common/cs_msg/cpp/bainiu_logic_msg.pb.cc:3271-3275 | what is written for a value is the value modulo 2^64, so an int32 is sign-extended and goes out as the int64 it equals |
| Digits.ReadIsCongruent | game_dispatch/common/cs_msg/cpp/bainiu_logic_msg.pb.cc:3156-3176 | what any 64-bit varint is read as is its value modulo 2^32 or 2^64 in the range of the type |
| Wire.VarintLength | game_dispatch/common/cs_msg/cpp/bainiu_logic_msg.pb.cc:3446-3454 | the comparison chains of the size functions equal the encoded length |
| Digits.WrittenDigits | game_dispatch/common/cs_msg/cpp/bainiu_logic_msg.pb.cc:3271-3275 | byte i of a written varint has digit i of the number in base 128, the lowest first, and its top bit exactly when another byte follows |
| Digits.WrittenSum | game_dispatch/common/cs_msg/cpp/bainiu_logic_msg.pb.cc:3271-3275 | a written number is one varint whose digits, times their powers of 128, add up to it; it is the shortest such |
| Digits.VarintValue | game_dispatch/common/cs_msg/cpp/bainiu_logic_msg.pb.cc:3018-3027 | every varint of up to ten bytes, over-long ones included, is read as the sum of its digits cut to 64 bits, a tag or length to 32, whatever follows |
| Digits.VarintAccepted | game_dispatch/common/cs_msg/cpp/bainiu_logic_msg.pb.cc:3018-3027 | nothing else is accepted: a read succeeds exactly when one of the first ten bytes ends a varint |
| Wire.VarintRoundTrip | game_dispatch/common/cs_msg/cpp/bainiu_logic_msg.pb.cc:3271-3275 | a written varint is read back as itself whatever follows it |
| Records.RecRoundTrip | game_dispatch/common/cs_msg/cpp/bainiu_logic_msg.pb.cc:6310-6322 | a written record, nested groups included, is read back as itself whatever follows it |
| RecordBytes.RecordForms | game_dispatch/common/cs_msg/cpp/bainiu_logic_msg.pb.cc:1378-1447 | the bytes of a record of each wire type: tag 8n for a varint, 8n+1 for eight bytes, 8n+2 for counted bytes, 8n+3 to 8n+4 for a group, 8n+5 for four bytes |
| RecordBytes.FourBytes | game_dispatch/common/cs_msg/cpp/baccarat_logic_msg.pb.cc:6339-6340 | skipping tag 8n+5 takes four bytes and refuses fewer |
| RecordBytes.EightBytes | game_dispatch/common/cs_msg/cpp/baccarat_logic_msg.pb.cc:6339-6340 | skipping tag 8n+1 takes eight bytes and refuses fewer |
| RecordBytes.OneVarint | game_dispatch/common/cs_msg/cpp/baccarat_logic_msg.pb.cc:6339-6340 | skipping tag 8n takes one varint of up to ten bytes |
| RecordBytes.CountedBytes | game_dispatch/common/cs_msg/cpp/baccarat_logic_msg.pb.cc:6339-6340 | skipping tag 8n+2 takes as many bytes as a varint says; when there are fewer the record breaks off with those |
| RecordBytes.GroupToItsEnd | game_dispatch/common/cs_msg/cpp/baccarat_logic_msg.pb.cc:6339-6340 | skipping tag 8n+3 takes all records up to tag 8n+4, and breaks off with them at the end tag of another group |
| RecordBytes.GroupToNoEnd | game_dispatch/common/cs_msg/cpp/baccarat_logic_msg.pb.cc:6339-6340 | so it does at the end of the input |
| RecordBytes.NoSuchType | game_dispatch/common/cs_msg/cpp/baccarat_logic_msg.pb.cc:6339-6340 | wire types 6 and 7 are refused |
| Records.TokenizeEncoded | game_dispatch/common/cs_msg/cpp/bainiu_logic_msg.pb.cc:1378-1447 | a written run of records is read back as that run, to the end of the input |
| Records.NextIgnoresTail | game_dispatch/common/cs_msg/cpp/baccarat_logic_msg.pb.cc:6312-6347 | reading a record looks at no byte behind it |
| Records.RecsSizeExact | game_dispatch/common/cs_msg/cpp/bainiu_logic_msg.pb.cc:1621-1625 | the counted size of the unknown fields is their encoded length |
| Layouts.RouteIsUnique | game_dispatch/common/cs_msg/cpp/bainiu_logic_msg.pb.cc:3016-3020 | distinct field numbers make the switch unambiguous: each field's accepted records reach its own case |
| Messages.ReadPacked | game_dispatch/common/cs_msg/cpp/bainiu_logic_msg.pb.cc:3164-3169 | values of a packed block fit the declared type, also when the block holds a broken varint |
| Stepping.ParseReadsTag | game_dispatch/common/cs_msg/cpp/bainiu_logic_msg.pb.cc:1153-1158 | a parse is: read a tag, stop at 0, otherwise go on after that tag |
| Stepping.ExpectedTag | game_dispatch/common/cs_msg/cpp/bainiu_logic_msg.pb.cc:1153-1376 | when ExpectTag says yes, going on in the expected case is what reading the tag would have led to |
| Stepping.VarintStep | game_dispatch/common/cs_msg/cpp/bainiu_logic_msg.pb.cc:3016-3027 | the case of an integer field reads one varint, stores it and goes on, or fails with nothing changed |
| Stepping.DelimitedStep | game_dispatch/common/cs_msg/cpp/baccarat_logic_msg.pb.cc:6318-6328 | the case of a packed block or a submessage stores the stretch its length prefix leaves it, at most the rest of the input, and goes on behind it; a submessage is added before its prefix is read, and stays when that fails |
| Stepping.UnknownStep | game_dispatch/common/cs_msg/cpp/bainiu_logic_msg.pb.cc:3210-3219 | an uninterpreted tag ends the parse if it ends a group, and otherwise its record goes to the unknown fields, or the part of it that is there before the parse fails |
| Words.OrIsUnion | game_dispatch/common/cs_msg/cpp/bainiu_logic_msg.pb.h:2285-2287 | `|=` on the 32-bit word is union of the sets of its one-bits |
| Words.AndNotIsDifference | game_dispatch/common/cs_msg/cpp/bainiu_logic_msg.pb.h:2288-2290 | `&= ~` is difference of those sets |
| Words.AndIsIntersection | game_dispatch/common/cs_msg/cpp/bainiu_logic_msg.pb.h:2282-2284 | `&` is intersection of those sets |
| Words.OneBits | game_dispatch/common/cs_msg/cpp/bainiu_logic_msg.pb.h:2285-2287 | the mask of has-bit n stands for {n}, for all 32 bits |
| Words.MaskBits | game_dispatch/common/cs_msg/cpp/bainiu_logic_msg.pb.cc:1133-1145 | `0xffu << shift` stands for the eight positions from `shift` on, for shifts up to 24 |
| Words.SetHas | game_dispatch/common/cs_msg/cpp/bainiu_logic_msg.pb.h:2285-2287 | set_has_x adds its position to the set the word stands for |
| Words.ClearHas | game_dispatch/common/cs_msg/cpp/bainiu_logic_msg.pb.h:2288-2290 | clear_has_x takes it out |
| Words.TestHas | game_dispatch/common/cs_msg/cpp/bainiu_logic_msg.pb.h:2282-2284 | has_x says whether it is in |
| Words.GuardTouches | game_dispatch/common/cs_msg/cpp/bainiu_logic_msg.pb.cc:1133-1145 | the test of a guard on the 32-bit word is true exactly when the set it stands for touches the eight positions, which is what the model tests |
| HasBits.GuardSound | game_dispatch/common/cs_msg/cpp/bainiu_logic_msg.pb.cc:1525-1591 | a group whose guard tests zero has no present field and only default values, so Clear, ByteSize and MergeFrom may skip it |
| HasBits.GuardsCoverAll | game_dispatch/common/cs_msg/cpp/bainiu_logic_msg.pb.cc:1525-1591 | every optional field is in the guarded groups, and nothing else is |
| HasBits.ValueDeterminesCells | game_dispatch/common/cs_msg/cpp/bainiu_logic_msg.pb.cc:1132-1151 | under the has-bit invariant two objects with the same message value have the same has-bits and fields, absent ones included |
| HasBits.SetScalarEffect | game_dispatch/common/cs_msg/cpp/bainiu_logic_msg.pb.h:2298-2301 | setting one field makes it present with that value, keeps the invariant and touches no other field |
| HasBits.ClearScalarEffect | game_dispatch/common/cs_msg/cpp/bainiu_logic_msg.pb.h:2291-2294 | clearing one field makes it absent, with its default, and touches no other field |
| HasBits.MergedCells | game_dispatch/common/cs_msg/cpp/bainiu_logic_msg.pb.cc:1643-1680 | field-wise merged cells stand for MergeFrom of the two values |
| Counting.SizeByGroups | game_dispatch/common/cs_msg/cpp/bainiu_logic_msg.pb.cc:1522-1629 | guarded groups first and lists afterwards add up to the sizes of the fields one by one: nothing is skipped and nothing counted twice |
| Counting.SkippedGroupSize | game_dispatch/common/cs_msg/cpp/bainiu_logic_msg.pb.cc:1525-1591 | a group that is not looked at would have added nothing |
| Writing.ElementBelowMessage | game_dispatch/common/cs_msg/cpp/bainiu_logic_msg.pb.cc:6340-6360 | no nested message is larger than the message it is in, so a size that fits bounds all nested ones |
| MessageObjects.Message.constructor | game_dispatch/common/cs_msg/cpp/bainiu_logic_msg.pb.cc:1088-1100 | a new object is valid and stands for the empty message |
| MessageObjects.Message.GetScalarField | game_dispatch/common/cs_msg/cpp/bainiu_logic_msg.pb.h:2282-2297 | has_x and x: the value if present, and 0 if absent |
| MessageObjects.Message.GetInts | game_dispatch/common/cs_msg/cpp/bainiu_logic_msg.pb.h:2995-3004 | x_size and x(i) read the list of the value |
| MessageObjects.Message.SetScalarField | game_dispatch/common/cs_msg/cpp/bainiu_logic_msg.pb.h:2298-2301 | set_x: the bit and the field, and the value changes in that field alone |
| MessageObjects.Message.ClearScalarField | game_dispatch/common/cs_msg/cpp/bainiu_logic_msg.pb.h:2291-2294 | clear_x: the default and no bit, and the value changes in that field alone |
| MessageObjects.Message.ClearInts | game_dispatch/common/cs_msg/cpp/bainiu_logic_msg.pb.h:2999-3001 | clear_x of a repeated field empties that list and nothing else |
| MessageObjects.Message.SetInt | game_dispatch/common/cs_msg/cpp/bainiu_logic_msg.pb.h:3005-3007 | set_x(i, v) replaces one element of that list and nothing else |
| MessageObjects.Message.AddInt | game_dispatch/common/cs_msg/cpp/bainiu_logic_msg.pb.h:3008-3010 | add_x(v) appends one value to that list and nothing else |
| MessageObjects.Message.AddSub | game_dispatch/common/cs_msg/cpp/bainiu_logic_msg.pb.h:3658-3660 | add_x appends a new empty element and returns it; the object stays its only owner |
| MessageObjects.Message.LastWritten | game_dispatch/common/cs_msg/cpp/bainiu_logic_msg.pb.h:3658-3660 | whatever is then written through that pointer, the object is valid and its last element has the new value, the others the old ones |
| MessageObjects.Message.Clear | game_dispatch/common/cs_msg/cpp/bainiu_logic_msg.pb.cc:1132-1151 | from any valid state, with guarded resets only, the object ends up with the fields of a fresh one |
| MessageObjects.Message.ClearGuarded | game_dispatch/common/cs_msg/cpp/bainiu_logic_msg.pb.cc:1133-1145 | the guarded resets alone bring every scalar to its default |
| MessageObjects.Message.MergeFrom | game_dispatch/common/cs_msg/cpp/bainiu_logic_msg.pb.cc:1643-1680 | the in-place merge with guarded overwrites computes the merged value; `from` is not changed and shares nothing with the target |
| MessageObjects.Message.CopyFrom | game_dispatch/common/cs_msg/cpp/baccarat_logic_msg.pb.cc:1611-1615 | from any prior state the target becomes equal to the source, the source is unchanged, and copying onto itself changes nothing |
| MessageObjects.Message.Swap | game_dispatch/common/cs_msg/cpp/bainiu_logic_msg.pb.cc:3530-3547 | the two objects exchange their values and cached sizes; with itself it changes nothing |
| MessageObjects.Message.ByteSize | game_dispatch/common/cs_msg/cpp/bainiu_logic_msg.pb.cc:6340-6360 | returns the exact size, and caches it here and in every nested object, whatever the caches held |
| MessageObjects.Message.GuardedSize | game_dispatch/common/cs_msg/cpp/bainiu_logic_msg.pb.cc:1522-1591 | the guarded loop counts each present scalar once, overlapping masks or not |
| MessageObjects.Message.ElementsByteSize | game_dispatch/common/cs_msg/cpp/bainiu_logic_msg.pb.cc:6340-6350 | sizing the nested messages one after the other leaves every one of them cached |
| MessageObjects.Message.SerializeWithCachedSizes | game_dispatch/common/cs_msg/cpp/bainiu_logic_msg.pb.cc:3226-3291 | after ByteSize and without mutation since, appends exactly the encoding of the value, every length prefix coming from a cache |
| MessageObjects.Message.WriteElement | game_dispatch/common/cs_msg/cpp/bainiu_logic_msg.pb.cc:6310-6316 | tag, cached size and body of a nested message, by way of a buffer or directly, are the record the parser expects |
| MessageObjects.Message.WriteMaybeToArray | game_dispatch/common/cs_msg/cpp/bainiu_logic_msg.pb.cc:6310-6316 | serializing a nested message through an array of its cached size or straight to the stream gives the same bytes |
| MessageObjects.Message.SerializeWithCachedSizesToArray | game_dispatch/common/cs_msg/cpp/bainiu_logic_msg.pb.cc:3293-3360 | writes the same bytes as the stream serializer, advances by exactly the cached size, and changes nothing outside them |
| MessageObjects.Message.WriteElementToArray | game_dispatch/common/cs_msg/cpp/bainiu_logic_msg.pb.cc:6324-6338 | the array form of a nested message: prefix from the cache, then exactly that many bytes |
| MessageObjects.Message.MergePartialFromCodedStream | game_dispatch/common/cs_msg/cpp/bainiu_logic_msg.pb.cc:1153-1376 | for every input and every answer of the hints, the goto parser ends with the result and message of the plain loop, never reads past the limit, and terminates |
| MessageObjects.Message.NextField | game_dispatch/common/cs_msg/cpp/bainiu_logic_msg.pb.cc:1153-1376 | one step of it, entered by goto or by tag, consumes input and leaves the rest of the parse unchanged |
| MessageObjects.Message.HandleTag | game_dispatch/common/cs_msg/cpp/bainiu_logic_msg.pb.cc:1157-1373 | the switch: the case of a tag does what the plain loop does with it; SkipField sees only tags no field takes |
| MessageObjects.Message.ExpectNext | game_dispatch/common/cs_msg/cpp/bainiu_logic_msg.pb.cc:3173-3175 | the hints after a case lose nothing: the remaining parse is the same, and a yes at the end is a complete parse |
| MessageObjects.Message.ReadPrimitive | game_dispatch/common/cs_msg/cpp/bainiu_logic_msg.pb.cc:3018-3027 | an optional field's case: value and has-bit, or failure with nothing changed |
| MessageObjects.Message.ReadRepeatedPrimitive | game_dispatch/common/cs_msg/cpp/bainiu_logic_msg.pb.cc:3157-3163 | one value and any number of further ones behind the same tag are what reading them tag by tag gives |
| MessageObjects.Message.ParsePacked | game_dispatch/common/cs_msg/cpp/bainiu_logic_msg.pb.cc:3164-3169 | a packed block is read to its own end or that of the input and not beyond; values before a broken one stay |
| MessageObjects.Message.ReadMessage | game_dispatch/common/cs_msg/cpp/baccarat_logic_msg.pb.cc:6318-6328 | the nested parse is confined to its length prefix, or to the enclosing limit if that comes first, must end exactly there, and appends one element |
| MessageObjects.Message.SkipField | game_dispatch/common/cs_msg/cpp/bainiu_logic_msg.pb.cc:3210-3219 | the record is decoded and kept, on failure the part of it that was there; the object stays valid |
| MessageObjects.Message.ParseFromArray | game_dispatch/server/server_frame/include/network/protobuf_pkg.h:33-40 | clears, parses, and says yes exactly when nothing failed and all bytes were used; the message is that of the plain loop either way |
| MessageObjects.Message.SerializeToArray | game_dispatch/server/server_frame/include/network/protobuf_pkg.cpp:34 | the encoding at the front of the buffer if it fits the limit, and an untouched buffer otherwise |
| Streams.PlacedTwice | game_dispatch/common/cs_msg/cpp/bainiu_logic_msg.pb.cc:3293-3360 | writing two pieces one behind the other is writing their concatenation |
| Packets.ArrivesIffItFits | game_dispatch/server/server_frame/include/network/protobuf_pkg.cpp:7-44 | a message sent in a packet arrives unchanged, under its command and from its user id, if and only if its size is below 16376 |
| Packets.LargeIsLost | game_dispatch/server/server_frame/include/network/protobuf_pkg.cpp:34-35 | a larger message is dropped, rejected, or (when the low 16 bits of its size are zero) replaced by an empty one, depending on those bits alone |
| Packets.LongApplyList | game_dispatch/server/server_frame/include/network/protobuf_pkg.cpp:34-35 | a list of worst-case applicants arrives if and only if they are at most 963; 964 take 16388 bytes and are dropped |
| Packets.EmptiedApplyList | game_dispatch/server/server_frame/include/network/protobuf_pkg.cpp:34-35 | a list of 32768 one-byte ids makes 2^16 bytes, is accepted, and arrives empty |
| Packets.SmallArrives | game_dispatch/server/server_frame/include/network/protobuf_pkg.cpp:34-35 | a message below that size arrives unchanged |
| Packets.SendProtobufMsg | game_dispatch/server/server_frame/include/network/protobuf_pkg.cpp:23-44 | the packet handed to the network has the command and the user id in the fields of those names, the size modulo 65536 as its length, and the encoding in front of zeros if it is below 16376 bytes |
| Packets.HandleClientMsg | game_dispatch/server/server_frame/include/network/protobuf_pkg.cpp:7-22 | the receiver accepts exactly what the framing and the parser accept, and holds the accepted message with the command and user id of the header |
| GameMessages.ClassesWellFormed | game_dispatch/common/cs_msg/cpp/bainiu_logic_msg.pb.cc:3012-3291 | the layouts of all ten classes meet the conditions under which everything above is proved |
| GameMessages.GameEndWellFormed | game_dispatch/common/cs_msg/cpp/baccarat_logic_msg.pb.cc:2934-3387 | both game_end layouts, with their split guards, are well-formed, whatever the type of field 9 |
| Classes.BainiuGameEndCarries | game_dispatch/common/cs_msg/cpp/bainiu_logic_msg.pb.cc:3012-3224 | which values each field of bainiu's game_end holds and brings through: time_leave, banker_time, rand_card, settle_accounts_type up to 2^32 - 1, the scores any int64, win_multiple any int32, and no others |
| Classes.BaccaratGameEndCarries | game_dispatch/common/cs_msg/cpp/baccarat_logic_msg.pb.cc:2934-3146 | the same for baccarat's, with win_types up to 2^32 - 1 |
| Classes.BainiuPlayRepCarries | game_dispatch/common/cs_msg/cpp/bainiu_logic_msg.pb.cc:1153-1376 | the same for bainiu's play_rep |
| Classes.BaccaratPlayRepCarries | game_dispatch/common/cs_msg/cpp/baccarat_logic_msg.pb.cc:1112-1319 | the same for baccarat's play_rep |
| Classes.ListsCarry | game_dispatch/common/cs_msg/cpp/baccarat_logic_msg.pb.cc:4615-4699 | the same for cards, seat flags and apply lists: ids up to 2^32 - 1, scores any int64 |
| Classes.LogsCarry | game_dispatch/common/cs_msg/cpp/baccarat_logic_msg.pb.cc:6312-6347 | the same for the logs, whose elements are lists for bainiu and six flags for baccarat |
| Classes.NumbersAndMasks | game_dispatch/common/cs_msg/cpp/bainiu_logic_msg.pb.h:2282-2290 | in all ten classes the fields are numbered from 1 and the has-bit mask of field k is `1 << k` |
| Classes.GuardsByEights | game_dispatch/common/cs_msg/cpp/bainiu_logic_msg.pb.cc:1525-1570 | in all ten classes a guard covers the optional ones among eight fields, and tests the eight bits from the first of them on |
| Classes.TimeLeaveBytes | game_dispatch/common/cs_msg/cpp/bainiu_logic_msg.pb.cc:3229-3231 | time_leave = 300 is the bytes 8 172 2, both ways |
| Classes.WinMultipleBytes | game_dispatch/common/cs_msg/cpp/bainiu_logic_msg.pb.cc:3271-3275 | win_multiple = [-1] is 72, nine times 255, and 1, both ways |
| Classes.WinTypesBytes | game_dispatch/common/cs_msg/cpp/baccarat_logic_msg.pb.cc:3083-3085 | to baccarat's game_end those bytes are the value 4294967295 |
| GameMessages.BainiuPlayRepWellFormed | game_dispatch/common/cs_msg/cpp/bainiu_logic_msg.pb.cc:1132-1680 | bainiu's play_rep, with overlapping guards, is well-formed |
| GameMessages.BaccaratPlayRepWellFormed | game_dispatch/common/cs_msg/cpp/baccarat_logic_msg.pb.cc:1092-1603 | baccarat's play_rep is well-formed |
| GameMessages.BaccaratLogsWellFormed | game_dispatch/common/cs_msg/cpp/baccarat_logic_msg.pb.cc:5909-6399 | baccarat_play_log and the message that nests it are well-formed |
| GameMessages.CardsWellFormed | game_dispatch/common/cs_msg/cpp/base_msg_struct.pb.cc:21336-21455 | msg_cards is well-formed |
| GameMessages.PlayRepTags | game_dispatch/common/cs_msg/cpp/bainiu_logic_msg.pb.cc:1173-1357 | the one-byte tags the parser expects are those of the declared fields |
| GameMessages.GameEndTags | game_dispatch/common/cs_msg/cpp/bainiu_logic_msg.pb.cc:3029-3199 | the same for game_end |
| GameMessages.PlayRepGuardsOverlap | game_dispatch/common/cs_msg/cpp/bainiu_logic_msg.pb.cc:1525-1570 | banker_buyin_score opens both groups of play_rep and is a member of the second only |
| GameMessages.ApplyListBound | game_dispatch/common/cs_msg/cpp/baccarat_logic_msg.pb.cc:4722-4754 | an apply list takes at most 6 bytes per id and 11 per score, and exactly that many if and only if all ids are at least 2^28 and all scores negative; below 2^31 by that count it survives the trip |
| PlayLogs.LastTenArrive | game_dispatch/server/server_frame/include/network/protobuf_pkg.cpp:23-44 | whatever rounds were played, the play log arrives as command 3418 with the last ten, oldest first, or all if there are fewer: four flags each, 1 exactly for an area whose multiple is positive |
| PlayLogs.OneRoundArrives | game_dispatch/server/server_frame/include/network/protobuf_pkg.cpp:23-44 | a round with the multiples 1, -1, 3, -5 arrives as the flags 1, 0, 1, 0 |
| PlayLogs.PlayLogArrivesIff | game_dispatch/server/server_frame/include/network/protobuf_pkg.cpp:34-35 | a play log arrives exactly as long as it has at most 1637 rounds |
| PlayLogs.PlayLogRepSize | game_dispatch/common/cs_msg/cpp/bainiu_logic_msg.pb.cc:6340-6360 | a play log takes ten bytes a round |
| PlayLogs.BaiNiuTable.SendPlayLog | game_dispatch/common/cs_msg/cpp/bainiu_logic_msg.pb.h:3629-3660 | builds the nested message element by element, writing through the pointers add_logs returns, sizes and serializes it; what the client makes of the packet is command 3418 with the last ten rounds |

## Left out

- Descriptors, reflection, static initialisers, `GetMetadata` and the `dynamic_cast` overload of `MergeFrom`: plumbing over libprotobuf.
- The other generated classes of the two games: they have the same shapes with other field lists and would only add layouts.
- Stream refills, and the limits of 64 MB a stream and 100 nested submessages or groups: the input is a byte sequence with a position and a limit. The classes nest at most one level, so the depth limit would only refuse unknown groups nested deeper than that. The stream's position after a failed read is not specified.
- Ordering.PackedEquivalence: for an input whose last record is cut short, asks for fewer than 2^31 bytes, which is what the `int` size of an array gives.
- `GOOGLE_SAFE_CONCURRENT_WRITES` and the reuse of memory of cleared elements.
- MessageObjects.Message.ByteSize: totals are unbounded numbers where the source has `int`; the serializers ask for a size below 2^31, and `GameMessages.ApplyListBound` shows when an apply list stays there.
- MessageObjects.Message.MergeFrom: submessages are copied first and integer lists appended after them, where the source takes the lists in declaration order; the lists are separate, so the result is the same.
- MessageObjects.Message.AddSub: `mutable_x(i)`, which hands out a pointer to an earlier element, and direct writes through `mutable_unknown_fields` and `mutable_x` of a list are not modelled.
- MessageObjects.Message.ReadRepeatedPrimitive: how many values are read in one go depends on the capacity of the list; here it is left open, and any number gives the same result.
- Class `Message` keeps the has-bit word as the set `Words.BitsOf` of it; the array form of the has-bits beyond 32 fields is not needed by any of the classes.
- Packets.SendProtobufMsg: the header is a record with three numbers; its packed layout in host byte order, the socket, a null connection, and the bytes sent from behind the buffer when the stored length exceeds it are not modelled; the receiver refuses such a length by the header alone.
- `protobuf_pkg.h` also holds OnHandleClientMsg, which compares the length with the bytes at hand; framing of the TCP stream is not modelled, so that comparison always holds.
- The rules of the games, settlement and banker queues, apart from the list of kept rounds.
