# Packets, log patterns, options and rotations, modelled in Dafny

This project models four parts of a game server and its client, and proves
properties of them.

**The packet codec.** A payload is serialised, wrapped in a `messageHeader`
(type name, payload, payload size), and that is serialised behind a four-byte
big-endian length. The client (generated C#) and the server (generated C++)
each have field-level writers, size calculators, tag-driven parse loops and
merge functions for the same schema. Five messages stand for its five shapes:
`messageHeader` (explicit presence, string and bytes), `itemInfo` (implicit
presence), `reqPlayerPosition` (fixed32 and an optional int32), `reqAddToItem`
(nested message) and `resInventoryItems` (repeated nested message).

- `Wire`, `Records`: the primitives of the Protocol Buffers encoding guide
  (sections "Base 128 Varints", "Signed Integers", "Message Structure",
  "Length-Delimited Records"), and the split of a byte string into records by
  the C# runtime (tags and lengths of up to ten bytes, truncated to 32 bits)
  and by the C++ one (at most five bytes, lengths below 2 GiB).
- `Messages`, `MessageLaws`: the messages as values, the meaning of a record
  stream folded record by record, and the declarative meaning ("Last One Wins",
  "Field Order" of the same guide) that it is proved equal to.
- `CodecTheorems`, `CodecBounds`: round trip, normalisation, concatenation as
  merge with the exact condition under which it holds, client/server agreement
  with the exact condition on overlong prefixes, and how long a message can
  become when it is read and written again.
- `Layouts`, `ParseSteps`, `PresenceBits`, `CsCodedStreams`, `CsMessages`, `CppMessages`: the
  generated code in its own form: objects with presence bits and cached sizes,
  loops over an input, buffers written in place, all proved against the values.
- `PacketUtil`: the framing on top.

**The pattern formatter of spdlog.** `Padding` and `LogFields` hold the padder
and what each flag prints and declares; `PatternGrammar` a declarative grammar
of patterns; `FormatterModel` the formatter as a state machine over its two
stacked time caches; `FormatterTheorems` shows that the caches do not show over
whole runs, that the time is asked for exactly if a flag prints by it, and the
escape round trip; `CloneTheorems` when a clone is equivalent, over all states a
run can reach. `FieldTexts` reads the fields of a line back; `PatternMeaning`
gives the meaning of a pattern by itself and shows that compiled and cached
formatters write it, on the clock they are for; `Templates` and
`PatternEquivalences` show which patterns print alike, the full format among
them; `HistoryFlags` is about elapsed times and the time zone over whole runs.
`PatternFormatters` is the object with its compile and format loops, and
`Loggers` the distribution of clones to sinks.

**Collection options of the MySQL connector.** `CollectionSettings`: variadic
batches over nested, write-once settings with rollback.

**Quaternion rotation.** `Unity`: the rotation code over the reals, with the
Hamilton product, the conjugate and the exact length law.

A parse that fails, an exception and an option that is refused are results
(`None`, `ok == false`), not preconditions. A field that resizes the log buffer
to a negative size ends the program, because the padder does it in its
destructor; the model says so with `None`.

Where the code and its documentation disagree, the code is modelled:
`VALIDATION` is documented to take a JSON string as well, but the template
accepts a `CollectionValidation` only, and the two bits that setting a whole
validation marks in passing are overwritten by the assignment that follows
(CppCommon/include/mysqlx/xdevapi.h:1264-1268); the comment on %I promises the
hours 1 to 12, but the hour after midnight prints as 00 (`TwelveHoursExactly`);
and the full format is the pattern in its comment only with a logger name and a
source location (`FullIsPatternExactly`).

Properties that are expected of the code but do not hold for every input are
stated with their exact condition and a concrete input that breaks them:
concatenation is not merge for an item with an explicit zero
(`ExplicitZeroIsNotMerged`), the two readers differ on overlong prefixes
(`OverlongTagDiffers`), the first timed message of second zero is printed with
a zeroed time (`SecondZeroDiffers`), a clone shows a flag that was added after
the last compilation (`AddedFlagShowsInClone`, with `ReachedCurrentExactly`,
`CloneConfigExactly` and `UsedFlagShows` for the exact condition), a field
declares another size than it prints (`DeclaredExactly`, with
`FractionBeforeEpoch` for an input), which can cut earlier output
(`ShortDateCutsEarlierOutput`), and a huge width wraps around
(`HugeWidthWraps`).

## Model

| member | source | states |
|---|---|---|
| `Wire.VarintSizeExact` | CppCommon/include/google/protobuf/io/coded_stream.h:1728-1767 | the branch-free size formula of the C++ runtime is the exact length of the varint, for every value |
| `Wire.NegativeInt32TakesTenBytes` | Packet/CsharpPacket/Packet/Item.cs:3533-3554 | a negative int32 is sign extended and always takes ten bytes |
| `Wire.TwosComplement` | Packet/CsharpPacket/Packet/Item.cs:3533-3660 | an int32 goes onto the wire as its complement of two in 64 bits, and is read as that of the low 32 bits |
| `Wire.Int32RoundTrip` | Packet/CsharpPacket/Packet/Item.cs:3635-3660 | an int32 survives sign extension and truncation |
| `Wire.LittleEndianRoundTrip` | Packet/CsharpPacket/Packet/Item.cs:956-978 | a 32-bit pattern survives being written as four little-endian bytes |
| `Wire.LittleEndianDigits` | Packet/CsharpPacket/Packet/Item.cs:956-978 | byte i of a fixed-width integer is its digit i to the base 256 |
| `Wire.VarintDigits` | CppCommon/include/google/protobuf/parse_context.h:560-577 | group i of a varint is digit i to the base 128; all groups but the last are marked, and the last is no superfluous zero |
| `Wire.ReadVarintBytes` | CppCommon/include/google/protobuf/parse_context.h:560-577 | reading a varint undoes writing it, whatever bytes follow, within any limit that admits its length |
| `Wire.ReadVarintLimit` | CppCommon/include/google/protobuf/parse_context.h:560-577 | a smaller byte limit accepts exactly the varints that are short enough, with the same value |
| `Records.ScanPrint` | Packet/CsharpPacket/Packet/MessageHeader.cs:363-388 | splitting a printed record sequence gives the sequence back, for both runtimes |
| `Records.ScanConcat` | Packet/CsharpPacket/Packet/MessageHeader.cs:363-388 | splitting a concatenation is joining the two splits, when the first part is well formed |
| `Records.ScanAgreement` | CppCommon/include/google/protobuf/parse_context.h:560-577 | the two runtimes split a byte string alike exactly when no tag or length in it is overlong for C++ |
| `Records.ExchangeKeepsFields` | Packet/CsharpPacket/Packet/MessageHeader.cs:363-388 | exchanging neighbouring records of different known fields keeps the records of each field and the unknown ones in order |
| `MessageLaws.FoldConcat` | Packet/CsharpPacket/Packet/MessageHeader.cs:363-388 | applying two record sequences in turn is applying their concatenation |
| `MessageLaws.FoldIsDeclared` | Packet/CsharpPacket/Packet/MessageHeader.cs:363-388 | the record-by-record parse loop computes the declarative meaning: last one wins for a scalar, embedded records merged for a nested message, all items in order for a repeated one, unknown records kept in order |
| `MessageLaws.SameFieldsSameMessage` | Packet/CsharpPacket/Packet/MessageHeader.cs:363-388 | byte streams with the same records per known field, and the same unknown records in order, give the same message |
| `MessageLaws.RecordsCommute` | Packet/CsharpPacket/Packet/MessageHeader.cs:363-388 | exchanging neighbouring records of different fields, one of them known, in any accepted byte string, overlong tags and varints included, does not change what is parsed |
| `CodecTheorems.ReadingMerges` | Packet/CsharpPacket/Packet/MessageHeader.cs:308-325 | parsing what a writer wrote into any message of the type is merging the written message into it, for all five message shapes and both runtimes |
| `CodecTheorems.RoundTrip` | Packet/CsharpPacket/Packet/Item.cs:3533-3660 | parse of write is the identity on every valid message: negative int32, empty payloads, nested and repeated items, any float pattern, unknown fields |
| `CodecTheorems.ApplyValid` | Packet/CsharpPacket/Packet/MessageHeader.cs:363-388 | a parse step keeps the invariant of the message |
| `CodecBounds.PrintedIsShortest` | Packet/CsharpPacket/Packet/MessageHeader.cs:363-388 | printing the records a byte string was split into takes no more bytes than it: no record was written shorter |
| `CodecBounds.FoldedItemSize` | Packet/CsharpPacket/Packet/Item.cs:3533-3660 | an item that was read is written with at most five bytes more, the sign extension of a negative itemid |
| `CodecBounds.AcceptedFits` | Packet/CsharpPacket/Packet/Item.cs:2317-2399 | whatever is accepted from a buffer whose length is an int can be written: no embedded item is too long for its length prefix |
| `CodecTheorems.Normalisation` | Packet/CsharpPacket/Packet/MessageHeader.cs:363-388 | for every accepted byte string, its length an int, also with unknown records or wrong wire types, writing and parsing again, in either runtime, gives the same message |
| `CodecTheorems.ItemMergeExact` | Packet/CsharpPacket/Packet/Item.cs:3580-3597 | reading records over an item equals merging the separately read item exactly if no last record of a field is an explicit zero over a set field |
| `CodecTheorems.FoldMergeExact` | Packet/CsharpPacket/Packet/MessageHeader.cs:308-325 | the same exact condition for every message type |
| `CodecTheorems.ConcatIsMergeExactly` | Packet/CsharpPacket/Packet/MessageHeader.cs:308-388 | parsing x followed by y equals merging parse(x) with parse(y) if and only if the last records of y clobber nothing |
| `CodecTheorems.ConcatIsMerge` | Packet/CsharpPacket/Packet/Item.cs:3315-3360 | for the header, the position and the inventory that condition always holds: concatenation is merge for all accepted byte strings |
| `CodecTheorems.ExplicitZeroIsNotMerged` | Packet/CsharpPacket/Packet/Item.cs:3580-3660 | a concrete item where it does not: an explicit zero on the wire overwrites, merge skips it |
| `CodecTheorems.WrittenNeverClobbers` | Packet/CsharpPacket/Packet/Item.cs:3533-3597 | a written message never clobbers, so behind any accepted input it is merged |
| `CodecTheorems.ClientServerAgreement` | Projects/MainServer/Packet/messageHeader.pb.cc:218-281 | the C++ reader accepts exactly the byte strings that the C# reader accepts and that have no overlong tag or length, and maps each to the same message |
| `CodecTheorems.OverlongTagDiffers` | Projects/MainServer/Packet/messageHeader.pb.cc:218-281 | a six-byte tag that the client accepts and the server refuses |
| `Layouts.HeaderLayout` | Packet/CsharpPacket/Packet/MessageHeader.cs:261-281 | the bytes of a header field by field: tags 8, 18, 26, 32, present fields only, unknown fields last |
| `Layouts.ItemLayout` | Packet/CsharpPacket/Packet/Item.cs:3533-3554 | the bytes of an item: zero and empty fields left out |
| `Layouts.PositionLayout` | Packet/CsharpPacket/Packet/Item.cs:956-978 | the bytes of a position: three fixed32 and an optional int32 |
| `Layouts.AddToItemLayout` | Packet/CsharpPacket/Packet/Item.cs:2317-2326 | the bytes of a nested message behind tag 10 and its length |
| `Layouts.InventoryLayout` | Packet/CsharpPacket/Packet/Item.cs:3294-3301 | the bytes of a repeated message, item by item |
| `CsCodedStreams.UInt32SizeExact` | Packet/CsharpPacket/Packet/MessageHeader.cs:286-304 | ComputeUInt32Size is the number of bytes WriteUInt32 emits |
| `CsCodedStreams.Int32SizeExact` | Packet/CsharpPacket/Packet/Item.cs:3558-3576 | ComputeInt32Size is the number of bytes WriteInt32 emits |
| `CsMessages.CsHeader.UserId` | Packet/CsharpPacket/Packet/MessageHeader.cs:95-103 | an absent number reads as zero whatever its stale field holds |
| `CsMessages.CsHeader.SetUserId` | Packet/CsharpPacket/Packet/MessageHeader.cs:95-103 | sets one field of the abstract record and no other |
| `CsMessages.CsHeader.ClearUserId` | Packet/CsharpPacket/Packet/MessageHeader.cs:111-113 | removes one field and no other |
| `CsMessages.CsHeader.SetType` | Packet/CsharpPacket/Packet/MessageHeader.cs:120-123 | sets one field and no other |
| `CsMessages.CsHeader.ClearType` | Packet/CsharpPacket/Packet/MessageHeader.cs:133-135 | removes one field and no other |
| `CsMessages.CsHeader.SetArr` | Packet/CsharpPacket/Packet/MessageHeader.cs:144-147 | sets one field and no other |
| `CsMessages.CsHeader.ClearArr` | Packet/CsharpPacket/Packet/MessageHeader.cs:157-159 | removes one field and no other |
| `CsMessages.CsHeader.ArrSize` | Packet/CsharpPacket/Packet/MessageHeader.cs:168-176 | an absent size reads as zero |
| `CsMessages.CsHeader.SetArrSize` | Packet/CsharpPacket/Packet/MessageHeader.cs:168-176 | sets one field and no other |
| `CsMessages.CsHeader.ClearArrSize` | Packet/CsharpPacket/Packet/MessageHeader.cs:184-186 | removes one field and no other |
| `CsMessages.CsHeader.InternalWriteTo` | Packet/CsharpPacket/Packet/MessageHeader.cs:261-281 | appends exactly the written form of the abstract header |
| `CsMessages.CsHeader.CalculateSize` | Packet/CsharpPacket/Packet/MessageHeader.cs:286-304 | the calculated size is the number of bytes the writer emits |
| `CsMessages.CsHeader.MergeFrom` | Packet/CsharpPacket/Packet/MessageHeader.cs:308-325 | merging objects is merging their abstract values |
| `CsMessages.CsHeader.MergeField` | Packet/CsharpPacket/Packet/MessageHeader.cs:363-388 | the switch on the whole tag does what the record does, any other tag or wire type goes to the unknown fields |
| `CsMessages.CsHeader.InternalMergeFrom` | Packet/CsharpPacket/Packet/MessageHeader.cs:363-388 | the parse loop computes the parse function and consumes its input |
| `CsMessages.CsItemInfo.InternalWriteTo` | Packet/CsharpPacket/Packet/Item.cs:3533-3554 | appends exactly the written form |
| `CsMessages.CsItemInfo.CalculateSize` | Packet/CsharpPacket/Packet/Item.cs:3558-3576 | the size is the number of bytes written |
| `CsMessages.CsItemInfo.MergeFrom` | Packet/CsharpPacket/Packet/Item.cs:3580-3597 | merging skips zero and empty fields |
| `CsMessages.CsItemInfo.InternalMergeFrom` | Packet/CsharpPacket/Packet/Item.cs:3635-3660 | the parse loop computes the parse function |
| `CsMessages.CsItemInfo.ReadMessage` | Packet/CsharpPacket/Packet/Item.cs:2385-2399 | an embedded message is parsed inside its length limit, and the outer limit is restored |
| `CsMessages.CsPosition.InternalWriteTo` | Packet/CsharpPacket/Packet/Item.cs:956-978 | appends exactly the written form |
| `CsMessages.CsPosition.CalculateSize` | Packet/CsharpPacket/Packet/Item.cs:981-999 | the size is the number of bytes written |
| `CsMessages.CsPosition.MergeFrom` | Packet/CsharpPacket/Packet/Item.cs:1003-1020 | merging takes the present fields |
| `CsMessages.CsPosition.InternalMergeFrom` | Packet/CsharpPacket/Packet/Item.cs:1058-1083 | the parse loop computes the parse function |
| `CsMessages.CsAddToItem.InternalWriteTo` | Packet/CsharpPacket/Packet/Item.cs:2317-2326 | appends exactly the written form, the nested length prefix included |
| `CsMessages.CsAddToItem.CalculateSize` | Packet/CsharpPacket/Packet/Item.cs:2330-2339 | the size is the number of bytes written |
| `CsMessages.CsAddToItem.MergeFrom` | Packet/CsharpPacket/Packet/Item.cs:2343-2354 | merges into the nested object, creating it when it is missing |
| `CsMessages.CsAddToItem.InternalMergeFrom` | Packet/CsharpPacket/Packet/Item.cs:2385-2399 | the parse loop computes the parse function; repeated occurrences merge into one item |
| `CsMessages.CsInventory.InternalWriteTo` | Packet/CsharpPacket/Packet/Item.cs:3294-3301 | appends exactly the written form |
| `CsMessages.CsInventory.CalculateSize` | Packet/CsharpPacket/Packet/Item.cs:3304-3311 | the size is the number of bytes written |
| `CsMessages.CsInventory.MergeFrom` | Packet/CsharpPacket/Packet/Item.cs:3315-3321 | appends the items of the other message |
| `CsMessages.CsInventory.InternalMergeFrom` | Packet/CsharpPacket/Packet/Item.cs:3347-3360 | the parse loop computes the parse function |
| `CppMessages.SizesExact` | CppCommon/include/google/protobuf/wire_format_lite.h:1759-1820 | the size helpers of the C++ runtime count the bytes written |
| `PresenceBits.BitSet` | Projects/MainServer/Packet/messageHeader.pb.cc:96-111 | setting a presence bit sets that one and leaves the others alone |
| `PresenceBits.BitCleared` | Projects/MainServer/Packet/messageHeader.pb.h:284-287 | clearing a presence bit clears that one and leaves the others alone |
| `PresenceBits.BitsJoined` | Projects/MainServer/Packet/messageHeader.pb.cc:218-281 | joining two presence words joins their bits |
| `CppMessages.CppHeader.Userid` | Projects/MainServer/Packet/messageHeader.pb.h:288-294 | the field is read without its presence bit, and is zero when the number is absent |
| `CppMessages.CppHeader.SetUserid` | Projects/MainServer/Packet/messageHeader.pb.h:295-302 | sets one field of the abstract record under the C++ bit layout |
| `CppMessages.CppHeader.ClearUserid` | Projects/MainServer/Packet/messageHeader.pb.h:284-287 | clears bit and field |
| `CppMessages.CppHeader.Type` | Projects/MainServer/Packet/messageHeader.pb.h:316-320 | the field is read without its presence bit, and is empty when the string is absent |
| `CppMessages.CppHeader.SetType` | Projects/MainServer/Packet/messageHeader.pb.h:321-338 | sets one field of the abstract record |
| `CppMessages.CppHeader.ClearType` | Projects/MainServer/Packet/messageHeader.pb.h:312-315 | clears bit and field |
| `CppMessages.CppHeader.Arr` | Projects/MainServer/Packet/messageHeader.pb.h:384-388 | the field is read without its presence bit, and is empty when the payload is absent |
| `CppMessages.CppHeader.SetArr` | Projects/MainServer/Packet/messageHeader.pb.h:389-406 | sets one field of the abstract record |
| `CppMessages.CppHeader.ClearArr` | Projects/MainServer/Packet/messageHeader.pb.h:380-383 | clears bit and field |
| `CppMessages.CppHeader.Arrsize` | Projects/MainServer/Packet/messageHeader.pb.h:452-458 | the field is read without its presence bit, and is zero when the size is absent |
| `CppMessages.CppHeader.SetArrsize` | Projects/MainServer/Packet/messageHeader.pb.h:459-466 | sets one field of the abstract record |
| `CppMessages.CppHeader.ClearArrsize` | Projects/MainServer/Packet/messageHeader.pb.h:448-451 | clears bit and field |
| `CppMessages.CppHeader.ParseField` | Projects/MainServer/Packet/messageHeader.pb.cc:218-281 | the switch on the field number with a low-byte check does what the record does |
| `CppMessages.CppHeader.InternalParse` | Projects/MainServer/Packet/messageHeader.pb.cc:218-281 | the loop, which collects its presence bits and ORs them in at the end, computes the parse function |
| `CppMessages.CppHeader.MergeImpl` | Projects/MainServer/Packet/messageHeader.pb.cc:373-398 | the bit-guarded merge is the merge of the abstract records |
| `CppMessages.CppHeader.ByteSizeLong` | Projects/MainServer/Packet/messageHeader.pb.cc:328-364 | the size is the number of bytes the serialiser writes |
| `CppMessages.CppHeader.InternalSerialize` | Projects/MainServer/Packet/messageHeader.pb.cc:286-326 | the target holds, from the given position, the same bytes as the C# writer emits, and what was before them |
| `CppMessages.CppItemInfo.InternalParse` | Projects/MainServer/Packet/item.pb.cc:3425-3488 | the loop computes the parse function |
| `CppMessages.CppItemInfo.MergeFrom` | Projects/MainServer/Packet/item.pb.cc:3578-3599 | merging skips zero and empty fields |
| `CppMessages.CppItemInfo.ByteSizeLong` | Projects/MainServer/Packet/item.pb.cc:3536-3569 | the size is exact, and it is stored in the cached size |
| `CppMessages.CppItemInfo.InternalSerialize` | Projects/MainServer/Packet/item.pb.cc:3490-3534 | writes exactly the written form |
| `CppMessages.CppAddToItem.InternalParse` | Projects/MainServer/Packet/item.pb.cc:2238-2273 | the loop computes the parse function |
| `CppMessages.CppAddToItem.MergeImpl` | Projects/MainServer/Packet/item.pb.cc:2321-2334 | merges into the nested object |
| `CppMessages.CppAddToItem.ByteSizeLong` | Projects/MainServer/Packet/item.pb.cc:2296-2312 | the size is exact and every cached size is fresh afterwards |
| `CppMessages.CppAddToItem.InternalSerialize` | Projects/MainServer/Packet/item.pb.cc:2275-2294 | writes the nested length prefix from the cached size |
| `CppMessages.CppAddToItem.SerializeToArray` | Projects/MainServer/Packet/item.pb.cc:2275-2312 | the two passes together fill an array of exactly the computed size with the written form |
| `CppMessages.StoredSizesExact` | Projects/MainServer/Packet/item.pb.cc:3244-3282 | the serialised items are the written ones if and only if every cached size is the size of its item |
| `ParseSteps.TurnsKeepMeaning` | Projects/MainServer/Packet/item.pb.cc:3202-3242 | so many turns of the loop that reads one tag a turn leave a message and an input that together mean what message and input meant before |
| `CppMessages.CppInventory.ParseItems` | Projects/MainServer/Packet/item.pb.cc:3202-3242 | the do-while over ExpectTag leaves the list and the position of the one-tag-per-turn loop after as many turns as items were read, stops where the next byte is not 10, and fails where the next turn of that loop fails |
| `CppMessages.CppInventory.InternalParse` | Projects/MainServer/Packet/item.pb.cc:3202-3242 | with the fast path inside, the loop still computes the parse function, for every input, overlong tags included |
| `CppMessages.CppInventory.MergeImpl` | Projects/MainServer/Packet/item.pb.cc:3291-3301 | appends copies of the items, leaving the other message alone |
| `CppMessages.CppInventory.ByteSizeLong` | Projects/MainServer/Packet/item.pb.cc:3266-3282 | the size is exact and every cached size is fresh afterwards |
| `CppMessages.CppInventory.InternalSerialize` | Projects/MainServer/Packet/item.pb.cc:3244-3264 | writes every nested length prefix from the cached size |
| `CppMessages.CppInventory.SerializeToArray` | Projects/MainServer/Packet/item.pb.cc:3244-3282 | the two passes fill an array of exactly the computed size with the written form |
| `PacketUtil.BytesOfInt32` | Packet/CsharpPacket/PacketUtil.cs:26-42 | reading four big-endian bytes undoes writing an int, whatever follows |
| `PacketUtil.Int32OfBytes` | Packet/CsharpPacket/PacketUtil.cs:26-42 | and the other way round for all four-byte strings |
| `PacketUtil.Int32ToByteArray` | Packet/CsharpPacket/PacketUtil.cs:26-34 | fills the four bytes |
| `PacketUtil.ByteArrayToInt32` | Packet/CsharpPacket/PacketUtil.cs:36-42 | reads the first four bytes; a shorter array is an error |
| `PacketUtil.NetworkOrder` | Packet/CsharpPacket/PacketUtil.cs:26-34 | the length word is in network order, the reverse of the order of fixed-width integers |
| `PacketUtil.FullNameTellsType` | Packet/CsharpPacket/PacketUtil.cs:44-68 | the type name in the header tells the message type |
| `PacketUtil.NamedExactly` | Projects/UnityClient/Assets/Scripts/Network/Network/NetworkClient.cs:112-125 | a name in a header reaches the receivers of a type if and only if it is the name that messages of the type are packed with |
| `PacketUtil.NameInBytes` | Packet/CsharpPacket/PacketUtil.cs:54-58 | the bytes of the name field stand for the name |
| `PacketUtil.PackUnpack` | Packet/CsharpPacket/PacketUtil.cs:15-88 | the whole stack: a frame followed by arbitrary bytes unpacks to a header with the payload, its size and a name that tells the type, no user id and nothing unknown, and the message created from it is the one packed |
| `PacketUtil.FramePrefixFree` | Packet/CsharpPacket/PacketUtil.cs:44-88 | no frame is a proper prefix of another: equal streams start with the same message and leave the same rest |
| `PacketUtil.FramesUnique` | Packet/CsharpPacket/PacketUtil.cs:44-88 | a concatenation of frames splits in one way only |
| `PacketUtil.Pack` | Packet/CsharpPacket/PacketUtil.cs:44-68 | a null message is refused; otherwise the array is the frame of the message |
| `PacketUtil.Unpack` | Packet/CsharpPacket/PacketUtil.cs:70-88 | null, short, negative and overlong lengths, and malformed headers are told apart; success gives the unpacked header |
| `PacketUtil.CreateMessage` | Packet/CsharpPacket/PacketUtil.cs:15-21 | parses the first ArrSize bytes of the payload into a new message of the type; a size outside the payload is an error |
| `Padding.FieldWidth` | CppCommon/include/spdlog/pattern_formatter-inl.h:37-93 | a field that declares its true size has length max(n, width), or exactly width when truncating, its text placed by side, earlier output untouched |
| `Padding.CentreIsBalanced` | CppCommon/include/spdlog/pattern_formatter-inl.h:57-63 | in the centre the odd space goes to the right |
| `Padding.EarlierOutputKeptExactly` | CppCommon/include/spdlog/pattern_formatter-inl.h:70-82 | earlier output survives if and only if the field does not truncate or declares no more than its width and text together |
| `Padding.ScopedPadder.PadIt` | CppCommon/include/spdlog/pattern_formatter-inl.h:84-88 | is only ever asked for 0 to 64 spaces |
| `Padding.AppendField` | CppCommon/include/spdlog/pattern_formatter-inl.h:107-120 | constructor, text and destructor of the padder together |
| `Padding.CountDigits` | CppCommon/include/spdlog/details/fmt_helper.h:55-76 | counting four digits at a time gives the length of the decimal text |
| `LogFields.Basename` | CppCommon/include/spdlog/pattern_formatter-inl.h:825-843 | the result has no separator and is what stands behind the last one |
| `LogFields.DeclaredExactly` | CppCommon/include/spdlog/pattern_formatter-inl.h:107-905 | for every field flag the exact condition under which it declares the size it prints; only the time fields look at the time, which is a calendar time or the zeroed one |
| `LogFields.FieldsFillTheirWidth` | CppCommon/include/spdlog/pattern_formatter-inl.h:107-905 | under that condition a padded field has length max(n, width), or exactly width when truncating, and leaves earlier output alone |
| `LogFields.FieldsFillTheirWidthAtZero` | CppCommon/include/spdlog/pattern_formatter-inl.h:1022-1073 | in particular at the zeroed time, which every field gets in a formatter whose pattern does not need the time, and the first ones of second zero in any other |
| `LogFields.FractionFieldExactly` | CppCommon/include/spdlog/pattern_formatter-inl.h:438-490 | %e, %f and %F print the columns they declare if and only if the fraction is not negative; a negative one wraps around |
| `LogFields.FractionBeforeEpoch` | CppCommon/include/spdlog/pattern_formatter-inl.h:438-453 | a millisecond before the epoch %e declares three columns and prints ten |
| `LogFields.TenCharactersExactly` | CppCommon/include/spdlog/pattern_formatter-inl.h:493-509 | the ten columns %E declares are right if and only if 10^9 <= secs < 10^10 or -10^9 < secs <= -10^8 |
| `LogFields.LineExactly` | CppCommon/include/spdlog/pattern_formatter-inl.h:862-882 | the digits counted for a line are the columns it prints if and only if it is not negative, or its text has ten characters by chance |
| `LogFields.DateTimeExactly` | CppCommon/include/spdlog/pattern_formatter-inl.h:256-276 | the 24 columns %c declares are right exactly if the month is September and the day has one digit, or neither |
| `LogFields.ShortYearExactly` | CppCommon/include/spdlog/pattern_formatter-inl.h:280-294 | the remainder of the year takes the two columns %C declares if and only if it is above -10; before 1900 it is negative |
| `LogFields.ShortDateEstimate` | CppCommon/include/spdlog/pattern_formatter-inl.h:297-315 | %D and %x declare ten columns and print eight, or nine where the remainder of the year takes three |
| `LogFields.ShortDateCutsEarlierOutput` | CppCommon/include/spdlog/pattern_formatter-inl.h:70-82 | so %0!D removes two characters of earlier output, or one |
| `LogFields.PlainFieldsIgnoreTime` | CppCommon/include/spdlog/pattern_formatter-inl.h:1121-1332 | a flag that does not set need_localtime_ does not read the time |
| `LogFields.FieldReadsTimeExactly` | CppCommon/include/spdlog/pattern_formatter-inl.h:1121-1332 | the field flags that set need_localtime_ are exactly those that print two calendar times differently, in any message |
| `FieldTexts.TimeFieldsRead` | CppCommon/include/spdlog/pattern_formatter-inl.h:317-436 | hour, minute, second, day, month and year are read back from the texts of %H, %M, %S, %d, %m and %Y, at any time |
| `FieldTexts.ShortYearReads` | CppCommon/include/spdlog/pattern_formatter-inl.h:278-294 | the text of %C is the year up to its century, negative before 1900 |
| `FieldTexts.HourRecovered` | CppCommon/include/spdlog/pattern_formatter-inl.h:156-164 | the hour is recovered from %I and %p together |
| `FieldTexts.TwelveHoursExactly` | CppCommon/include/spdlog/pattern_formatter-inl.h:385-402 | %I is within the 1 to 12 of its comment if and only if it is not the hour after midnight, which prints as 00 |
| `FieldTexts.WeekdaysTell` | CppCommon/include/spdlog/pattern_formatter-inl.h:166-207 | the texts of %a and %A tell the weekday, and the short one begins the full one |
| `FieldTexts.MonthsTell` | CppCommon/include/spdlog/pattern_formatter-inl.h:209-246 | so do those of %b, %h and %B for the month |
| `FieldTexts.ExampleTexts` | CppCommon/include/spdlog/pattern_formatter-inl.h:247-316 | the examples in the comments on %c, %D and %r, the last one in capitals |
| `FieldTexts.PlainFieldsRead` | CppCommon/include/spdlog/pattern_formatter-inl.h:491-678 | thread, process, seconds and line are read back from the texts of %t, %P, %E and %# |
| `FieldTexts.TimeRecovered` | CppCommon/include/spdlog/details/fmt_helper.h:149-160 | from the epoch on, %E and %F are seconds and nanoseconds of the time, and %f and %e cut the nanoseconds |
| `FieldTexts.LevelReads` | CppCommon/include/spdlog/common-inl.h:23-49 | from_str reads a level back from its name, and from no other names but warn and err; the short name is the initial |
| `FieldTexts.LevelFieldsRead` | CppCommon/include/spdlog/pattern_formatter-inl.h:122-153 | the level of a message is read back from %l, and %L is the initial of that |
| `PatternGrammar.ReadSpecFits` | CppCommon/include/spdlog/pattern_formatter-inl.h:1338-1388 | the spec that is found is a prefix of the text and could not be longer |
| `PatternGrammar.ReadSpecBack` | CppCommon/include/spdlog/pattern_formatter-inl.h:1338-1388 | every spec is read back from its text, whatever stands behind it |
| `PatternGrammar.WidthExactly` | CppCommon/include/spdlog/pattern_formatter-inl.h:1364-1387 | the width is at most 64, and equals min(value, 64) if and only if the 64-bit wrap-around does not bring it below 64; always if the value fits |
| `PatternGrammar.HugeWidthWraps` | CppCommon/include/spdlog/pattern_formatter-inl.h:1364-1370 | a width where it does |
| `PatternGrammar.SideOfSpec` | CppCommon/include/spdlog/pattern_formatter-inl.h:1350-1362 | minus puts the spaces of a field that fits behind its text, equals around it, no side in front of it |
| `PatternMeaning.SpecLaysOut` | CppCommon/include/spdlog/pattern_formatter-inl.h:37-93 | any text behind any spec: as it is without a width; else filled up to the width, at most 64, with spaces in front, behind for a minus, around for an equals sign, and cut to it exactly if the spec has the mark |
| `PatternMeaning.UnknownWritten` | CppCommon/include/spdlog/pattern_formatter-inl.h:1305-1333 | the mark in front of something that is no flag asks for the function name, filled up but not cut, and the character follows |
| `PatternGrammar.HandlePadspec` | CppCommon/include/spdlog/pattern_formatter-inl.h:1338-1388 | the scanner consumes exactly the spec and returns its padding, whose meaning PatternMeaning.SpecLaysOut states |
| `PatternGrammar.SegmentsCoverPattern` | CppCommon/include/spdlog/pattern_formatter-inl.h:1390-1435 | the segments of a pattern spell the pattern: every character is consumed once |
| `PatternGrammar.SegmentsCanonical` | CppCommon/include/spdlog/pattern_formatter-inl.h:1390-1435 | literal runs are maximal, specs are as long as they can be, only the last segment is incomplete |
| `PatternGrammar.SegmentsUnique` | CppCommon/include/spdlog/pattern_formatter-inl.h:1390-1435 | and no other such segmentation spells it: the grammar is unambiguous |
| `FormatterModel.NeedExactly` | CppCommon/include/spdlog/pattern_formatter-inl.h:1105-1333 | need_localtime_ is set exactly if some compiled flag is one that reads the time; every compiled width is at most 64 |
| `FormatterTheorems.PrintsByTimeExactly` | CppCommon/include/spdlog/pattern_formatter-inl.h:1105-1333 | the flags that read the time are exactly those that, but for their padding, print some message differently at two times |
| `FormatterTheorems.NeedIsPrintingByTime` | CppCommon/include/spdlog/pattern_formatter-inl.h:1105-1333 | so a pattern sets need_localtime_ if and only if one of its compiled flags prints by the time |
| `FormatterTheorems.FlagsShowSegments` | CppCommon/include/spdlog/pattern_formatter-inl.h:1390-1435 | the compiled flags print the meanings of the segments one behind the other: literal runs as they are, placeholders by their flag and padding, an incomplete trailing spec as nothing |
| `PatternMeaning.PatternWritten` | CppCommon/include/spdlog/pattern_formatter-inl.h:1390-1435 | a compiled pattern writes what its segments mean, written out for every kind of segment, if padded fields declare their size |
| `PatternMeaning.RunWritten` | CppCommon/include/spdlog/pattern_formatter-inl.h:1028-1101 | over every run of messages the formatter writes the meaning of its pattern at the time of each message on the clock it was constructed for, and the end of line |
| `PatternMeaning.PatternReplaced` | CppCommon/include/spdlog/pattern_formatter-inl.h:1083-1088 | behind set_pattern, whatever the formatter was used for before, every message has the meaning of the new pattern with the flags added so far |
| `PatternMeaning.OneClockOnly` | CppCommon/include/spdlog/pattern_formatter-inl.h:1094-1101 | over every run, whatever its patterns, a formatter of local time prints the same whatever the UTC clock says, and the other way round |
| `PatternMeaning.MessageTime` | CppCommon/include/spdlog/pattern_formatter-inl.h:1063-1101 | a message that needs the time is printed at its time by the clock of the formatter |
| `PatternEquivalences.PaddedFieldRun` | CppCommon/include/spdlog/pattern_formatter-inl.h:1376-1387 | a padded field in a compiled pattern: the text of the field as the spec lays it out, cut exactly if it has the mark |
| `PatternEquivalences.TimeFlagRuns` | CppCommon/include/spdlog/pattern_formatter-inl.h:1142-1253 | each of the time flags by itself prints its part of the time of the message, as FieldTexts reads it back |
| `PatternEquivalences.PlainFlagRuns` | CppCommon/include/spdlog/pattern_formatter-inl.h:1112-1283 | each of the other field flags by itself prints its part of the message or the process |
| `PatternEquivalences.TimePatternsAlike` | CppCommon/include/spdlog/pattern_formatter-inl.h:295-315 | %R prints as %H:%M, %T and %X as %H:%M:%S, %r as %I:%M:%S %p, %D and %x as %m/%d/%C, in every message at any time |
| `PatternEquivalences.TimeRunsAlike` | CppCommon/include/spdlog/pattern_formatter-inl.h:551-592 | and over every run, new patterns and added flags included |
| `PatternEquivalences.DateAndTimeTexts` | CppCommon/include/spdlog/pattern_formatter-inl.h:248-276 | %c is weekday, month, day, time and year exactly if the day is not of one digit, which it does not fill up |
| `PatternEquivalences.PlacePatternExactly` | CppCommon/include/spdlog/pattern_formatter-inl.h:758-790 | %@ prints as %g:%# if and only if the message has a source location |
| `PatternEquivalences.FullIsPatternExactly` | CppCommon/include/spdlog/pattern_formatter-inl.h:932-1013 | the full format prints a message, colour range included, as the pattern in its comment does if and only if there are a logger name and a source location |
| `PatternEquivalences.FullRunsAlike` | CppCommon/include/spdlog/pattern_formatter-inl.h:932-1018 | so over every run of such messages the full format with its cached dates prints what that pattern prints |
| `PatternEquivalences.FunctionNameExamples` | CppCommon/include/spdlog/pattern_formatter-inl.h:1319-1330 | the two examples in the code: %10! in front of a bracket and %3!! |
| `HistoryFlags.WaitsExactly` | CppCommon/include/spdlog/pattern_formatter-inl.h:907-930 | each number is the whole units between its message and the one before, none if the time went back |
| `HistoryFlags.ElapsedRuns` | CppCommon/include/spdlog/pattern_formatter-inl.h:1285-1303 | over every run %u, %i, %o and %O print those numbers in nanoseconds, microseconds, milliseconds and seconds, the first since the compilation |
| `HistoryFlags.WaitsAddUp` | CppCommon/include/spdlog/pattern_formatter-inl.h:907-930 | in nanoseconds the numbers of a run that does not go back add up to the whole time of the run |
| `HistoryFlags.ZoneReads` | CppCommon/include/spdlog/pattern_formatter-inl.h:595-622 | sign, hours and minutes of the offset are read back from its text |
| `HistoryFlags.ZoneRuns` | CppCommon/include/spdlog/pattern_formatter-inl.h:595-641 | over every run that begins ten seconds behind the epoch, the printed offset is that at the time of a message less than ten seconds older |
| `PatternFormatters.PatternFormatter.HandleFlag` | CppCommon/include/spdlog/pattern_formatter-inl.h:1105-1333 | pushes the meaning of the flag: custom handlers first, unknown flags as they are, an unknown flag behind ! as function name and character |
| `PatternFormatters.PatternFormatter.CompilePattern` | CppCommon/include/spdlog/pattern_formatter-inl.h:1390-1435 | one pass over the characters yields the concatenated meanings of the segments, the incomplete trailing spec dropped |
| `PatternFormatters.PatternFormatter.constructor` | CppCommon/include/spdlog/pattern_formatter-inl.h:1022-1033 | a new formatter is the compiled pattern with empty caches |
| `PatternFormatters.PatternFormatter.ResetPattern` | CppCommon/include/spdlog/pattern_formatter-inl.h:1083-1088 | recompiles, recomputes the need for the time and keeps the time cache |
| `PatternFormatters.PatternFormatter.AddFlagHandler` | CppCommon/include/spdlog/pattern_formatter.h:88-93 | adds a handler without recompiling |
| `PatternFormatters.PatternFormatter.CloneFormatter` | CppCommon/include/spdlog/pattern_formatter-inl.h:1047-1061 | a fresh formatter with the pattern compiled anew and the need for the time copied |
| `PatternFormatters.PatternFormatter.FormatFull` | CppCommon/include/spdlog/pattern_formatter-inl.h:941-1013 | renders through the date cache, notes the colour range |
| `PatternFormatters.PatternFormatter.FormatMessage` | CppCommon/include/spdlog/pattern_formatter-inl.h:1063-1081 | refreshes the time when needed, runs the flags, appends the end of line: the output and all fields are those of the state machine |
| `FormatterTheorems.FlagTransparent` | CppCommon/include/spdlog/pattern_formatter-inl.h:934-1018 | a flag whose cached date fits prints as with an empty cache |
| `FormatterTheorems.FlagKept` | CppCommon/include/spdlog/pattern_formatter-inl.h:934-1018 | every flag, also %z and the elapsed ones, leaves the date of the message in its cache and stays of its kind |
| `FormatterTheorems.FormatKeepsGood` | CppCommon/include/spdlog/pattern_formatter-inl.h:1063-1081 | no message breaks the date caches, whatever flags there are and whatever second it is |
| `FormatterTheorems.TimeRightExactly` | CppCommon/include/spdlog/pattern_formatter-inl.h:1063-1073 | the time handed to the flags is that of the message if and only if it is not needed, was looked up before, or the second is not zero |
| `FormatterTheorems.FormatAsFresh` | CppCommon/include/spdlog/pattern_formatter-inl.h:934-1018 | in any second and any state a formatter reaches, the cached dates do not show: only the time at hand does |
| `FormatterTheorems.FormatTransparent` | CppCommon/include/spdlog/pattern_formatter-inl.h:1063-1081 | one message through the caches comes out as without, and every cache invariant is kept |
| `FormatterTheorems.CachesDoNotShow` | CppCommon/include/spdlog/pattern_formatter-inl.h:1063-1088 | over every run of messages, new patterns and added flags the outputs equal those of a formatter without caches |
| `FormatterTheorems.TimesRightExactly` | CppCommon/include/spdlog/pattern_formatter-inl.h:1028-1073 | the condition on the first timed message is necessary and sufficient for every message to get its own time |
| `FormatterTheorems.SecondZeroDiffers` | CppCommon/include/spdlog/pattern_formatter-inl.h:1028-1073 | the run where it fails: second zero in a new formatter prints day 00 |
| `FormatterTheorems.NewStateGood` | CppCommon/include/spdlog/pattern_formatter-inl.h:1022-1033 | a new formatter satisfies the cache invariants |
| `FormatterTheorems.DefaultIsFullFormat` | CppCommon/include/spdlog/pattern_formatter-inl.h:1036-1045 | the formatter without a pattern is the one compiled from %+ |
| `CloneTheorems.CompileAlikeExactly` | CppCommon/include/spdlog/pattern_formatter-inl.h:1105-1117 | a pattern compiles to the same flags under two tables of handlers if and only if its placeholders meet the same handlers |
| `CloneTheorems.CompileIgnoresClock` | CppCommon/include/spdlog/pattern_formatter-inl.h:1390-1435 | without elapsed flags compiling does not depend on the clock |
| `CloneTheorems.AddFlagKeepsCurrentExactly` | CppCommon/include/spdlog/pattern_formatter.h:88-93 | an added flag leaves the compiled flags those of the handlers if and only if no placeholder has it, or the handler is the one there was |
| `CloneTheorems.AfterRun` | CppCommon/include/spdlog/pattern_formatter-inl.h:1063-1088 | behind any run of messages, patterns and added flags, %z and elapsed flags included, the caches are sound, and messages have changed nothing but caches |
| `CloneTheorems.ReachedCurrentExactly` | CppCommon/include/spdlog/pattern_formatter-inl.h:1063-1088 | in every reachable state whose present pattern does not depend on history the flags are those of the handlers if and only if no placeholder got another handler since the last compilation |
| `CloneTheorems.UnusedNeverPending` | CppCommon/include/spdlog/pattern_formatter.h:88-93 | which holds whenever only flags that the pattern does not use were added, whatever patterns came before |
| `CloneTheorems.CloneConfigExactly` | CppCommon/include/spdlog/pattern_formatter-inl.h:1047-1061 | a clone, made at any later clock, has the configuration of the original if and only if no added flag is pending |
| `CloneTheorems.CloneTimesExactly` | CppCommon/include/spdlog/pattern_formatter-inl.h:1047-1073 | a clone hands the same times to its flags as the original over a later run if and only if the original looked up no time yet, or the first timed message is not in second zero |
| `CloneTheorems.CloneEquivalent` | CppCommon/include/spdlog/pattern_formatter-inl.h:1047-1061 | over all reachable states, whatever patterns were replaced: if no added flag is pending, a clone made at any later clock prints every later run as the original, whatever the caches hold |
| `CloneTheorems.UsedFlagShows` | CppCommon/include/spdlog/pattern_formatter-inl.h:1047-1061 | that condition can not be weakened: for any flag the pattern uses there is a handler that makes clone and original print differently, in any message |
| `CloneTheorems.AddedFlagShowsInClone` | CppCommon/include/spdlog/pattern_formatter-inl.h:1047-1061 | a formatter and an added flag where they differ |
| `FormatterTheorems.EscapedTextPrints` | CppCommon/include/spdlog/pattern_formatter-inl.h:1390-1435 | with every percent sign doubled, a text prints exactly itself and the end of line |
| `Loggers.Logger.SetFormatter` | CppCommon/include/spdlog/logger-inl.h:84-99 | every sink gets a formatter of its own: clones, and the original for the last |
| `Loggers.Logger.ResetPattern` | CppCommon/include/spdlog/logger-inl.h:101-105 | set_pattern gives every sink a fresh formatter of its own for the pattern |
| `Loggers.SinksPrintAlike` | CppCommon/include/spdlog/logger-inl.h:84-99 | the sinks of a logger that was handed a formatter, used in any way before and whatever patterns it had, print every later run alike if no added flag is pending |
| `Loggers.PatternSinksPrintAlike` | CppCommon/include/spdlog/logger-inl.h:101-105 | behind set_pattern all sinks print every run alike, from second zero on |
| `CollectionSettings.CollectionOptions.SetOne` | CppCommon/include/mysqlx/xdevapi.h:484-514 | one option does what its step says, the marks of a whole validation overwritten as in the code |
| `CollectionSettings.CollectionOptions.Set` | CppCommon/include/mysqlx/xdevapi.h:466-476 | all options are applied in order, or the settings stay as they were |
| `CollectionSettings.CollectionValidation.SetOne` | CppCommon/include/mysqlx/xdevapi.h:1193-1243 | one validation setting; wrong value types and the last code are refused, unknown codes passed over |
| `CollectionSettings.CollectionValidation.Set` | CppCommon/include/mysqlx/xdevapi.h:247-257 | all or nothing for the nested settings |
| `CollectionSettings.NestedSteps` | CppCommon/include/mysqlx/xdevapi.h:500-505 | setting a validation by itself is setting it inside the options |
| `CollectionSettings.StepExactly` | CppCommon/include/mysqlx/xdevapi.h:1193-1269 | an option succeeds if and only if its value is acceptable and what it wants is unused; it then uses what it takes |
| `CollectionSettings.AcceptedExactly` | CppCommon/include/mysqlx/xdevapi.h:466-507 | a list succeeds if and only if no option is unacceptable, meets a used setting, or wants what an earlier one takes |
| `CollectionSettings.AcceptedValues` | CppCommon/include/mysqlx/xdevapi.h:466-507 | after success each setting holds what the one option that takes it gives, or what it held before |
| `CollectionSettings.LevelByName` | CppCommon/include/mysqlx/xdevapi.h:1219-1243 | setting the level by enumerator is setting it by name; a code that is neither leaves the text as it was |
| `CollectionSettings.LevelsByName` | CppCommon/include/mysqlx/xdevapi.h:1219-1243 | in any list, whatever stands around it |
| `CollectionSettings.SchemaByText` | CppCommon/include/mysqlx/xdevapi.h:1193-1216 | a schema handed over as a text is the document it is parsed to |
| `CollectionSettings.WriteOnce` | CppCommon/include/mysqlx/xdevapi.h:1193-1269 | no later success changes a used setting |
| `CollectionSettings.PartialValidationStaysOpen` | CppCommon/include/mysqlx/xdevapi.h:1255-1269 | after a whole validation the schema can be set if and only if that validation left it unset |
| `Unity.RotationIsSandwich` | Projects/MainServer/unity.cpp:27-48 | the nine entries are the vector part of q p q* plus (1 - norm(q)^2) p, for every quaternion |
| `Unity.RotationIsRodrigues` | Projects/MainServer/unity.cpp:27-48 | and p + 2w(v x p) + 2 v x (v x p) |
| `Unity.RotationsCompose` | Projects/MainServer/unity.cpp:27-48 | rotating by b and then a is rotating by their Hamilton product |
| `Unity.RotationUndone` | Projects/MainServer/unity.cpp:27-48 | the conjugate rotates back |
| `Unity.RotationIsLinear` | Projects/MainServer/unity.cpp:15-48 | rotation distributes over Vector3_Addition and Vector3_Multiply |
| `Unity.DotIsLinear` | Projects/MainServer/unity.cpp:15-25 | addition and scaling of vectors, seen through the dot product with any vector |
| `Unity.LengthLaw` | Projects/MainServer/unity.cpp:27-48 | norm(result)^2 - norm(p)^2 = 4(norm(q)^2 - 1)norm(v x p)^2 for all quaternions and points |
| `Unity.LengthKeptExactly` | Projects/MainServer/unity.cpp:27-48 | a length is kept if and only if the quaternion is a unit or the point lies on the axis |
| `Unity.DotKept` | Projects/MainServer/unity.cpp:27-48 | a unit quaternion preserves dot products |

## Left out

- The other messages of the schema: the same five shapes again; the messages without fields say nothing.
- The C# Protocol Buffers runtime is not part of this model: its stream reads and writes are modelled from the encoding guide, with ten-byte varints truncated to 32 bits; reading a slice outside a buffer is an error.
- Groups (wire types 3 and 4) are rejected by the model; the runtimes skip or keep them.
- Unknown fields are an ordered sequence of records. The C# runtime groups them by field number when it writes them, so byte equality of the two writers is the code's for messages without unknown fields.
- Strings are byte sequences; UTF-8 validation is not modelled, so the agreement of the readers is about strings that are valid UTF-8.
- Floats in messages are their 32-bit patterns.
- `InternalMergeFrom`, `InternalParse`: the fields after a parse that failed are not specified.
- `CsMessages.CsInventory.MergeField`: reads one item for a tag. The runtime's `AddEntriesFrom`, which the code calls, is not part of this model; where it reads a run of items behind one tag, the model reads them in as many turns of the loop.
- `LogFields.DeclaredExactly`, `LogFields.FieldsFillTheirWidth`: the time of a time field is in the years 1000 to 9999, more than a 64-bit count of nanoseconds reaches, or zeroed; the line is an int.
- `CloneTheorems.CloneEquivalent`: like `FormatterTheorems.CachesDoNotShow` for a present pattern and a later run without %z, the elapsed flags and manual calls of `need_localtime`; patterns that were replaced before may have had them.
- Messages beyond 2 GiB: sizes are mathematical integers, and `Framable` and `Fits` are the lengths an int can hold.
- The input of a C++ parse loop is one contiguous buffer with a limit; patching at chunk ends, arenas, swaps, reflection and descriptors are not modelled.
- `PacketManager`, `UserManager` and `Route` are not part of this model.
- The flag formatters of a pattern are values in a sequence field: each is owned by its formatter alone, so aliasing between them can not occur.
- `FormatterTheorems.CachesDoNotShow`: runs with %z or the elapsed flags are excluded, because these depend on the messages before by design; so are manual calls of `need_localtime`. `FormatMessage` covers them.
- `PatternFormatters.PatternFormatter.HandleFlag`: one clock reading stands for all elapsed flags that one compilation creates.
- Custom flag handlers are functions of padding and message that do not read the time and keep no state.
- Local time, UTC time, the offset of the time zone, process id and path separators are parameters; the local time is a function of the second.
- Locks, sinks other than their formatter field, the asynchronous pool and the registry of spdlog.
- Options from JSON documents and the parsing of a schema text; a parser that may refuse a text is a parameter.
- Rounding in the rotation code: the model computes over the reals.
- Sockets, Redis, the console, the database connection and the Unity client: input and output only.
