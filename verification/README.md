# Verified model of the shooter server's protocol and its runtime

The server exchanges seven Protocol Buffers messages with its clients. This project models the generated
message code, the framing and relaying of packets, and the parts of the protobuf 3.21 runtime headers with
the most state, and proves what they promise. `dafny verify dfyconfig.toml` checks everything.

**Hash table** (`HashLayout`, `LoadFactor`, `IterationOrder`, `HashTable`, `ProtoMap`). `InnerMap` is a class
over real node, tree and table objects. A ghost value, the layout, says which nodes hang in which bucket.
`Core` ties it to memory and `Layout.Ok` holds the pure invariants; every method proves that the heap after it
matches a pure step on layouts, and the lemmas about layouts prove that the step keeps the invariants and what
it does to the abstract map. The hash is an arbitrary function of key and seed, so every collision pattern is
covered. Iterators may hold stale bucket numbers.

**Wire codec** (`Wire`, `UnknownFields`, `Messages`, `Codec`, `CodecLaws`, `DepthLimit`, `Growth`, `Relaying`,
`Sizes`, `Cases`). One schema, a list of field number, kind and presence per message type, stands for the seven
generated copies of the same code; `Cases` proves of it what each case of their switches does. Encoding, parsing and merging are functions on message values; floats are
their 32 raw bits. Unknown fields, nested groups included, are kept and written back as the generated code does.

**Message objects** (`MemberOrders`, `Lookahead`, `Leftovers`, `MessageObjects`, `MessageRuns`). One class, driven
by the schema, for the seven generated classes: presence bits, stored scalars, sub-message pointers, unknown
fields and a cached size, changed in place. The invariant says that a clear presence bit goes with a zero scalar
or an emptied sub-message, and a set one with a sub-message object. During a parse it holds with the bits that
are still in a local. A record is read before it is compared with the limit of its message, as in the original.
What a failed parse leaves is a relation, because it may depend on bytes behind the input.

**Packets** (`Packets`). `PacketBuffer`, `SerializePacket` with its 16-bit sizes, and the receive handlers that
parse a message and send it on, for every content of the receive buffer.

**Arena** (`Bits`, `Alignment`, `Arenas`, `ArenaRuns`). `SerialArena` over a memory of words. A ghost map gives
each byte its one use, so nothing can overlap; the heads of the free lists live in that memory.

**Smaller algorithms** (`MapEntries`, `MessageSets`, `DescriptorIndexes`). The two parsers of a map entry, the
MessageSet item, and the symbol lookup whose proof stands as a comment in the header.

## Findings

- A parse of an encoding fails, although the message was written without complaint, exactly when the message
  is nested deeper than the reader's recursion limit (`DepthLimit.RoundTripExactly`; 101 groups in
  `DepthLimit.TooDeepToRead`). A message that was parsed under a limit is never that deep
  (`Relaying.ParsedDepth`), but what a failed parse leaves can be, by one level (`Leftovers.LeftDepth`).
- A map-entry parse that fails can leave its entry in the map: the fast path does not undo the insertion when
  the value was read past the limit (`MapEntries.Parser.InternalParse`, `MapEntries.OverrunOccurs`).
- A MessageSet item does not mean the same in both orders: a payload that follows its type id costs one
  recursion level more, and an unknown type id zero is refused only then (`MessageSets.SameFirstsSameEffect`,
  with `MessageSets.OrderMattersForZero` and `MessageSets.OrderMattersAtTheLimit`).
- A table may hold more than 3/4 of an element per bucket after it shrank: 18 elements in 16 buckets
  (`LoadFactor.ThreeQuartersIsNotKept`). A table below the cap keeps 3/4 exactly when it does not shrink, or
  shrinks by `j` bits and `new_size << j` is at most the growth limit it had (`LoadFactor.ThreeQuartersExactly`).
  The bound that is always kept below the cap is 6/5 (`LoadFactor.TargetOk`).
- The receive handlers ignore whether the payload could be parsed: a packet is queued in any case
  (`Packets.Relay`). Other clients read what was sent if and only if the payload parses and, where the Id is
  asked for first, has one (`Packets.RelayIsFaithfulExactly`). The payload `[0]` of a movement goes out as the
  default movement (`Packets.UnreadableIsSentOn`).
- A relayed message without an Id may or may not have one when it leaves: the handlers copy the message and call
  `mutable_id()` in one argument list, whose order of evaluation is unspecified. The two orders agree exactly
  when the message has an Id (`Packets.GivenId`).
- The length in a received header is not compared with the receive buffer. All the bytes a handler is told to
  parse are there exactly when the header says a length from 4 to 1024. With any other length it looks behind
  the buffer, unless the parse is refused before (`Packets.StaysInside`, `Lookahead.MessageTells`): always, if
  the buffer holds a message, and never, if it begins with a zero (`Packets.ZeroTagStops`).
- A tag that the end of the input cuts off is completed by the bytes behind it and acted on before the overrun is
  noticed: the payload `[0x8A]` of a movement can be sent on with an Id (`Packets.HalfATagIsSentOn`).
- A packet holds its payload exactly when the payload is shorter than 65532 bytes. For lengths 65532 to 65535
  modulo 65536 the header is copied into a buffer that is too small for it
  (`Packets.PacketHoldsPayloadExactly`). Messages without unknown fields, and whatever is relayed, never get
  near that (`Packets.PlainMessagesFit`, `Packets.SentSize`).

## Model

| member | source | states |
|---|---|---|
| `HashTable.InnerMap.Structure` | Dependencies/include/google/protobuf/map.h:870-939 | Memory of a valid table, bucket by bucket: power-of-two size; `b` and `b^1` equal and non-null exactly for a shared tree; lists of 1 to 8 nodes; null links inside trees |
| `HashTable.InnerMap.FirstInUse` | Dependencies/include/google/protobuf/map.h:539-541 | The cached first bucket is the least one in use, or the number of buckets |
| `HashTable.InnerMap.NodesInPlace` | Dependencies/include/google/protobuf/map.h:439-441 | Every element hangs in the bucket its key hashes to, or in the tree of that pair, and in no second place |
| `HashLayout.FoldIsMask` | Dependencies/include/google/protobuf/map.h:1093-1103 | Folding a hash by the table size is the mask `num_buckets_ - 1` when the size is a power of two |
| `HashTable.InnerMap.KindIsTold` | Dependencies/include/google/protobuf/map.h:1039-1050 | Comparing the two pointers of a pair tells list from tree in every reachable table |
| `HashTable.InnerMap.FindHelper` | Dependencies/include/google/protobuf/map.h:841-864 | The node of the key if and only if the abstract map has it, with its bucket and tree position, for every hash function and seed |
| `HashTable.InnerMap.FindInList` | Dependencies/include/google/protobuf/map.h:844-852 | A list search finds the key exactly when it is there |
| `HashTable.InnerMap.InsertUniqueInList` | Dependencies/include/google/protobuf/map.h:918-929 | Either place of insertion keeps all invariants and adds just this key |
| `HashTable.InnerMap.InsertUniqueInTree` | Dependencies/include/google/protobuf/map.h:933-939 | Inserting into a shared tree keeps all invariants, clears the link of the node and adds just this key |
| `HashTable.InnerMap.TableEntryIsTooLong` | Dependencies/include/google/protobuf/map.h:1079-1090 | The count reaches 8 exactly when the list is full |
| `HashTable.InnerMap.CopyListToTree` | Dependencies/include/google/protobuf/map.h:1064-1075 | The tree gains exactly the nodes of the list, as a multiset, and all their links become null |
| `HashTable.InnerMap.TreeConvert` | Dependencies/include/google/protobuf/map.h:1052-1060 | Both lists of the pair become one tree at both table entries; no other bucket changes; the map does not change |
| `HashTable.InnerMap.InsertUnique` | Dependencies/include/google/protobuf/map.h:870-903 | The key is added, all invariants hold, the bucket is a tree afterwards exactly if it was one or was a list of eight, no other pair of buckets changes, and the cached first bucket is again the least non-null one |
| `HashTable.InnerMap.TransferList` | Dependencies/include/google/protobuf/map.h:1011-1018 | A list of the old table moves over whole, also when lists of the new one turn into trees midway |
| `HashTable.InnerMap.TransferTree` | Dependencies/include/google/protobuf/map.h:1020-1028 | A tree of the old table moves over whole |
| `HashTable.InnerMap.Resize` | Dependencies/include/google/protobuf/map.h:984-1009 | The new table has the same node objects under the same keys, none lost or doubled, and all invariants |
| `HashTable.InnerMap.ReductionFactor` | Dependencies/include/google/protobuf/map.h:964-972 | The shift loop ends, stays inside 64 bits, and stops at the least shift that reaches the cutoff |
| `HashTable.InnerMap.ResizeIfLoadIsOutOfRange` | Dependencies/include/google/protobuf/map.h:950-981 | Leaves a legal table size with room for one more element, and more than 3/16 of an element per bucket above 8 buckets; contents unchanged |
| `LoadFactor.TargetExactly` | Dependencies/include/google/protobuf/map.h:950-981 | The size that results, by the numbers: a one-entry table becomes 8; at 3/4 of an element per bucket or more a table doubles, up to 2^60; at 3/16 or less and above 8 it becomes the largest power of two of at most half its size, at least 8, whose 3/4 do not exceed `size * 5 / 4 + 1`; any other stays |
| `LoadFactor.NotTooSparse` | Dependencies/include/google/protobuf/map.h:950-981 | Afterwards a table of more than 8 buckets holds more than 3/16 of an element per bucket |
| `LoadFactor.TargetOk` | Dependencies/include/google/protobuf/map.h:950-981 | Whatever size results, it is a power of two in range and 5 * elements < 6 * buckets below the cap |
| `LoadFactor.ShrinkOk` | Dependencies/include/google/protobuf/map.h:961-978 | The shrink never shifts the table away and always really shrinks it |
| `LoadFactor.ShiftOneMore` | Dependencies/include/google/protobuf/map.h:968-972 | No turn of the shift loop overflows 64 bits |
| `LoadFactor.ThreeQuartersExactly` | Dependencies/include/google/protobuf/map.h:950-981 | The table that results keeps at most 3/4 of an element per bucket exactly when it does not shrink and is below the cap (or has no more than the growth limit there), or shrinks by `j` bits and `new_size << j` is not above the old growth limit |
| `LoadFactor.ThreeQuartersIsNotKept` | Dependencies/include/google/protobuf/map.h:950-981 | The bound of 3/4 fails: 128 buckets and size 18 give 16 buckets |
| `HashTable.InnerMap.TryEmplaceInternal` | Dependencies/include/google/protobuf/map.h:761-803 | Adds the key with the value if it is absent, otherwise changes nothing; says which; after an insertion both load bounds hold and the size is the one `LoadFactor.TargetExactly` describes |
| `HashTable.InnerMap.EraseFromLinkedList` | Dependencies/include/google/protobuf/map.h:1030-1037 | Drops exactly the item from the list |
| `HashTable.InnerMap.EraseInList` | Dependencies/include/google/protobuf/map.h:726-731 | Removes the node from its list and nothing else |
| `HashTable.InnerMap.EraseInTree` | Dependencies/include/google/protobuf/map.h:732-742 | Removes the node from the shared tree; an empty tree leaves both entries |
| `HashTable.InnerMap.Erase` | Dependencies/include/google/protobuf/map.h:721-752 | With an iterator whose bucket may be stale: exactly that element goes, it is destroyed once, the first bucket is right again |
| `HashTable.InnerMap.Clear` | Dependencies/include/google/protobuf/map.h:646-675 | Every node is destroyed exactly once and the table is empty and valid |
| `HashTable.InnerMap.constructor` | Dependencies/include/google/protobuf/map.h:459-468 | A new map is valid and empty |
| `HashTable.Iterator.RevalidateIfNecessary` | Dependencies/include/google/protobuf/map.h:596-619 | For any live node and any stale bucket: the right bucket, true exactly for a list, otherwise the position in the tree |
| `HashTable.Iterator.SearchFrom` | Dependencies/include/google/protobuf/map.h:537-556 | Stops at the first element of the first bucket in use from there on, with its number, or behind the last bucket |
| `HashTable.Iterator.Begin` | Dependencies/include/google/protobuf/map.h:514-517 | Starting at the cached first bucket reaches the first element of all |
| `HashTable.Iterator.Advance` | Dependencies/include/google/protobuf/map.h:565-584 | Moves from the p-th element of the walk to the next, however stale the bucket was |
| `IterationOrder.OrderAscends` | Dependencies/include/google/protobuf/map.h:537-584 | The walk goes up the buckets, and along each of them from its head |
| `IterationOrder.OrderOnce` | Dependencies/include/google/protobuf/map.h:537-584 | No element comes twice in the walk |
| `IterationOrder.OrderAll` | Dependencies/include/google/protobuf/map.h:537-584 | The walk meets the elements of the table and no others |
| `IterationOrder.OrderCount` | Dependencies/include/google/protobuf/map.h:682-682 | The walk has as many steps as the table has keys |
| `ProtoMap.Elements` | Dependencies/include/google/protobuf/map.h:1266-1267 | The loop from begin to end terminates and visits every element exactly once |
| `ProtoMap.Find` | Dependencies/include/google/protobuf/map.h:1310-1317 | An iterator at the value of the key, or the end |
| `ProtoMap.EraseAt` | Dependencies/include/google/protobuf/map.h:1385-1389 | Erases the element under the iterator, which moves to its successor, still alive |
| `ProtoMap.EraseKey` | Dependencies/include/google/protobuf/map.h:1374-1384 | Removes the key and returns how many elements went; every other node stays the node of its key |
| `ProtoMap.InsertFrom` | Dependencies/include/google/protobuf/map.h:1364-1369 | Whatever the target held, and also for the map itself: keys it had keep their nodes and values, all other keys of the source arrive with their values; the source is as before |
| `ProtoMap.Assign` | Dependencies/include/google/protobuf/map.h:1398-1404 | Afterwards both maps have the contents of the other; every old node was destroyed; assigning a map to itself changes nothing |
| `ProtoMap.Run` | Dependencies/include/google/protobuf/map.h:703-864 | After any run of insertions, erasures and clears the table is the mathematical map after that run, and its size the cardinality; the node of a key that no operation removes is the same object all along |
| `Wire.VarintRoundTrip` | Dependencies/include/google/protobuf/io/coded_stream.h:899-912 | A varint below 128^n takes at most n bytes and reads back, whatever follows |
| `Wire.VarintBytes` | Dependencies/include/google/protobuf/io/coded_stream.h:899-912 | Byte i holds bits 7i to 7i + 6 and is marked exactly if more follow |
| `Wire.FixedBytes` | Dependencies/include/google/protobuf/io/coded_stream.h:1146-1146 | Byte i holds bits 8i to 8i + 7 |
| `Wire.ReadersExactly` | Dependencies/include/google/protobuf/parse_context.h:561-731 | Any varint, also one written longer than needed: tags and sizes take five bytes at most, values ten; what is kept is the value modulo 2^32 or 2^64; sizes above 2^31 - 17 are refused |
| `Wire.ReadBack` | Dependencies/include/google/protobuf/parse_context.h:561-731 | Each of the four readers gives back what was written, in its own range; for sizes up to 16 below the largest int |
| `Wire.FixedRoundTrip` | Dependencies/include/google/protobuf/io/coded_stream.h:1146-1146 | Little-endian values read back |
| `Wire.VarintSizeIsExact` | Dependencies/include/google/protobuf/io/coded_stream.h:1728-1742 | Multiplying by 9 and shifting by 6 gives the exact length for every 32-bit value, with and without the tag byte |
| `UnknownFields.BodyBack` | Dependencies/include/google/protobuf/parse_context.h:882-925 | Unknown fields of every wire type, groups included, parse back from their encoding |
| `UnknownFields.GroupBack` | Dependencies/include/google/protobuf/parse_context.h:431-440 | A nested group parses back up to its end tag |
| `UnknownFields.GroupEndsExactly` | Dependencies/include/google/protobuf/parse_context.h:431-440 | A group ends at its own end tag; a zero tag or the end of another group in that place spoils it |
| `UnknownFields.UnknownTags` | Dependencies/include/google/protobuf/parse_context.h:882-925 | Each kind of unknown field is written with its wire type: 0, 1, 2, 3 with 4 at the end, and 5 |
| `UnknownFields.ParsedBodyInRange` | Dependencies/include/google/protobuf/parse_context.h:882-925 | What is kept is in range, has the number and wire type of its tag, and nests no deeper than allowed |
| `Sizes.TagsAreTheConstants` | ShooterProtocol.pb.cc:952-1030 | The schema of each type encodes to the one-byte tag constants of the generated parse loops |
| `Cases.FourBytesStored` | ShooterProtocol.pb.cc:359-418 | In every float case of the seven switches: the four bytes, low byte first, in the member of that tag; a zero is present exactly in an optional member |
| `Cases.VarintStored` | ShooterProtocol.pb.cc:952-1040 | In every bool and uint32 case: of any varint of at most ten bytes, whether its low 64 bits are not all zero, or its low 32 bits; longer ones are refused |
| `Cases.BodyStored` | ShooterProtocol.pb.cc:1878-1930 | In every message case: the body is read into the sub-message that is there or a new one, of the right type, one level down |
| `Cases.OtherIsKept` | ShooterProtocol.pb.cc:1030-1052 | Every other tag of every type is kept behind the unknown fields, or ends the parse |
| `Cases.SetIsStored` | ShooterProtocol.pb.h:1694-1701 | Setters store what a parse stores |
| `Cases.WrittenInOrder` | ShooterProtocol.pb.cc:1941-1981 | Every message is written member by member, each with its own tag byte and in the order of these, and the unknown fields last |
| `Messages.Merge` | ShooterProtocol.pb.cc:1509-1537 | Merging well-formed messages gives a well-formed message |
| `Messages.ParseInto` | ShooterProtocol.pb.cc:1355-1414 | Whatever bytes parse, the message is well formed: values in range, no known field among the unknown |
| `Codec.FieldBack` | ShooterProtocol.pb.cc:1355-1414 | Reading back one written field merges that field and consumes exactly its bytes |
| `Codec.EncodeBack` | ShooterProtocol.pb.cc:1416-1459 | Parsing the encoding of `a` into any message merges `a` into it and goes on behind it |
| `CodecLaws.RoundTrip` | ShooterProtocol.pb.cc:1355-1459 | A fresh message parsed from an encoding is the encoded message: bits, presence, sub-messages and unknown fields |
| `DepthLimit.RoundTripExactly` | Dependencies/include/google/protobuf/parse_context.h:443-451 | The round trip works exactly when the recursion limit is at least the depth of the message; otherwise the parse fails |
| `DepthLimit.TooDeepToRead` | Dependencies/include/google/protobuf/parse_context.h:431-451 | 101 nested unknown groups, 202 bytes, are written and then refused at the default limit of 100 |
| `CodecLaws.ConcatenationIsMerge` | ShooterProtocol.pb.cc:1509-1537 | Parsing two encodings one after the other equals merging the second message into the first, for all seven types |
| `CodecLaws.ParseConcatenation` | ShooterProtocol.pb.cc:1355-1414 | Any bytes: parsing a concatenation is parsing the pieces in turn |
| `CodecLaws.MergeAssociative` | ShooterProtocol.pb.cc:1180-1218 | Merging is associative |
| `CodecLaws.MergeIntoDefault` | ShooterProtocol.pb.cc:1180-1218 | Merging into the default message gives the merged message |
| `CodecLaws.MergeDefault` | ShooterProtocol.pb.cc:1180-1218 | Merging the default message changes nothing |
| `Growth.IntoGrowth` | ShooterProtocol.pb.cc:1355-1414 | Parsing n bytes makes a message at most n bytes longer on the wire |
| `Relaying.ParsedDepth` | Dependencies/include/google/protobuf/parse_context.h:443-451 | A parser with a limit builds nothing deeper than the limit |
| `Relaying.RelayKeepsTheMessage` | ShooterProtocol.pb.cc:1355-1459 | A parsed message is written in no more bytes than it came in and parses back to itself |
| `Sizes.EncodedSizeBound` | ShooterProtocol.pb.cc:1983-2023 | Without unknown fields each type has its own maximum, at most 59 bytes |
| `Sizes.LongestMovement` | ShooterProtocol.pb.cc:1983-2023 | 59 bytes are reached |
| `MemberOrders.SizeInMemberOrder` | ShooterProtocol.pb.cc:1461-1500 | Adding sizes in declaration order gives the length of what is written in field order |
| `MemberOrders.MergeInMemberOrder` | ShooterProtocol.pb.cc:1517-1535 | Merging member by member in declaration order is the merge |
| `MessageObjects.Message.constructor` | ShooterProtocol.pb.cc:1833-1846 | A new message is valid and the default |
| `MessageObjects.Message.GetScalar` | ShooterProtocol.pb.h:1687-1693 | The getter ignores the presence bit and still gives zero when the field is unset |
| `MessageObjects.Message.GetSub` | ShooterProtocol.pb.h:2296-2304 | The getter ignores the presence bit and still gives the default message when the field is unset |
| `MessageObjects.Message.HasField` | ShooterProtocol.pb.h:2284-2291 | True exactly when the field is set |
| `MessageObjects.Message.SetScalar` | ShooterProtocol.pb.h:1694-1701 | Sets that field and no other; invariants hold |
| `MessageObjects.Message.ClearField` | ShooterProtocol.pb.h:2292-2295 | Unsets that field and no other; a tracked sub-message object stays and is emptied |
| `MessageObjects.Message.Clear` | ShooterProtocol.pb.cc:1849-1876 | The default message, although skipped members are not written; tracked sub-message objects stay |
| `MessageObjects.Message.Mutable` | ShooterProtocol.pb.h:2340-2352 | The field becomes present with the old sub-message or a new default one |
| `MessageObjects.Message.Release` | ShooterProtocol.pb.h:2318-2332 | The stored object is handed over and the field is unset |
| `MessageObjects.Message.SetAllocated` | ShooterProtocol.pb.h:2353-2371 | The field becomes the given message, or unset for null |
| `MessageObjects.Message.ByteSizeLong` | ShooterProtocol.pb.cc:1983-2023 | The exact length of the encoding, cached; afterwards every present sub-message has its own length cached |
| `MessageObjects.Message.InternalSerialize` | ShooterProtocol.pb.cc:1941-1981 | Appends exactly the encoding, with length prefixes from the cached sizes |
| `MessageObjects.Message.MergeFrom` | ShooterProtocol.pb.cc:2032-2060 | The value becomes the merge; the source is untouched; invariants hold |
| `MessageObjects.Message.CopyFrom` | ShooterProtocol.pb.cc:2062-2067 | The value becomes that of the source, also when both are the same object |
| `MessageObjects.Message.Copy` | ShooterProtocol.pb.cc:1787-1816 | A new message of equal value that shares no sub-message |
| `MessageObjects.Message.InternalSwap` | ShooterProtocol.pb.cc:2073-2083 | Values and sub-message objects change places |
| `MessageObjects.Message.ParseTurn` | ShooterProtocol.pb.cc:1881-1930 | One turn of the loop does what the parsing function says, with presence bits still held back; a failure keeps the invariant and leaves what was read before it, and at most a part of this field, which for a tag cut off by the end of the bytes may be any field |
| `MessageObjects.Message.InternalParse` | ShooterProtocol.pb.cc:1878-1939 | Succeeds exactly when the bytes parse, with that value; presence invariants hold afterwards; a failure leaves every record before the failing one, a record that was read across the limit, and at most a part of one that could not be read |
| `Lookahead.MessageTells` | Dependencies/include/google/protobuf/parse_context.h:882-943 | Unless a byte is needed that is not at hand, the bytes at hand decide whether a message parses, whatever follows them and wherever its limit is: the scan with limits, groups and depths agrees with the parse of every continuation |
| `Lookahead.MessageEnough` | Dependencies/include/google/protobuf/parse_context.h:98-110 | A parse runs out of bytes only for want of them: with enough behind its limit it never does |
| `Lookahead.WellFormedRunsOut` | Dependencies/include/google/protobuf/parse_context.h:127-137 | Bytes that make up a whole message always need more when they are said to be more |
| `Leftovers.LeftMeansFailed` | ShooterProtocol.pb.cc:1355-1414 | Only bytes that do not parse leave anything |
| `Leftovers.LeftKeepsWhatWasRead` | ShooterProtocol.pb.cc:1355-1414 | Whatever was read before the failing part is kept: parsing x and failing on y leaves what failing on y leaves in the parse of x |
| `Leftovers.UnfinishedGroupMayStay` | Dependencies/include/google/protobuf/parse_context.h:431-440 | A group that is cut off may stay with the fields it had so far |
| `Leftovers.CutScalarMayBeAnything` | ShooterProtocol.pb.cc:1355-1414 | A scalar whose value is cut off may be left with any value |
| `Leftovers.LeftDepth` | Dependencies/include/google/protobuf/parse_context.h:431-451 | Whatever a failing parse leaves nests at most one level deeper than the limit: a group that is refused for its depth has been added already |
| `Leftovers.LeftSize` | ShooterProtocol.pb.cc:1355-1414 | Whatever a failing parse of n bytes leaves, a tag or value cut off at the end included, is written in at most 2n + 40 bytes more than before |
| `MessageObjects.Message.ParseFromArray` | Dependencies/include/google/protobuf/message_lite.h:284-287 | The result does not depend on what the message held before, nor does what a failure leaves |
| `MessageObjects.Message.SerializeToArray` | Dependencies/include/google/protobuf/message_lite.h:338-342 | Sizes, then bytes: exactly the encoding, or nothing if it does not fit |
| `MessageRuns.Run` | ShooterProtocol.pb.h:2284-2371 | After any history of setters, clears, writes through pointers, releases, set_allocated, moves of sub-messages, merges, copies, swaps and parses, failed ones included, the presence invariants hold and each value follows from the one before |
| `Packets.HeaderBytes` | README.md:44-49 | Size, then packet type, each with its low byte in front |
| `Packets.FrameBack` | README.md:44-69 | The header equals the packet length exactly when nothing wraps, and then packet type and payload come back |
| `Packets.PacketHoldsPayloadExactly` | README.md:53-64 | For every payload: the packet exists and holds it if and only if header and payload stay below 64 KiB; its header has no room exactly for lengths 65532 to 65535 modulo 65536 |
| `Packets.PlainMessagesFit` | README.md:53-64 | Without unknown fields a packet has at most 63 bytes, tells its own length and holds exactly the message |
| `Packets.PacketBuffer.ReservePacket` | Packet.cpp:3-8 | A new buffer of that size, zero from the position on; clearing stays inside of it exactly when the position is at the start; the size counter grows in 16 bits |
| `Packets.PacketBuffer.CopyPacket` | Packet.cpp:15-23 | Data lands at the position, or at the start if it would not fit there, and the rest stays; says exactly when that is inside the buffer |
| `Packets.SerializePacket` | README.md:44-69 | Without restriction on the truncated size: the whole buffer, the position and the addressee, or that the header overruns the buffer |
| `Packets.StaysInside` | README.md:76-90 | The bytes a handler is told to parse are all in the receive buffer if and only if the header says a length from 4 to 1024; if not, the handler looks behind the buffer whenever its bytes make up a message, and where it does not look behind it the parse fails whatever lies there |
| `Packets.ZeroTagStops` | README.md:76-90 | A zero in front stops the parse inside the buffer, whatever length the header says |
| `Packets.SentSize` | README.md:76-90 | What is sent on is at most 2 bytes longer than a payload that parses, at most 2n + 42 bytes for n bytes that do not, and at most 101 levels deep |
| `Packets.SentReadsBack` | README.md:76-90 | Whatever arrived, what is sent on is a packet of its own length whose payload another client parses to the very message that was serialized, unless that is deeper than 100 levels |
| `Packets.RelayIsFaithfulExactly` | README.md:76-90 | Another client reads what the sender sent if and only if the payload parses and, where the Id is asked for first, has an Id |
| `Packets.GivenId` | README.md:76-90 | Asking for the Id changes the message exactly when it has none, and then only adds a default one |
| `Packets.UnreadableIsSentOn` | README.md:76-90 | A movement payload of one zero byte does not parse and is sent on as the default movement |
| `Packets.HalfATagIsSentOn` | README.md:76-90 | A movement payload of one byte that begins the tag of the Id does not parse, and may be sent on as a movement with an Id |
| `Packets.Relay` | README.md:76-90 | With the receive handlers of IOCPServer.cpp, lines 105, 449 and 500 to 614, for every content of the 1024 bytes received, by the bytes: nothing happens exactly unless the packet type is 2, 4, 6, 8 or 10; these are parsed as movement, fire event, movement, animation state and weapon; the handler looks behind the buffer exactly when it is told to parse more than is there and needs a byte of it; otherwise a packet of the next lower type is always queued for everybody but the client in the Id, reliable exactly for types 2 and 10, with what was parsed or what a failed parse left |
| `Alignment.AlignUpTo8Rounds` | Dependencies/include/google/protobuf/arena_impl.h:65-68 | The mask rounds up to the next multiple of 8 |
| `Alignment.AlignToRounds` | Dependencies/include/google/protobuf/arena.h:93-97 | Masking with the negated alignment gives the least multiple not below the address |
| `Alignment.OverAlignedFits` | Dependencies/include/google/protobuf/arena.h:319-330 | Over-allocating by `align - 8` leaves room for the aligned object |
| `Arenas.SearchFits` | Dependencies/include/google/protobuf/arena_impl.h:230-233 | Every block in the searched list is at least as large as the request |
| `Arenas.SearchIsLeast` | Dependencies/include/google/protobuf/arena_impl.h:230-233 | No list below the searched one has blocks that are all large enough |
| `Arenas.ReturnIsGreatest` | Dependencies/include/google/protobuf/arena_impl.h:292-295 | The block is too small for the list above the one it goes on |
| `Arenas.SearchesWhereReturned` | Dependencies/include/google/protobuf/arena_impl.h:230-295 | A request of more than half of a list's block size, and at most that, searches the list that blocks of up to twice that size are returned to |
| `Arenas.ReturnFits` | Dependencies/include/google/protobuf/arena_impl.h:292-295 | A block goes on a list whose blocks it is large enough for; the index stays below 60 |
| `Arenas.TableGrows` | Dependencies/include/google/protobuf/arena_impl.h:297-313 | A block too large for the table gives a longer table with a list for its own size |
| `Arenas.SerialArena.LiveDisjoint` | Dependencies/include/google/protobuf/arena_impl.h:224-279 | Live objects never overlap |
| `Arenas.SerialArena.RecordsDisjoint` | Dependencies/include/google/protobuf/arena_impl.h:327-363 | Two cleanup records never overlap |
| `Arenas.SerialArena.RecordApartFromLive` | Dependencies/include/google/protobuf/arena_impl.h:327-363 | No cleanup record overlaps a live object |
| `Arenas.SerialArena.AllocateFromExisting` | Dependencies/include/google/protobuf/arena_impl.h:272-279 | The new object is the n bytes at the old pointer; everything else stays |
| `Arenas.SerialArena.AllocateNewBlock` | Dependencies/include/google/protobuf/arena_impl.h:432-432 | Switching to a fresh block gives up the rest of the old one and keeps all invariants |
| `Arenas.SerialArena.AllocateAligned` | Dependencies/include/google/protobuf/arena_impl.h:252-271 | Cached block, current block or new block, in that order; a fresh aligned address; earlier objects stay |
| `Arenas.SerialArena.MaybeAllocateAligned` | Dependencies/include/google/protobuf/arena_impl.h:327-333 | Succeeds exactly when the gap is large enough |
| `Arenas.SerialArena.TryAllocateFromCachedBlock` | Dependencies/include/google/protobuf/arena_impl.h:229-249 | Gives the top block of the right list if there is one; it is large enough and leaves that list |
| `Arenas.SerialArena.ReturnArrayMemory` | Dependencies/include/google/protobuf/arena_impl.h:282-323 | The block is cached on its list, or becomes a longer table that keeps every cached block |
| `Arenas.SerialArena.AllocateAlignedWithCleanup` | Dependencies/include/google/protobuf/arena_impl.h:335-358 | An object from one end and one more record from the other; they never meet |
| `Arenas.SerialArena.AddCleanup` | Dependencies/include/google/protobuf/arena_impl.h:358-363 | One more record with what was registered; all earlier ones intact |
| `Arenas.SerialArena.WriteObject` | Dependencies/include/google/protobuf/arena_impl.h:224-363 | Whatever a client writes into a word of its own object leaves the arena intact and all other words as they were |
| `Arenas.SerialArena.AllocateOverAligned` | Dependencies/include/google/protobuf/arena.h:319-330 | The aligned address and the object behind it lie inside what was allocated |
| `ArenaRuns.ReturnAndAllocate` | Dependencies/include/google/protobuf/arena_impl.h:229-295 | A returned array is what the next fitting request gets, and everything else is as before |
| `ArenaRuns.Run` | Dependencies/include/google/protobuf/arena_impl.h:224-363 | After any history of allocations, returned arrays, registrations and writes into held objects, record k holds the k-th registration in memory, and no two held objects overlap |
| `MapEntries.MapEntry.InternalParse` | Dependencies/include/google/protobuf/map_entry_lite.h:196-223 | The generic entry parser, as a loop, gives what the recursive reading of the bytes says, presence bits included |
| `MapEntries.EntryBack` | Dependencies/include/google/protobuf/map_entry_lite.h:196-223 | The bytes of any key, value and other records, in any order and number: the last key, the value read through all value records in turn, and other fields change nothing; key and value count as present exactly if there was one |
| `MapEntries.EntryStops` | Dependencies/include/google/protobuf/map_entry_lite.h:210-215 | A zero or an end tag behind them stops the parse, with that tag and the place behind it |
| `MapEntries.Parser.InternalParse` | Dependencies/include/google/protobuf/map_entry_lite.h:298-337 | Same outcome as the generic parser; on success the map is the old one with its key and value; on failure it is unchanged, except for a value that was read past the limit |
| `MapEntries.Parser.UseKeyAndValueFromEntry` | Dependencies/include/google/protobuf/map_entry_lite.h:365-373 | The entry overrides what the map had for its key |
| `MapEntries.FastPathExactly` | Dependencies/include/google/protobuf/map_entry_lite.h:298-326 | The fast path takes exactly the entries that begin with a good key that is new and a good value |
| `MapEntries.OverrunOccurs` | Dependencies/include/google/protobuf/map_entry_lite.h:310-322 | The failure that leaves an entry behind does occur |
| `MessageSets.RunIsMeaning` | Dependencies/include/google/protobuf/extension_set_inl.h:204-279 | The state machine stores the first type id with the first payload once, and nothing if either is missing |
| `MessageSets.RunExactly` | Dependencies/include/google/protobuf/extension_set_inl.h:204-279 | By the registry alone: a known type is merged, with one level less if its id came first; an unknown one is kept, unless its id is zero and came first |
| `MessageSets.SameFirstsSameEffect` | Dependencies/include/google/protobuf/extension_set_inl.h:204-279 | The order of id and payload makes no difference exactly when the known type does not need the last recursion level, or the unknown type is not number zero |
| `MessageSets.OrderMattersForZero` | Dependencies/include/google/protobuf/extension_set_inl.h:225-279 | An unknown type zero with an empty payload: refused in one order, kept in the other |
| `MessageSets.OrderMattersAtTheLimit` | Dependencies/include/google/protobuf/extension_set_inl.h:225-279 | A known payload that takes the whole recursion budget: refused in one order, merged in the other |
| `MessageSets.ItemBack` | Dependencies/include/google/protobuf/extension_set_inl.h:212-277 | Reading the bytes of any type ids, payloads and other fields runs the state machine over the former, with type ids cut to 32 bits; other fields have their own effect and leave the state machine where it is |
| `MessageSets.PartsRun` | Dependencies/include/google/protobuf/extension_set_inl.h:204-279 | Without other fields this is the state machine over the records |
| `MessageSets.ItemStops` | Dependencies/include/google/protobuf/extension_set_inl.h:270-276 | A zero or an end tag ends the item there and what was read stays |
| `MessageSets.ExtensionSet.ParseMessageSetItem` | Dependencies/include/google/protobuf/extension_set_inl.h:204-279 | The loop over bytes does what the recursive reading says, including the tag it stops at |
| `DescriptorIndexes.SubSymbolExactly` | Dependencies/include/google/protobuf/descriptor_database.h:219-222 | A sub-symbol is the symbol itself or continues it with a dot |
| `DescriptorIndexes.AtMostExactly` | Dependencies/include/google/protobuf/descriptor_database.h:229-233 | The order of the map: a prefix first, otherwise by the first character that differs |
| `DescriptorIndexes.MatchIsFound` | Dependencies/include/google/protobuf/descriptor_database.h:227-268 | If a stored symbol encloses the search key, it is the greatest one not above it |
| `DescriptorIndexes.NextIsWithin` | Dependencies/include/google/protobuf/descriptor_database.h:219-226 | If a stored symbol lies within a name, so does the least one above it |
| `DescriptorIndexes.InvariantIsNeeded` | Dependencies/include/google/protobuf/descriptor_database.h:219-226 | Without the invariant the lookup misses a match |
| `DescriptorIndexes.LowestDotIsNeeded` | Dependencies/include/google/protobuf/descriptor_database.h:251-254 | With a character below the dot the lookup misses a match |
| `DescriptorIndexes.DescriptorIndex.FindSymbol` | Dependencies/include/google/protobuf/descriptor_database.h:227-268 | Finds the one enclosing symbol, and nothing if there is none |
| `DescriptorIndexes.DescriptorIndex.AddSymbol` | Dependencies/include/google/protobuf/descriptor_database.h:219-226 | Refuses exactly the names that are not valid or would break the invariant, looking only at two neighbours |

## Left out

- HashTable.InnerMap.BucketNumber: does not model the multiplication by the constant and the shift; the hash of a key is an arbitrary function, which covers them.
- HashTable.InnerMap.StartTable: does not model that empty maps share one global table of one null entry; each map has its own.
- HashLayout.Tree.Insert: does not model the sort order of `std::map`; a tree is a sequence in some order, and its operations are proved for every order.
- HashTable.InnerMap.CreateNode: does not model allocators, arenas or the construction of values.
- `Seed()` and `ShouldInsertAfterHead()`: both are free choices in the model, so the proofs hold for every outcome.
- `Map::swap`, iterator comparison and the arena-aware forms of `try_emplace` add only easy members.
- Stream chunks, copies into the patch buffer and aliasing of strings behind `ParseContext` and `EpsCopyOutputStream`: input is the bytes at hand with a limit, output an append buffer.
- MessageObjects.Message.InternalParse: what a failed parse keeps of a field that it cannot read to its end, or of a group that crosses its limit, is bounded (number, wire type, depth, size, range) and not given exactly, because it may depend on bytes behind the input and on code that is not part of this model.
- CodecLaws.RoundTrip: this and the other laws of the codec are stated for encodings of at most 2^31 - 17 bytes, the longest length a reader accepts for anything inside a message; only a top-level message may be longer.
- MessageObjects.Message.ByteSizeLong: is stated for encodings of at most 2^31 - 1 bytes, the limit the library documents; the size of unknown fields is taken as exact, since its computation is not part of this model.
- Arena-owned messages, `unsafe_arena_*` accessors, and sub-message pointers that callers keep after a clear: messages own their sub-messages on the heap.
- Packets.SerializePacket: what copying a header out of bounds does is not modelled; the result only says that it happens.
- Packets.Relay: what a handler makes of bytes behind the receive buffer is not modelled; the login handler also enters the player in a table and sends the others, which is left out.
- Sockets, completion-port threads, send queues, broadcasting and the table of logged-in players.
- `PacketBuffer::Destroy` and copies of a `PacketBuffer` that share one buffer.
- Arenas.SerialArena.AllocateNewBlock: does not model the growth policy of blocks; the new block is a parameter, large enough and unused.
- `ThreadSafeArena`, its thread cache and lifecycle ids, `CleanupList`, and metrics.
- Arenas.SerialArena.AllocateOverAligned: requires that no address computation leaves 64 bits.
- MapEntries.Parser.InternalParse: the handlers of keys and values are parameters; `ParseWithEnumValidation` is not modelled.
- MessageSets.ExtensionSet.ParseMessageSetItem: what an extension's own parser does is a parameter that looks at its recursion limit only to refuse deeper nesting; extensions that are not messages are not modelled.
- DescriptorIndexes.DescriptorIndex.AddSymbol: the header declares it and gives the invariant and the lookup; its body is not part of this model and the checks follow from the invariant.
- The file and extension indices of the descriptor database, descriptors, reflection, `Any` and the well-known types.
