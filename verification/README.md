# Verified models of CoreFoundation and libclosure internals

This project models the algorithms at the heart of two Apple runtimes kept in this repository, CoreFoundation
CF-1153.18 and libclosure-74, and proves what they are for. Each model has the branches, constants and error
results of the C or C++ code; the state that code changes in place is a class whose methods change it.

| files | what they model |
|---|---|
| `BinaryPList*.dfy`, `Bytes.dfy` | the binary property list writer and reader: buffered sink, flattening of shared object graphs, trailer checks, recursive decoding with a table of finished objects and a late cycle check; `BinaryPListFormat.dfy` and `BinaryPListLayout.dfy` give the bytes |
| `ArrayDeque.dfy`, `ArrayAlgorithms.dfy`, `Comparators.dfy` | CFArray's gap-centred deque with its four ways to make room, its binary search and its swap-only sort |
| `LatchingCount.dfy` | the compare-and-swap loops of the block reference counts, any number of threads, one shared access at a time |
| `Block*.dfy` | copying and releasing blocks and `__block` variables over an ownership graph |
| `BasicHash*.dfy` | the open-addressing table behind dictionaries, sets and bags |
| `Utf8*.dfy` | the converters between UTF-16 and UTF-8, against the forms of RFC 3629 and RFC 2781 |
| `BigNumber*.dfy` | base-10^9 signed numbers: arithmetic, comparison, machine integers, text |
| `BinaryHeap.dfy`, `BitVector.dfy` | the binary heap and the packed bit vector |

`dafny verify dfyconfig.toml` checks everything. Statements `hide F` in proofs only keep definitions out of the
solver's way.

## How to read the models

* A property list to be written is a finite acyclic graph of numbered nodes, a node number standing for an object
  address: uniquing in the writer is by address. `Unfold` is the tree a graph means. A file is a `Store` that says
  what the bytes from each offset on are; `Tree` unfolds it with no table, no path and no depth rule.
* Retain and release callbacks are recorded in a `log`. Where the callbacks may return another object the models
  let them, in a hash table or a heap as long as it is an equal one.
* Memory blocks and cells of the block runtime have addresses that are never reused. `owns` and `callers` are ghost
  accounts of who holds which reference; `Sound` says that every count agrees with them.
* A hash table's contents are a map from key classes to entries. The probe path of a class is any that meets at
  least as many different buckets as the table may hold entries; the paths of the three styles are shown to be such.
* Threads of `LatchingCount` read, decide and swap in separate steps; a run is any sequence of steps.

## Where the code does less than one would think

* `CFArray.c:46-49, 795`: capacities are shifts of a 32-bit int and one comparison casts to 32 bits, so growth is only
  sound below 2^30 elements; `GrowthOkExact` is the exact condition. `CFArray.c:1088-1091`: so are the probe widths of the
  binary search, which are defined below 2^31 items: `ProbeLimit`.
* `CFBinaryPList.c:1516`: a container used as a dictionary key can be written but not read back; `RoundTrip` says so
  with an if-and-only-if, `ContainerKey` gives a graph. A length integer of 256 bytes or more reads as 0, because its
  width is passed in 8 bits: `ReadIntExact`, `WideIntegerLost`.
* `CFBigNumber.c:471`: a column that sums to exactly 10^9 stays a digit, and a negative number plus its opposite is a zero
  with a sign; `Add` and `Sub` say exactly when a normal form results, `SumLeavesNormal` gives both cases.
  Such a digit prints as ten characters, which push the last ones out: `AllDigitsExact`.
* `CFBigNumber.c:530-537, 560-569`: a short buffer cuts off digits, and a long text is read modulo 2^32 at its front;
  `ThereAndBack` and `FromCString` are exact.
* `CFBasicHash.c:1413-1443`: an integer that reaches the stand-in for ~0 reads back as ~0; `InsertedNumbering` is exact,
  `NumberingBreaks` a table.
  Aggressive growth from the last capacity but one steps past the table of sizes; `CanGrowExact` is exact.
* `CFBasicHashFindBucket.m:164`: with the last number of buckets the product wraps around in 64 bits, and exponential
  hashing misses buckets: `ExponentialVisitsAll` is exact, `LastTableMisses` gives a hash. `ExponentialCovers` shows that it
  meets enough of them all the same.
* `CFBuiltinConverters.c:1093`: a character that needs two units with room for one is taken but not written: `CutExact`,
  `CutHappens`. `CFBuiltinConverters.c:976`: the room left is passed in 32 bits: `ReachesEnd`, `RoomLost`.
* `CFBinaryHeap.c:39-42`: the same 32-bit shift as in CFArray bounds a heap to 2^30 items.

## Model

| member | source | states |
|---|---|---|
| PlistWriter.WriteBuffer.WriteBytes | 16.RunLoop核心原理/CF-1153.18/CFBinaryPList.c:169-205 | whatever the stream answers, what reaches it is a prefix of the bytes asked for, `written` counts it exactly, and without an error it is all of them; there is an error if and only if there was one before or the stream refused a write in this call, and no write follows it |
| PlistWriter.WriteBuffer.BufferFlush | 16.RunLoop核心原理/CF-1153.18/CFBinaryPList.c:207-210 | after a flush without error the stream holds the concatenation of everything ever written to the buffer |
| PlistWriter.WriteBuffer.BufferWrite | 16.RunLoop核心原理/CF-1153.18/CFBinaryPList.c:212-237 | a write appends its bytes to the intended output through all four cases (empty, whole buffer, fits, straddles), keeping sent + held == intended |
| PlistWriter.WriteBuffer.Position | 16.RunLoop核心原理/CF-1153.18/CFBinaryPList.c:659 | `written + used` is the true offset of the next byte as long as no error occurred |
| PlistWriter.AppendInt | 16.RunLoop核心原理/CF-1153.18/CFBinaryPList.c:329-350 | the least of 1, 2, 4, 8 big-endian bytes, cut from the 8-byte form, behind the marker that says which |
| PlistWriter.AppendUID | 16.RunLoop核心原理/CF-1153.18/CFBinaryPList.c:352-371 | the same for UIDs, whose marker counts the bytes less one |
| PlistWriter.AppendString | 16.RunLoop核心原理/CF-1153.18/CFBinaryPList.c:373-406 | a string is written as bytes exactly if all its units are ASCII, otherwise unit by unit in big-endian order, with its count inline or as an integer |
| PlistWriter.AppendObject | 16.RunLoop核心原理/CF-1153.18/CFBinaryPList.c:456-530 | every supported object appends the bytes of its form, containers their children by number in the object table; an unsupported one appends nothing and fails |
| PlistWriter.FlattenSound | 16.RunLoop核心原理/CF-1153.18/CFBinaryPList.c:543-585 | flattening any subgraph lists it and its children, keeps table and list consistent and moves nothing listed before |
| PlistWriter.Flattener.FlattenPlist | 16.RunLoop核心原理/CF-1153.18/CFBinaryPList.c:543-585 | the pass that updates list, table and uniquing set in place computes exactly that; `ListedInOrder` and `ListedExactly` say what it lists |
| PlistUniquing.ListedInOrder | 16.RunLoop核心原理/CF-1153.18/CFBinaryPList.c:543-585 | the object list of a file is the tree in order, each object before its children, without the strings, numbers, dates and data objects that have come up before |
| PlistUniquing.ListedExactly | 16.RunLoop核心原理/CF-1153.18/CFBinaryPList.c:550-560 | a string, number, date or data object of the tree is listed once, an object of any other type once for each of its places |
| PlistUniquing.NeverTwice | 16.RunLoop核心原理/CF-1153.18/CFBinaryPList.c:550-560 | two equal entries of the list are never a string, number, date or data object |
| PlistUniquing.SharedString | 16.RunLoop核心原理/CF-1153.18/CFBinaryPList.c:550-560 | an array with the same string twice makes a file of two objects |
| PlistWriter.ByteCount | 16.RunLoop核心原理/CF-1153.18/CFBinaryPList.c:589-606 | the mask loop and the rounding loop together find the least of 1, 2, 4 and 8 bytes that holds the count |
| PlistWriter.WriteObjects | 16.RunLoop核心原理/CF-1153.18/CFBinaryPList.c:657-677 | the objects are serialised in list order, each offset noted is where its object starts, and the loop fails exactly on an unsupported object |
| PlistWriter.WriteTables | 16.RunLoop核心原理/CF-1153.18/CFBinaryPList.c:680-706 | without an error the stream holds the whole file, and the length returned is its length |
| PlistWriter.Write | 16.RunLoop核心原理/CF-1153.18/CFBinaryPList.c:610-707 | success means the whole encoding, and nothing else, was appended; it succeeds if and only if every object is supported and the stream refuses no write during the call; `WrittenFile` and the rows behind it say what the encoding is, byte by byte |
| PlistWriter.EncodeDefined | 16.RunLoop核心原理/CF-1153.18/CFBinaryPList.c:531-541 | the encoding exists if and only if every object reachable from the top is supported |
| PlistLayout.WrittenFile | 16.RunLoop核心原理/CF-1153.18/CFBinaryPList.c:610-707 | every file written starts with bplist00; its objects follow each other from offset 8 to the offset table, in the order of the list, and the table says where each starts; the trailer has six zero bytes, the least sizes of 1, 2, 4 and 8 bytes that hold the table offset and the number of objects, that number, top object 0 and the table offset |
| PlistFormat.WritesInt | 16.RunLoop核心原理/CF-1153.18/CFBinaryPList.c:329-350 | an integer object is 0x10, 0x11, 0x12 or 0x13 and 1, 2, 4 or 8 bytes, big-endian, a negative one modulo 2^64 in 8 bytes |
| PlistFormat.WritesFixed | 16.RunLoop核心原理/CF-1153.18/CFBinaryPList.c:240-288 | false is 0x08 and true 0x09, a real is 0x22 or 0x23 and its 4 or 8 bytes, a date 0x33 and 8 bytes, a UID 0x80, 0x81 or 0x83 and 1, 2 or 4 bytes |
| PlistFormat.WritesData | 16.RunLoop核心原理/CF-1153.18/CFBinaryPList.c:467-474 | data is 0x40 with the count, 15 and more as an integer object behind 0x4F, and the bytes |
| PlistFormat.WritesAscii | 16.RunLoop核心原理/CF-1153.18/CFBinaryPList.c:373-390 | a string of units below 0x80 is 0x50 with the count and a byte for each unit |
| PlistFormat.WritesUnits | 16.RunLoop核心原理/CF-1153.18/CFBinaryPList.c:390-406 | any other string is 0x60 with the count and two bytes for each unit, the high one first |
| PlistFormat.WritesRefs | 16.RunLoop核心原理/CF-1153.18/CFBinaryPList.c:481-526 | an array is 0xA0 with the count and the object number of each child, a dictionary 0xD0 with the count and the numbers of its keys, then of its values |
| PlistReader.GetSizedInt | 16.RunLoop核心原理/CF-1153.18/CFBinaryPList.c:735-757 | the value of the big-endian bytes modulo 2^64, for every width |
| PlistReader.ReadIntExact | 16.RunLoop核心原理/CF-1153.18/CFBinaryPList.c:855-870 | a length integer is read if and only if its marker and all its bytes lie in the object area; its value is what the bytes say, modulo 2^64, if and only if there are fewer than 256 of them or they say 0 |
| PlistReader.WideIntegerLost | 16.RunLoop核心原理/CF-1153.18/CFBinaryPList.c:855-870 | the number 1 in 256 bytes behind the marker 0x18 reads as 0 |
| PlistReader.TrailerShapeOk | 16.RunLoop核心原理/CF-1153.18/CFBinaryPList.c:764-830 | the chain of trailer checks implies everything later reads rely on: sizes of at least one, and object area, offset table and trailer that make up the file exactly |
| PlistReader.CheckOffsets | 16.RunLoop核心原理/CF-1153.18/CFBinaryPList.c:832-838 | accepts exactly the offset tables without an entry at or past the table |
| PlistReader.GetTopLevelInfo | 16.RunLoop核心原理/CF-1153.18/CFBinaryPList.c:759-847 | the trailer and the offset of the top object, exactly for acceptable files; `TopLevelInfoExact` says on the bytes which these are |
| PlistReader.TopLevelInfoExact | 16.RunLoop核心原理/CF-1153.18/CFBinaryPList.c:759-847 | a file is accepted if and only if it starts with bplist0, object area, offset table and a trailer of 32 bytes make it up exactly, the sizes can hold the number of objects and the table offset, and no entry of the table points past the objects; the five numbers are read from its last 26 bytes, and the top object is where the entry that the trailer names says |
| PlistDecoding.EnterDescends | 16.RunLoop核心原理/CF-1153.18/CFBinaryPList.c:1322-1328 | each nested call lowers the lexicographic measure of levels before the path is recorded and offsets not on it, so reading ends on every file, cyclic ones included |
| PlistDecoding.NoCycle | 16.RunLoop核心原理/CF-1153.18/CFBinaryPList.c:1323-1328 | an offset with a finite unfolding lies on no reference cycle |
| PlistDecoding.TreeIsDecoded | 16.RunLoop核心原理/CF-1153.18/CFBinaryPList.c:1063-1437 | whatever path and depth an offset is reached by, a finite unfolding is what the reader returns |
| PlistDecoding.CycleCheckExact | 16.RunLoop核心原理/CF-1153.18/CFBinaryPList.c:1322-1328 | although the path is only recorded from depth 16 on, the reader accepts an offset if and only if its references unfold to a finite tree, and returns that tree |
| PlistDecoding.RecursionDepth | 16.RunLoop核心原理/CF-1153.18/CFBinaryPList.c:1061-1078 | on any input the recursion is never deeper than 17 calls more than the object area has bytes |
| PlistReader.Decoder.CreateObject | 16.RunLoop核心原理/CF-1153.18/CFBinaryPList.c:1061-1559 | with or without the table of finished objects, and from whatever path and depth, decoding gives the result of decoding without the table, restores the path on success, and enters every object but null and the booleans into the table |
| PlistReader.Decoder.CreateContainer | 16.RunLoop核心原理/CF-1153.18/CFBinaryPList.c:1322-1437 | the same for entering a container, with its path set created or extended |
| PlistReader.Decoder.CreateList | 16.RunLoop核心原理/CF-1153.18/CFBinaryPList.c:1377-1389 | the loop over references decodes exactly the list of children, with primitive keys first in a dictionary |
| PlistReader.TryParse | 16.RunLoop核心原理/CF-1153.18/CFBinaryPList.c:1566-1590 | parsing a file yields what the trailer check and plain decoding from the top object say; the rows of `TopLevelInfoExact` and of the formats read pin both to the bytes |
| PlistFormat.ReadsSingletons | 16.RunLoop核心原理/CF-1153.18/CFBinaryPList.c:1082-1097 | 0x00 is null, 0x08 false and 0x09 true; a marker without a format is no object |
| PlistFormat.FixedKinds | 16.RunLoop核心原理/CF-1153.18/CFBinaryPList.c:1098-1298 | 0x1n is read as an integer, 0x2n as a real, 0x3n as a date, 0x8n as a UID |
| PlistFormat.ReadsInt | 16.RunLoop核心原理/CF-1153.18/CFBinaryPList.c:1098-1127 | 1, 2 and 4 bytes are an unsigned, 8 a signed integer; of 16 bytes the last 8 are kept |
| PlistFormat.ReadsBits | 16.RunLoop核心原理/CF-1153.18/CFBinaryPList.c:1128-1189 | reals of 4 and 8 bytes and dates of 8, if they lie in the object area |
| PlistFormat.ReadsUid | 16.RunLoop核心原理/CF-1153.18/CFBinaryPList.c:1280-1298 | 1 to 16 bytes, whose value must be below 2^32 |
| PlistFormat.CountedKinds | 16.RunLoop核心原理/CF-1153.18/CFBinaryPList.c:1190-1462 | 0x4n is read as data, 0x5n as an ASCII, 0x6n as a UTF-16 string, 0xAn as an array, 0xCn as a set, 0xDn as a dictionary |
| PlistFormat.ReadsData | 16.RunLoop核心原理/CF-1153.18/CFBinaryPList.c:1190-1215 | as many bytes as counted, if they lie in the object area |
| PlistFormat.ReadsAscii | 16.RunLoop核心原理/CF-1153.18/CFBinaryPList.c:1216-1242 | a unit for each byte |
| PlistFormat.ReadsUnits | 16.RunLoop核心原理/CF-1153.18/CFBinaryPList.c:1243-1279 | a unit for two bytes, the high one first |
| PlistFormat.ReadsRefs | 16.RunLoop核心原理/CF-1153.18/CFBinaryPList.c:1299-1462 | as many references as counted, twice as many in a dictionary, if they lie in the object area |
| PlistFormat.ReadsNoCount | 16.RunLoop核心原理/CF-1153.18/CFBinaryPList.c:1190-1462 | without a count in the bytes, inline or as a length integer in the object area below 2^63, none of these is there |
| PlistFormat.ReadsNumbers | 16.RunLoop核心原理/CF-1153.18/CFBinaryPList.c:872-880 | a reference is a big-endian object number and stands for the offset in that entry of the offset table, or for none |
| PlistFormat.ContainerMeans | 16.RunLoop核心原理/CF-1153.18/CFBinaryPList.c:1322-1556 | a container has a value if and only if all its children have and no key of a dictionary is an array, a set or a dictionary; the value is an array, a set or a dictionary of theirs, in order, keys first |
| PlistRoundTrip.HeaderBack | 16.RunLoop核心原理/CF-1153.18/CFBinaryPList.c:1082-1462 | the bytes written for one object read back as that object, whatever its type and size |
| PlistRoundTrip.TrailerBack | 16.RunLoop核心原理/CF-1153.18/CFBinaryPList.c:764-847 | the trailer written passes every trailer check and reads back |
| PlistRoundTrip.RefsBack | 16.RunLoop核心原理/CF-1153.18/CFBinaryPList.c:872-880 | the references written in a container resolve to the offsets of its children |
| PlistRoundTrip.ItemBack | 16.RunLoop核心原理/CF-1153.18/CFBinaryPList.c:456-530 | every listed object is found at its noted offset with its references resolved |
| PlistRoundTrip.TreeBack | 16.RunLoop核心原理/CF-1153.18/CFBinaryPList.c:1061-1559 | the file unfolds from the offset of an object to the tree of that object |
| PlistRoundTrip.RoundTrip | 16.RunLoop核心原理/CF-1153.18/CFBinaryPList.c:610-707 | for every finite graph of supported objects, however shared, the written file passes the trailer check, and it decodes to the tree unfolding of the top object if and only if no dictionary key is a container; otherwise it is refused |
| PlistRoundTrip.ContainerKey | 16.RunLoop核心原理/CF-1153.18/CFBinaryPList.c:1510-1520 | a dictionary whose key is an empty array is written, and the file is refused |
| ArrayDeque.RoundUpCapacity | 16.RunLoop核心原理/CF-1153.18/CFArray.c:46-49 | the capacity is greater than asked for, at least 4 and at most 2^30 |
| ArrayDeque.RoundUpLeast | 16.RunLoop核心原理/CF-1153.18/CFArray.c:46-49 | it is the least power of two that is greater than asked for and at least 4 |
| ArrayDeque.ShiftLimit | 16.RunLoop核心原理/CF-1153.18/CFArray.c:46-49 | the 32-bit shift is defined if and only if the request is below 2^30 |
| ArrayDeque.GrowthOkExact | 16.RunLoop核心原理/CF-1153.18/CFArray.c:793-797 | a plain size condition is exactly when the reallocation test, with its 32-bit cast, leads to a defined capacity or to a result that fits |
| ArrayDeque.CastCanOverrun | 16.RunLoop核心原理/CF-1153.18/CFArray.c:795 | without it the cast hides that 2^32 values do not fit into 8 slots |
| ArrayDeque.MutableArray.ReleaseValues | 16.RunLoop核心原理/CF-1153.18/CFArray.c:197-240 | every value of the range is released once, in order, and cleared, and its neighbours stay |
| ArrayDeque.MutableArray.RepositionDequeRegions | 16.RunLoop核心原理/CF-1153.18/CFArray.c:775-859 | whichever of the four strategies is taken, the values before and after the range survive around a gap of the new size, inside the store; there is a new store, centred in it, exactly when the old one is too small or tight, otherwise the shorter side alone moves if its neighbour has room, and both are recentred if not |
| ArrayDeque.MutableArray.Reallocate | 16.RunLoop核心原理/CF-1153.18/CFArray.c:795-817 | new storage with both regions in place |
| ArrayDeque.MutableArray.MoveRightPart | 16.RunLoop核心原理/CF-1153.18/CFArray.c:819-826 | the right region moves over itself without loss |
| ArrayDeque.MutableArray.MoveLeftPart | 16.RunLoop核心原理/CF-1153.18/CFArray.c:827-835 | the left region moves over itself without loss |
| ArrayDeque.MutableArray.Recenter | 16.RunLoop核心原理/CF-1153.18/CFArray.c:836-858 | both regions move, in the order that does not overwrite the other, and stay inside the store |
| ArrayDeque.MutableArray.ReplaceValues | 16.RunLoop核心原理/CF-1153.18/CFArray.c:922-993 | from every state, replacing a range puts the new values, as their retains return them, in its place and leaves the values before and after, and retains every new value before it releases the first old one |
| ArrayDeque.ReplaceEventsAt | 16.RunLoop核心原理/CF-1153.18/CFArray.c:934-988 | one retain for each new value, then one release for each replaced one, each in order |
| ArrayDeque.MutableArray.SetValueAtIndex | 16.RunLoop核心原理/CF-1153.18/CFArray.c:695-720 | the same for one position, at the end by way of an insertion |
| ArrayDeque.MutableArray.RemoveAllValues | 16.RunLoop核心原理/CF-1153.18/CFArray.c:762-773 | every value is released and nothing stays visible |
| ArrayDeque.MutableArray.ExchangeValuesAtIndices | 16.RunLoop核心原理/CF-1153.18/CFArray.c:733-751 | two positions trade places without a callback |
| ArrayDeque.MutableArray.SetCapacity | 16.RunLoop核心原理/CF-1153.18/CFArray.c:871-908 | growing the store changes nothing visible |
| ArrayDeque.ReplaceBalanced | 16.RunLoop核心原理/CF-1153.18/CFArray.c:922-993 | with a retain and a release callback, retains that gave an object less releases of it stay the number of its places in the array, whatever the retains return |
| ArrayDeque.NeverLetGo | 16.RunLoop核心原理/CF-1153.18/CFArray.c:934-988 | at no moment of a replacement does the balance of an object fall below both what it was and what it will be |
| ArrayAlgorithms.BSearchValues | 16.RunLoop核心原理/CF-1153.18/CFArray.c:1074-1100 | on every sorted range below 2^31 items, and on any whose last or first item settles the search, the power-of-two probes stay in bounds and end at the first index whose item is not less than the value, or at the end |
| ArrayAlgorithms.ProbeLimit | 16.RunLoop核心原理/CF-1153.18/CFArray.c:1088-1091 | the first probe width, a 32-bit shift, is defined if and only if the range is below 2^31 items |
| ArrayAlgorithms.ZSort | 16.RunLoop核心原理/CF-1153.18/CFArray.c:1006-1018 | the swap-only sort sorts the range, stably and by rearrangement alone, and leaves the rest alone |
| LatchingCount.DecideWord | 03.Block原理分析与实战/libclosure-74/runtime.cpp:53-104 | a swap moves the count by one, never carries out of the 15 bits, never clears DEALLOCATING, and sets it only on a release at count one |
| LatchingCount.DeallocatesOnce | 03.Block原理分析与实战/libclosure-74/runtime.cpp:82-104 | in every interleaving of any number of threads at most one release is told to deallocate, and one is exactly if the bit has been set |
| LatchingCount.FlagsKept | 03.Block原理分析与实战/libclosure-74/runtime.cpp:53-104 | no run changes the flag bits above the count |
| LatchingCount.LatchedForever | 03.Block原理分析与实战/libclosure-74/runtime.cpp:53-104 | a latched word never changes again |
| LatchingCount.DeallocatingForever | 03.Block原理分析与实战/libclosure-74/runtime.cpp:65-79 | DEALLOCATING is never cleared and no try-retain succeeds after it is set; `TryRetainExact` says that one succeeds before |
| LatchingCount.RetainCounts | 03.Block原理分析与实战/libclosure-74/runtime.cpp:53-63 | a retain that finishes has added 2 to the word there was, unless the count was 0x7fff |
| LatchingCount.TryRetainExact | 03.Block原理分析与实战/libclosure-74/runtime.cpp:65-79 | a try-retain returns true if and only if the word there is when it finishes is not deallocating, and then has added 2 to it, unless the count was 0x7fff |
| LatchingCount.ReleaseExact | 03.Block原理分析与实战/libclosure-74/runtime.cpp:82-104 | a release is told to deallocate if and only if it finds count one and no mark, and then leaves the mark alone; otherwise it subtracts 2, unless the count was 0x7fff; having read an empty count it does nothing |
| LatchingCount.RetryMeansProgress | 03.Block原理分析与实战/libclosure-74/runtime.cpp:53-104 | a loop goes round again only if another operation finished since it read the word |
| LatchingCount.CountIsReferences | 03.Block原理分析与实战/libclosure-74/runtime.cpp:53-104 | with balanced callers and while unlatched, the count is the references held or in use by running operations |
| LatchingCount.DeallocatedIffUnreferenced | 03.Block原理分析与实战/libclosure-74/runtime.cpp:82-104 | with balanced callers, deallocation has been called for if and only if the object is unlatched and no reference is left |
| LatchingCount.LatchedLeaks | 03.Block原理分析与实战/libclosure-74/runtime.cpp:53-104 | a latched object is never deallocated |
| BlockRuntime.Runtime.Copy | 03.Block原理分析与实战/libclosure-74/runtime.cpp:193-226 | copying keeps every count right, moves a stack block with all stack blocks and variables it has captured to the heap, changes nothing else but counts and forwarding, and keeps every value of a variable |
| BlockRuntime.Runtime.ObjectAssign | 03.Block原理分析与实战/libclosure-74/runtime.cpp:438-470 | one capture after the other is copied and held by the new block |
| BlockRuntime.Runtime.ByrefCopy | 03.Block原理分析与实战/libclosure-74/runtime.cpp:238-279 | the first copy of a variable forwards its stack cell to a new heap cell with one reference for the copier and one for the scope; later ones count |
| BlockRuntime.Runtime.Release | 03.Block原理分析与实战/libclosure-74/runtime.cpp:313-325 | releasing keeps every count right, ends, only ever frees, and leaves every block that stays with its captures; a stack block is left alone |
| BlockRuntime.Runtime.DisposeHelper | 03.Block原理分析与实战/libclosure-74/runtime.cpp:508-530 | a dying block lets go of each capture once |
| BlockRuntime.Runtime.ObjectDispose | 03.Block原理分析与实战/libclosure-74/runtime.cpp:508-530 | each kind of capture gives back exactly one reference |
| BlockRuntime.Runtime.ByrefRelease | 03.Block原理分析与实战/libclosure-74/runtime.cpp:281-298 | the heap cell loses one reference and is freed with the last; the count asserted non-zero is |
| BlockRuntime.Runtime.FreeMemory | 03.Block原理分析与实战/libclosure-74/runtime.cpp:319-324 | memory is only freed while it is live and nothing refers to it, so at most once |
| BlockRuntime.Runtime.ExitScope | 03.Block原理分析与实战/libclosure-74/runtime.cpp:512-515 | the end of a scope gives up its share in the heap cell, and the stack cell goes |
| BlockCopying.CopyMeansTheSame | 03.Block原理分析与实战/libclosure-74/runtime.cpp:193-226 | a copied block has the code and the captures of the original, at every depth, variables by identity |
| BlockHeap.OneHeapCell | 03.Block原理分析与实战/libclosure-74/runtime.cpp:238-279 | all holders of one variable hold the same live heap cell, the one its stack cell forwards to |
| BlockHeap.ForwardingIdempotent | 03.Block原理分析与实战/libclosure-74/runtime.cpp:229-232 | following the forwarding pointer twice is following it once |
| BlockReleasing.BlockCounts | 03.Block原理分析与实战/libclosure-74/runtime.cpp:313-325 | between calls, the count of an unlatched heap block is the references of callers plus the captures of live heap blocks, and a heap block is live if and only if it has some or is latched |
| BlockReleasing.CellCounts | 03.Block原理分析与实战/libclosure-74/runtime.cpp:238-298 | the same for the heap cell of a variable, with one share for its scope until that ends |
| BlockReleasing.CapturesLive | 03.Block原理分析与实战/libclosure-74/runtime.cpp:500-530 | no capture of a live heap block is freed or on the stack |
| BasicHashTable.CapacityFits | 16.RunLoop核心原理/CF-1153.18/CFBasicHash.c:225-259 | no capacity exceeds its number of buckets, and capacities grow |
| BasicHashTable.IndexForCapacity | 16.RunLoop核心原理/CF-1153.18/CFBasicHash.c:702-708 | the least index with capacity enough |
| BasicHashTable.CanGrowExact | 16.RunLoop核心原理/CF-1153.18/CFBasicHash.c:1136-1143 | growing by one finds room if and only if the count is below the last capacity, or the last but one for aggressive growth |
| BasicHashTable.RehashIndexExact | 16.RunLoop核心原理/CF-1153.18/CFBasicHash.c:1134-1143 | a rehash goes to the first size with capacity enough, to grow by one aggressively to the one after it, and for no change in number keeps the size; a full table grows by one size, or by two |
| BasicHashTable.StorableExact | 16.RunLoop核心原理/CF-1153.18/CFBasicHash.c:492-514 | a value comes back from its bucket if and only if it is not 0xa7baadb1 or 0xa5baadb9, the stand-ins stored for 0 and ~0 |
| BasicHashTable.LinearVisitsAll | 16.RunLoop核心原理/CF-1153.18/CFBasicHashFindBucket.m:57-66 | the linear style steps through every bucket once |
| BasicHashProbing.DoubleVisitsAll | 16.RunLoop核心原理/CF-1153.18/CFBasicHashFindBucket.m:67-81 | from the hash modulo the number of buckets, steps of the quotient modulo that number, or one less than it instead of 0, lead through every bucket once if it is a prime |
| BasicHashProbing.ExponentialFormula | 16.RunLoop核心原理/CF-1153.18/CFBasicHashFindBucket.m:82-100 | as long as nothing wraps, bucket i of exponential hashing is (h1 + h2 * pr^i) modulo the number of buckets |
| BasicHashProbing.ExponentialVisitsAll | 16.RunLoop核心原理/CF-1153.18/CFBasicHashFindBucket.m:163-178 | with a prime number of buckets and a primitive root of it, exponential hashing steps through every bucket if and only if the farthest sum of hash and product does not wrap around in 64 bits |
| BasicHashProbing.TableVisitsAll | 16.RunLoop核心原理/CF-1153.18/CFBasicHashFindBucket.m:163-178 | with every number of buckets of the table but the last it does, whatever the hash |
| BasicHashProbing.LastTableMisses | 16.RunLoop核心原理/CF-1153.18/CFBasicHashFindBucket.m:163-178 | with the last it does not: at hash 0 two values of `acc` lead to bucket 2564414213, and some bucket is never met |
| BasicHashProbing.ExponentialCovers | 16.RunLoop核心原理/CF-1153.18/CFBasicHashFindBucket.m:163-178 | still it meets at least as many different buckets as the table may hold entries, also with the last |
| BasicHashProbing.StyleProbes | 16.RunLoop核心原理/CF-1153.18/CFBasicHashFindBucket.m:57-109 | each of the three styles makes a configuration whose searches meet enough buckets of every table |
| BasicHashPrimes.RootByFactors | 16.RunLoop核心原理/CF-1153.18/CFBasicHash.c:261-275 | a number is a primitive root of a prime n if its power n - 1 is 1 and its powers (n - 1) / p, for the prime factors p of n - 1, are not |
| BasicHashPrimes.SmallestTables | 16.RunLoop核心原理/CF-1153.18/CFBasicHash.c:222-276 | the nine smallest numbers of buckets, up to 251, are primes, and the roots listed for them primitive |
| BasicHashTable.Insert | 16.RunLoop核心原理/CF-1153.18/CFBasicHash.c:1259-1286 | an entry put into the first free bucket of its path is found, and no other entry is lost to a search |
| BasicHashTable.Remove | 16.RunLoop核心原理/CF-1153.18/CFBasicHash.c:1300-1310 | a tombstone in place of an entry removes it and hides no other |
| BasicHashTable.NotThere | 16.RunLoop核心原理/CF-1153.18/CFBasicHashFindBucket.m:111-122 | a search that meets an empty bucket, or has been everywhere, proves the key absent |
| BasicHash.HashTable.FindBucket | 16.RunLoop核心原理/CF-1153.18/CFBasicHashFindBucket.m:41-192 | the bucket of an equal key and its count; for a key that is not there the first bucket on its path that holds no entry, a tombstone or the empty one, or none if every bucket on it is live |
| BasicHash.HashTable.FindBucketNoCollision | 16.RunLoop核心原理/CF-1153.18/CFBasicHashFindBucket.m:41-192 | in a table without tombstones, the empty bucket that ends the path of an absent key |
| BasicHash.HashTable.Rehash | 16.RunLoop核心原理/CF-1153.18/CFBasicHash.c:1127-1249 | every (key, value, count) survives and no other appears, no callback is made, no tombstone and no deleted count is left, and the new size has room for what was asked |
| BasicHash.HashTable.BumpCounts | 16.RunLoop核心原理/CF-1153.18/CFBasicHash.c:569-626 | widening changes no count |
| BasicHash.HashTable.IncSlotCount | 16.RunLoop核心原理/CF-1153.18/CFBasicHash.c:628-676 | one more, in a store wide enough, which is widened only if it has to be |
| BasicHashStores.CountWidths | 16.RunLoop核心原理/CF-1153.18/CFBasicHash.c:556-626 | the greatest counts of the four widths are those of signed integers of 1, 2, 4 and 8 bytes |
| BasicHash.HashTable.AddValueAt | 16.RunLoop核心原理/CF-1153.18/CFBasicHash.c:1259-1286 | adding, with the rehash it may need, adds exactly the imported entry, without one at the bucket given, and keeps used and deleted the numbers of live buckets and tombstones, within the capacity |
| BasicHash.HashTable.ReplaceValueAt | 16.RunLoop核心原理/CF-1153.18/CFBasicHash.c:1288-1298 | replacing imports the new pair, ejects the old one, once each, and keeps the count |
| BasicHash.HashTable.RemoveValueAt | 16.RunLoop核心原理/CF-1153.18/CFBasicHash.c:1300-1330 | removing ejects the entry once and leaves the rest as it was; the table shrinks, to the least size with capacity enough, exactly if one two sizes down, or five, would do, and otherwise loses its tombstones exactly if their 16-bit number rolls over or, unless it is tiny, a quarter of the buckets are |
| BasicHash.HashTable.Add | 16.RunLoop核心原理/CF-1153.18/CFBasicHash.c:1332-1350 | refines adding to a map or a multiset, with the count clamped at its maximum; like every other operation it keeps the callbacks in balance |
| BasicHash.HashTable.ReplaceValue | 16.RunLoop核心原理/CF-1153.18/CFBasicHash.c:1352-1362 | refines replacing in a map |
| BasicHash.HashTable.Set | 16.RunLoop核心原理/CF-1153.18/CFBasicHash.c:1364-1376 | refines setting in a map |
| BasicHashCallbacks.StoredExactly | 16.RunLoop核心原理/CF-1153.18/CFBasicHash.c:402-414 | what is stored is what the retain callbacks return, or without one the word itself, and a set stores its value alone |
| BasicHashCallbacks.CalledExactly | 16.RunLoop核心原理/CF-1153.18/CFBasicHash.c:402-428 | the callbacks made are those the table has, each once, for the value first |
| BasicHashCallbacks.BalancedAdd | 16.RunLoop核心原理/CF-1153.18/CFBasicHash.c:1259-1286 | adding a pair keeps the balance: every object has been retained, less the releases of it, at least once for each of its places in the table as a key and as a value, and exactly so with a release callback |
| BasicHashCallbacks.BalancedReplace | 16.RunLoop核心原理/CF-1153.18/CFBasicHash.c:1288-1298 | so does replacing one, whatever the retains return |
| BasicHashCallbacks.BalancedRemove | 16.RunLoop核心原理/CF-1153.18/CFBasicHash.c:1300-1310 | so does removing one |
| BasicHashCallbacks.BalancedEmpty | 16.RunLoop核心原理/CF-1153.18/CFBasicHash.c:1407-1411 | so does removing all |
| BasicHashCallbacks.BalancedCopy | 16.RunLoop核心原理/CF-1153.18/CFBasicHash.c:1656-1757 | and a copy is in balance by itself |
| BasicHash.HashTable.RemoveValue | 16.RunLoop核心原理/CF-1153.18/CFBasicHash.c:1378-1391 | removal from a map or a multiset: the last occurrence takes the entry with it, a count at the very top stays, and any other goes down by one; the former count is returned |
| BasicHash.HashTable.RemoveAllValues | 16.RunLoop核心原理/CF-1153.18/CFBasicHash.c:1407-1411 | every live bucket is ejected once, and the table is empty |
| BasicHash.HashTable.SetCapacity | 16.RunLoop核心原理/CF-1153.18/CFBasicHash.c:1251-1257 | makes room, in the first size with capacity enough, and changes nothing else |
| BasicHash.HashTable.AddIntValueAndInc | 16.RunLoop核心原理/CF-1153.18/CFBasicHash.c:1413-1443 | a new key at an integer, with the integers from it on raised as their words read back, across any rehash |
| BasicHash.HashTable.RemoveIntValueAndDec | 16.RunLoop核心原理/CF-1153.18/CFBasicHash.c:1445-1465 | the entry of an integer removed and the greater ones lowered |
| BasicHash.RenumberWords | 16.RunLoop核心原理/CF-1153.18/CFBasicHash.c:1413-1465 | every word goes up or down by one modulo 2^64, unless that is a stand-in, which reads back as what it stands for |
| BasicHash.InsertedNumbering | 16.RunLoop核心原理/CF-1153.18/CFBasicHash.c:1413-1443 | inserting into a numbering 0..n-1 gives a numbering 0..n if and only if n is below the stand-in for ~0 |
| BasicHash.NumberingBreaks | 16.RunLoop核心原理/CF-1153.18/CFBasicHash.c:1413-1443 | with as many keys as fit, inserting one at 0 raises the last integer to ~0 |
| BasicHash.OrderKept | 16.RunLoop核心原理/CF-1153.18/CFBasicHash.c:1413-1443 | the relative order of the other keys is kept |
| BasicHash.InsertThenWithdraw | 16.RunLoop核心原理/CF-1153.18/CFBasicHash.c:1445-1465 | removing the integer just inserted restores the original table |
| BasicHash.WithdrawnNumbering | 16.RunLoop核心原理/CF-1153.18/CFBasicHash.c:1445-1465 | removing any integer leaves a numbering of the rest |
| BasicHash.HashTable.CreateCopy | 16.RunLoop核心原理/CF-1153.18/CFBasicHash.c:1656-1757 | the copy holds the same entries, each imported once, and is a table as good as the original |
| Utf8Forms.WellFormed16Exact | 16.RunLoop核心原理/CF-1153.18/CFBuiltinConverters.c:957-968 | reading surrogate pairs takes a text to its end if and only if it is well-formed UTF-16 (section 2.1 of RFC 2781) |
| Utf8Forms.SequenceIsUtf8 | 16.RunLoop核心原理/CF-1153.18/CFBuiltinConverters.c:999-1011 | a sequence of the syntax in section 4 of RFC 3629 is the encoding of the character it stands for |
| Utf8Forms.Utf8IsSequence | 16.RunLoop核心原理/CF-1153.18/CFBuiltinConverters.c:923-944 | the encoding of every character is such a sequence and stands for it |
| Utf8Forms.StandardExamples | 16.RunLoop核心原理/CF-1153.18/CFBuiltinConverters.c:923-944 | the examples in section 7 of RFC 3629 and section 5 of RFC 2781 |
| Utf8Converter.ToUtf8Core | 16.RunLoop核心原理/CF-1153.18/CFBuiltinConverters.c:923-944 | the bytes of section 3 of RFC 3629 for the character, or nothing if there is no room |
| Utf8Converter.ToUtf8 | 16.RunLoop核心原理/CF-1153.18/CFBuiltinConverters.c:946-986 | under any limit the bytes are exactly the encoding of the units reported read, never part of a pair, and the encoder stops at the end of the well-formed start of the text or at the first character without room, told modulo 2^32 |
| Utf8Converter.ReachesEnd | 16.RunLoop核心原理/CF-1153.18/CFBuiltinConverters.c:946-986 | it gets to the end if and only if no character is out of room, which comes down to room for all the bytes and enough of it modulo 2^32 before every character but ASCII |
| Utf8Converter.EnoughRoom | 16.RunLoop核心原理/CF-1153.18/CFBuiltinConverters.c:946-986 | with room for all, below 2^32 bytes, it does |
| Utf8Converter.RoomLost | 16.RunLoop核心原理/CF-1153.18/CFBuiltinConverters.c:976 | the two bytes of U+0080 do not get into a buffer of 2^32 bytes |
| Utf8Converter.ReadsAll | 16.RunLoop核心原理/CF-1153.18/CFBuiltinConverters.c:946-986 | all units are read if and only if the text is well-formed and the end was reached |
| Utf8Converter.ToUtf8Len | 16.RunLoop核心原理/CF-1153.18/CFBuiltinConverters.c:1108-1123 | for every text the bytes of its codes, modulo 2^32; `CodesExact` says what these are |
| Utf8Converter.CodesExact | 16.RunLoop核心原理/CF-1153.18/CFBuiltinConverters.c:1108-1123 | one byte for each unit up to 0x7F, two up to 0x7FF and for each half of a pair, and three for any other, surrogates out of place included |
| Utf8Converter.LoneSurrogates | 16.RunLoop核心原理/CF-1153.18/CFBuiltinConverters.c:1108-1123 | 0xD800 alone counts three bytes, a low and a high surrogate six, a pair four |
| Utf8Converter.CodesOfText | 16.RunLoop核心原理/CF-1153.18/CFBuiltinConverters.c:1108-1123 | for well-formed text that is the length of its encoding |
| Utf8Converter.IsLegalUTF8 | 16.RunLoop核心原理/CF-1153.18/CFBuiltinConverters.c:999-1011 | accepts exactly the syntax of section 4 of RFC 3629 |
| Utf8Converter.Accumulate | 16.RunLoop核心原理/CF-1153.18/CFBuiltinConverters.c:1046-1056 | the shifts and the offset subtraction compute the character |
| Utf8Converter.FromUtf8 | 16.RunLoop核心原理/CF-1153.18/CFBuiltinConverters.c:1013-1106 | the units written are those of exactly the pieces taken, to the end of what is well-formed or stray or until the buffer is full, except that the four bytes of a character with room for only one of its units are taken as well |
| Utf8Converter.EnoughUnits | 16.RunLoop核心原理/CF-1153.18/CFBuiltinConverters.c:1013-1106 | it gets to the end of what is well-formed or stray if and only if there is room for all its units, or no limit |
| Utf8Converter.CutExact | 16.RunLoop核心原理/CF-1153.18/CFBuiltinConverters.c:1092-1097 | that exception occurs if and only if a character of two units begins one unit before the limit |
| Utf8Converter.CutHappens | 16.RunLoop核心原理/CF-1153.18/CFBuiltinConverters.c:1092-1097 | U+10000 into a buffer of one unit is such a case |
| Utf8Converter.LongestPrefix | 16.RunLoop核心原理/CF-1153.18/CFBuiltinConverters.c:1025-1043 | what is taken is the longest prefix made of well-formed sequences and stray 0xA9 bytes |
| Utf8Converter.StrayBytes | 16.RunLoop核心原理/CF-1153.18/CFBuiltinConverters.c:1025-1045 | a byte 0xA9 that starts no character decodes to U+FFFD, and the rest as it would alone; any other byte that starts none ends the decoding |
| Utf8Converter.FromUtf8Len | 16.RunLoop核心原理/CF-1153.18/CFBuiltinConverters.c:1125-1192 | the number of units the decoder writes with room for all |
| Utf8Converter.RoundTrip | 16.RunLoop核心原理/CF-1153.18/CFBuiltinConverters.c:946-1106 | every well-formed UTF-16 text encodes to bytes that decode, to the end, to itself |
| Utf8Converter.RoundTripBytes | 16.RunLoop核心原理/CF-1153.18/CFBuiltinConverters.c:946-1106 | well-formed bytes are the encoding of the text they decode to |
| Utf8Converter.ThereAndBack | 16.RunLoop核心原理/CF-1153.18/CFBuiltinConverters.c:946-1192 | the two length passes and the two converters in a row return the text |
| BigNumber.Compare | 16.RunLoop核心原理/CF-1153.18/CFBigNumber.c:416-431 | less, equal or greater exactly as the integers are, on normal forms |
| BigNumber.AbsoluteLessThan | 16.RunLoop核心原理/CF-1153.18/CFBigNumber.c:435-446 | agrees with the order of the magnitudes |
| BigNumber.Neg | 16.RunLoop核心原理/CF-1153.18/CFBigNumber.c:448-463 | the opposite number, a zero staying without sign |
| BigNumber.AddDigits | 16.RunLoop核心原理/CF-1153.18/CFBigNumber.c:465-480 | digit sums and carries conserve the value, also when the result is one of the operands |
| BigNumber.SubtractDigits | 16.RunLoop核心原理/CF-1153.18/CFBigNumber.c:490-507 | borrowing conserves the value, and nothing is borrowed in the end |
| BigNumber.Add | 16.RunLoop核心原理/CF-1153.18/CFBigNumber.c:465-509 | signed result plus signed carry times 10^45 is the exact sum, without carry for different signs; of two normal forms the result is one if and only if no column sums to exactly 10^9, or for different signs unless the first operand is the negative of the second and below zero |
| BigNumber.SumLeavesNormal | 16.RunLoop核心原理/CF-1153.18/CFBigNumber.c:465-509 | 999999999 plus 1 becomes one digit of 10^9, and -1 plus 1 a zero with a sign |
| BigNumber.Sub | 16.RunLoop核心原理/CF-1153.18/CFBigNumber.c:511-515 | the same conservation for the difference, and the same condition with the sign of the second operand turned |
| BigNumber.SameValueSameDigits | 16.RunLoop核心原理/CF-1153.18/CFBigNumber.c:122-158 | a number has one normal form |
| BigNumber.InitWithInt64 | 16.RunLoop核心原理/CF-1153.18/CFBigNumber.c:122-135 | the normal form of every 64-bit integer, the least included |
| BigNumber.GetInt64 | 16.RunLoop核心原理/CF-1153.18/CFBigNumber.c:236-244 | three digits and the sign, in wrapping arithmetic |
| BigNumber.WrapsTurns | 16.RunLoop核心原理/CF-1153.18/CFBigNumber.c:236-257 | wrapped arithmetic gives the number in range that differs by a multiple of 2^64, or 2^128 |
| BigNumber.Int64ThereAndBack | 16.RunLoop核心原理/CF-1153.18/CFBigNumber.c:122-244 | every signed 64-bit integer comes back |
| BigNumber.UInt64ThereAndBack | 16.RunLoop核心原理/CF-1153.18/CFBigNumber.c:180-282 | every unsigned 64-bit integer comes back |
| BigNumber.InitWithInt128 | 16.RunLoop核心原理/CF-1153.18/CFBigNumber.c:138-158 | the normal form of every 128-bit integer |
| BigNumber.GetInt128 | 16.RunLoop核心原理/CF-1153.18/CFBigNumber.c:247-257 | the signed value, wrapped |
| BigNumber.Int128ThereAndBack | 16.RunLoop核心原理/CF-1153.18/CFBigNumber.c:138-257 | every signed 128-bit integer comes back |
| BigNumber.UInt128ThereAndBack | 16.RunLoop核心原理/CF-1153.18/CFBigNumber.c:192-292 | every unsigned 128-bit integer comes back |
| BigNumberText.ToCString | 16.RunLoop核心原理/CF-1153.18/CFBigNumber.c:518-538 | in a buffer of any size, a minus if and only if the number has that sign, otherwise a plus if and only if it is asked for, otherwise a digit at once; then what fits of the 45 characters of the digits: the last ones, padded to fill the buffer, or the first of those without leading zeros, of which the first is no zero but that of 0; and the end of the string |
| BigNumberText.AllDigitsExact | 16.RunLoop核心原理/CF-1153.18/CFBigNumber.c:526-527 | these 45 characters say the magnitude if and only if all digits are below 10^9, and otherwise too little |
| BigNumberText.PrintedExact | 16.RunLoop核心原理/CF-1153.18/CFBigNumber.c:518-538 | these digits say the magnitude if and only if it has no more digits than there is room for |
| BigNumberText.FromCString | 16.RunLoop核心原理/CF-1153.18/CFBigNumber.c:540-571 | the digits of any length make the number the text says if and only if it is below 2^32 times 10^36, and are below 10^9 if it is below 10^45 |
| BigNumberText.ThereAndBack | 16.RunLoop核心原理/CF-1153.18/CFBigNumber.c:518-571 | a normal form comes back from its text, padded or not, with or without a plus sign, if and only if the buffer has room for its digits, the sign and the end |
| BinaryHeap.RootIsLeast | 16.RunLoop核心原理/CF-1153.18/CFBinaryHeap.c:308-312 | in heap order nothing is less than the first item |
| BinaryHeap.HeapChildren | 16.RunLoop核心原理/CF-1153.18/CFBinaryHeap.c:382-428 | heap order says that no item is greater than those at twice its index plus one and two |
| BinaryHeap.Heap.Grow | 16.RunLoop核心原理/CF-1153.18/CFBinaryHeap.c:355-365 | growing keeps every item where it is |
| BinaryHeap.Heap.SiftUp | 16.RunLoop核心原理/CF-1153.18/CFBinaryHeap.c:382-390 | the gap rises until the value fits, by exchanges alone |
| BinaryHeap.Heap.AddValue | 16.RunLoop核心原理/CF-1153.18/CFBinaryHeap.c:367-396 | heap order stays, and the items change by exactly the value added, retained once |
| BinaryHeap.Heap.SiftDown | 16.RunLoop核心原理/CF-1153.18/CFBinaryHeap.c:413-428 | the gap sinks along lesser children until the value fits |
| BinaryHeap.Heap.RemoveMinimumValue | 16.RunLoop核心原理/CF-1153.18/CFBinaryHeap.c:398-430 | heap order stays, and the items change by exactly one least item, released once |
| BinaryHeap.Heap.CreateCopy | 16.RunLoop核心原理/CF-1153.18/CFBinaryHeap.c:266-269 | a heap of the same items, as retained |
| BinaryHeap.Heap.GetValues | 16.RunLoop核心原理/CF-1153.18/CFBinaryHeap.c:321-337 | an ascending permutation of the contents |
| BitVector.BucketMaskBit | 16.RunLoop核心原理/CF-1153.18/CFBitVector.c:107-113 | the two shifts make a mask of exactly the bits between the bounds |
| BitVector.CountBucket | 16.RunLoop核心原理/CF-1153.18/CFBitVector.c:323-333 | the nibble table counts the masked bits |
| BitVector.InternalMap | 16.RunLoop核心原理/CF-1153.18/CFBitVector.c:284-316 | ramping up, clipping along and ramping down maps exactly the bits of the range, leaves the others, and counts what a bit-by-bit count would |
| BitVector.MutableBitVector.SetBits | 16.RunLoop核心原理/CF-1153.18/CFBitVector.c:501-511 | exactly the bits of the range get the value |
| BitVector.MutableBitVector.FlipRange | 16.RunLoop核心原理/CF-1153.18/CFBitVector.c:486-492 | exactly the bits of the range are flipped |
| BitVector.MutableBitVector.GetCountOfBit | 16.RunLoop核心原理/CF-1153.18/CFBitVector.c:335-343 | the number of occurrences in the visible range, which does not change |
| BitVector.MutableBitVector.SetCount | 16.RunLoop核心原理/CF-1153.18/CFBitVector.c:437-473 | the bits kept stay, and every bit that comes into sight is zero, also after an earlier shrink |
| BitVector.MutableBitVector.SetAllBits | 16.RunLoop核心原理/CF-1153.18/CFBitVector.c:513-528 | every visible bit gets the value |
| BitVector.MutableBitVector.SetBitAtIndex | 16.RunLoop核心原理/CF-1153.18/CFBitVector.c:494-499 | one bit and no other |
| BitVector.MutableBitVector.FlipBitAtIndex | 16.RunLoop核心原理/CF-1153.18/CFBitVector.c:475-480 | one bit and no other |
| BitVector.MutableBitVector.GetBitAtIndex | 16.RunLoop核心原理/CF-1153.18/CFBitVector.c:352-356 | the bit at the index |

## Left out

* Property lists: key paths and lookups of single values, 128-bit integers on the writing side (the reader keeps their low
  half), 2^32 objects or more, writing without a stream and into a fixed byte buffer, mutable decoding, error objects.
  Dictionaries are ordered lists of keys and values, the order in which the writer enumerates them; equal keys after
  decoding are not merged, and sets are lists. Real numbers and dates are opaque bytes.
- PlistWriter.AppendObject: without 128-bit integers, which the code writes in 16 bytes.
- PlistReader.TryParse: reads immutable property lists only; strings are sequences of UTF-16 units.
- PlistRoundTrip.RoundTrip: files below 2^63 bytes, the largest length the reader can be given.
* Allocation is taken to succeed everywhere; garbage collection, write barriers, allocation names, probes, descriptions,
  Objective-C dispatch and pointer authentication are not modelled.
- ArrayDeque.MutableArray.SetCapacity: does not shrink; the code copies the whole old store into one that may be smaller.
* CFArray: sorting by CFQSortArray, which is not part of this model, immutable arrays, and equality.
* Block runtime: copy helpers of C++ and ARC captures, weak variables, and layout strings. Block operations above the
  counts are sequential: interleavings are only modelled for one count. Null arguments, on which every operation returns
  at once, are left out.
- BlockRuntime.Runtime.Copy: no copy while some block is being deallocated, which is outside the callers' balance.
- BlockRuntime.Runtime.ObjectAssign: without the kinds of `__block` keep helpers, which only copy the pointer.
- BlockRuntime.Runtime.ObjectDispose: without the kinds of `__block` destroy helpers, for which it does nothing.
- BlockRuntime.Runtime.ByrefCopy: the value is copied; the keep helper, which for these kinds does the same, is not called.
- BlockRuntime.Runtime.ByrefRelease: the destroy helper, which for these kinds releases nothing, is not called.
* CFBasicHash: the hash cache, indirect keys, enumeration, equality of tables, and the `mutations` counter. The bucket
  stores are sequences reassigned word by word, so sharing of a store between tables is not captured. That the numbers of
  buckets beyond 251 are primes with the roots listed is what the comments at `CFBasicHash.c:222, 261` say; it is not proved.
- BasicHash.HashTable.AddIntValueAndInc: tables with a key store; in one without, the integers would be the keys.
- BasicHash.HashTable.RemoveIntValueAndDec: the integer belongs to one entry; with none the code indexes outside its stores.
* Converters: flags other than the default ones (lossy, lenient, decomposing, HFS+), the five- and six-byte forms, which no
  UTF-16 text calls for, and the 8-bit encodings.
- Utf8Converter.ToUtf8Core: takes characters, the only codes the encoder hands it with default flags.
* CFBigNumber: the 8-, 16- and 32-bit conversions and number objects. Texts with other characters than a sign and digits.
- BigNumberText.FromCString: signs and digits only; of a text of more digits than a long holds, the largest long is read.
* CFBinaryHeap: equality, which inverts the comparison result, and searching. CFBitVector: equality, which also looks at bits
  past the count, creation from bytes, `CFBitVectorGetBits`, whose skip flag is never cleared, and searching for a bit.
