# Verified model of the bcachefs btree and allocator core

This project models, in Dafny, the parts of bcachefs and its tools whose correctness is
hardest to see from the code, and proves what those parts are for.

* **Packed keys** (`Bits`, `Bkey`, `BkeyPack`, `BkeyCmp`, `BkeyLossy`, `BkeyFormat`). Six-field keys
  are packed into the bit format of a btree node, compared as raw words, and rounded down
  when a search position does not fit. Packing and unpacking are inverse to each other on
  every key and every word pattern, the order of packed words is the order of positions, and a
  position that does not fit is packed as the greatest representable one below it.
* **Sorted sets inside a node** (`Bset`, `Eytzinger`, `Bfloat`, `RoAuxTree`, `RwAuxTree`, `NodeIter`,
  `NodeLookup`, `KeySort`). The implicit search tree with 16-bit truncated keys, the lookup
  table of the set being written, and the merge iterator all agree with a plain scan from the
  first key. Merging sets of different age keeps what they mean together.
* **Life of a bucket** (`BucketJournal`, `BucketGens`, `BucketIndex`). Over every sequence of commits,
  flushes and crashes, a bucket that may be written again has no pointers to earlier contents in
  any state that could come back. Generations stay close enough for 8-bit comparison. The
  freespace, need_discard and bucket_gens btrees and the per-type counters are what a
  recomputation from the alloc keys gives.
* **Foreground allocator** (`OpenBuckets`, `AllocRequest`, `WritePoints`). Free list and hash chains
  partition the open-bucket slots; a write gets enough replicas on distinct devices. Over every
  sequence of steps each open bucket has one owner at most, its pin counts the owner and the
  references of writes, it is closed when the pin reaches zero, and no sector is given out twice.
* **Topology repair** (`Topology`). Repairing overlapping or gapped children ends, with every
  interior node tiled by its children or dropped, and leaves a correct tree alone.
* **qcow2 images** (`Ranges`, `Qcow2`). Reading any block through the written tables gives the source
  block exactly when a range reaches into it, and no two writes of the run overlap.

Machine integers: 64-bit words are numbers below 2^64, shifts and masks are defined bit by bit in
`Bits`, and wrap-around is written out where the code has it. Code that changes objects in
place is modelled by classes with methods; code that only computes, by functions.

Where code and expectation part:

* `__build_ro_aux_tree` retries with a smaller tree when the keys run out, but does not go back to the
  first key, so the retry always ends without a tree and lookups scan. `RoAuxTree.Tree.PlaceKeys` says
  exactly when that happens, and `RoAuxTree.LongLastKey` gives a set that gets no tree although a
  smaller one would have had its keys.
* `make_bfloat` stores a bit position of up to 304 in a byte. It always fits for keys of up to four words,
  and for keys of five words exactly when the neighbours agree in their top 49 position bits
  (`Bfloat.ShiftFits`). Otherwise the node holds a piece of its key from below the position. No lookup
  goes wrong there: the search key holds only its size below the position, so every search turns left
  (`Bfloat.LowFloatTurnsLeft`) and `RoAuxTree.Tree.Search` still returns a key that the scan reaches. The
  price is a longer scan. `Bfloat.FarApartInodes` gives such a node.
* When the position looked up lies below everything a node's format can represent,
  `bch2_btree_node_iter_init` walks from the start and peeks past deleted keys. It then also skips
  deleted keys at or after the position that precede the first live one.
  `NodeLookup.FallbackSkipsDeleted` gives such a node, and `NodeLookup.FallbackComplete` says exactly
  when nothing is left out.
* A child of which only the last position is not covered by the one before it is dropped by
  `btree_check_node_boundaries` instead of being cut to that position. The gap this leaves is repaired
  like any other, but a node right above the leaves that has no other readable child is dropped itself:
  `Topology.LastPositionDropped` gives one, and `Topology.Repair.RepairNode` says exactly when.

## Model

| member | source | states |
|---|---|---|
| `Bkey.FormatInvalid` | libbcachefs/bkey.c:641-682 | a format is rejected exactly when some field could decode to more than the unpacked field holds, or its size is wrong |
| `Bkey.FieldOverflowsExact` | libbcachefs/bkey.h:580-600 | the masked comparison is exactly "some stored value would not fit the unpacked field" |
| `Bkey.StreamDecode` | libbcachefs/bkey.c:157-178 | fields written one after the other are read back from their bit positions |
| `Bkey.LowBitsRange` | libbcachefs/bkey.c:641-682 | a valid format leaves room for the 24 header bits and wastes less than one word |
| `BkeyPack.UnpackState.constructor` | libbcachefs/bkey.c:137-155 | reading starts at the top word with nothing consumed |
| `BkeyPack.UnpackState.GetIncField` | libbcachefs/bkey.c:157-178 | the next field, also across a word boundary, plus its offset modulo 2^64; the rest stays unread |
| `BkeyPack.PackState.constructor` | libbcachefs/bkey.c:104-124 | writing starts at the top word with nothing written |
| `BkeyPack.PackState.SetField` | libbcachefs/bkey.c:180-200 | appends a value to what is written, spilling into the next word down |
| `BkeyPack.PackState.SetIncField` | libbcachefs/bkey.c:202-217 | fails exactly when the field cannot represent the value, and otherwise appends it |
| `BkeyPack.PackState.Finish` | libbcachefs/bkey.c:126-135 | stores the last partial word |
| `BkeyPack.PackKey` | libbcachefs/bkey.c:317-340 | succeeds exactly when every field fits; the words then are the encoding of the key and nothing beyond them changes |
| `BkeyPack.UnpackKey` | libbcachefs/bkey.c:266-289 | returns what the words decode to, header included |
| `BkeyPack.UnpackPos` | libbcachefs/bkey.c:291-306 | returns the position the words decode to |
| `BkeyPack.TransformKey` | libbcachefs/bkey.c:225-250 | re-encoding in another format succeeds exactly when every decoded field fits, and preserves the decoded key |
| `BkeyPack.Transform` | libbcachefs/bkey.c:252-264 | re-encoding carries key and value over; the size in the header is adjusted |
| `BkeyPack.RoundTrip` | libbcachefs/bkey.c:266-340 | decoding an encoded key returns the key |
| `BkeyPack.Repack` | libbcachefs/bkey.c:266-340 | encoding a decoded key returns the same words, for canonical words |
| `BkeyPack.DecodedFits` | libbcachefs/bkey.c:157-178 | whatever words decode to can be packed again |
| `BkeyCmp.OrderEmbedding` | libbcachefs/bkey_cmp.h:52-106 | comparing the position bits as numbers gives the order of the positions, for every pair of word patterns |
| `BkeyCmp.CmpBits` | libbcachefs/bkey_cmp.h:52-86 | the word-by-word loop compares the top bits of the two numbers |
| `BkeyCmp.CmpPacked` | libbcachefs/bkey_cmp.h:88-106 | raw comparison of packed keys equals comparison of inode, offset, snapshot |
| `BkeyCmp.GreatestDifferingBit` | libbcachefs/bkey.c:702-739 | the index of the highest bit where two keys differ, or 0 if none |
| `BkeyLossy.BorrowSnapshotExact` | libbcachefs/bkey.c:489-496 | stepping below a snapshot that is too small keeps the representable positions at or below |
| `BkeyLossy.BorrowOffsetExact` | libbcachefs/bkey.c:498-505 | the same for the offset |
| `BkeyLossy.InodeTooSmall` | libbcachefs/bkey.c:507-509 | below the inode offset nothing is representable |
| `BkeyLossy.ClampIsFloor` | libbcachefs/bkey.c:383-399 | clamping a field to its maximum, and then all later ones, gives the greatest representable position below |
| `BkeyLossy.SetFieldLossy` | libbcachefs/bkey.c:383-399 | appends the value, or the largest the field can hold; tells which |
| `BkeyLossy.PackPosLossy` | libbcachefs/bkey.c:468-544 | FAIL exactly when nothing representable is at or below the position, EXACT exactly when it is representable, and otherwise the packed key is the greatest representable position below it; below its position the packed key holds its size and nothing else |
| `BkeyFormat.FormatFieldCovers` | libbcachefs/bkey.c:574-586 | a field chosen for a range is valid and represents every value of it |
| `BkeyFormat.FormatState.constructor` | libbcachefs/bkey.c:546-558 | a state without keys: every range is empty, except that a size of 0 is always included |
| `BkeyFormat.FormatState.Add` | libbcachefs/bkey.h:561-565 | the range of a field grows to include a value, and no more |
| `BkeyFormat.FormatState.AddFields` | libbcachefs/bkey.h:567-577 | all fields of a key or position are included, and the ranges grow no further |
| `BkeyFormat.FormatState.ChooseFields` | libbcachefs/bkey.c:595-603 | the first loop gives valid fields that cover all ranges |
| `BkeyFormat.RoundToBytes` | libbcachefs/bkey.c:615-628 | spending spare bits on whole bytes keeps the format valid and covering |
| `BkeyFormat.FormatState.Done` | libbcachefs/bkey.c:588-639 | the finished format is valid and covers all ranges |
| `BkeyFormat.BuildFormat` | libbcachefs/bkey.c:546-639 | every key and position added packs in the finished format |
| `Eytzinger.InorderInverse` | libbcachefs/eytzinger.h:93-164 | position in tree and rank in order are inverse to each other |
| `Eytzinger.InorderInjective` | libbcachefs/eytzinger.h:100-164 | distinct nodes have distinct ranks |
| `Eytzinger.FirstIsFirst` | libbcachefs/eytzinger.h:50-53 | the first node has rank 1 |
| `Eytzinger.NextIsNext` | libbcachefs/eytzinger.h:60-74 | the next node has the next rank, and 0 ends the walk after the last |
| `Eytzinger.LeftAncestor` | libbcachefs/eytzinger.h:100-164 | the node to the left of a subtree precedes it in order |
| `Eytzinger.RightAncestor` | libbcachefs/eytzinger.h:100-164 | the node to the right of a subtree follows it in order |
| `Eytzinger.PrevWithoutLeftChild` | libbcachefs/eytzinger.h:76-91 | the predecessor of a node without left child is the ancestor it hangs right of |
| `Bset.OffInjective` | libbcachefs/bset.c:394-456 | offsets of keys are in the order of the keys |
| `Bset.BeforeDown` | libbcachefs/bset.c:1179-1207 | in a sorted set whatever precedes a skipped key is skipped |
| `Bset.ScanStopUnique` | libbcachefs/bset.c:1179-1207 | a scan from the first key stops in one place |
| `Bset.CmpPOrUnp` | libbcachefs/bset.h:280-294 | compares with the packed search key if the key is packed and with the position itself otherwise |
| `Bset.CmpLeftPacked` | libbcachefs/bkey.c:1040-1049 | compares a key's position with an unpacked one |
| `Bset.SearchLinear` | libbcachefs/bset.c:1179-1207 | from any skipped prefix it stops where a scan from the first key stops, also with a rounded search key |
| `Bfloat.MantissaDecides` | libbcachefs/bset.c:564-657 | between its neighbours, a key's 16-bit mantissa against the search key's decides the comparison; equality is inconclusive only if bits were dropped |
| `Bfloat.MakeBfloat` | libbcachefs/bset.c:587-657 | the exponent and mantissa stored for a tree node have that property, or the node is marked as failed, exactly when the exponent fits its byte; otherwise the mantissa is 16 bits of the key from below its position |
| `Bfloat.ShiftFits` | libbcachefs/bset.c:625-646 | which neighbours make the exponent fit: all of them up to four words, and with five those that agree in the top 49 position bits |
| `Bfloat.LowFloatTurnsLeft` | libbcachefs/bset.c:1107-1118 | a node whose exponent does not fit sends every search to the left |
| `Bfloat.FarApartInodes` | libbcachefs/bset.c:640-657 | neighbours between which no exponent fits, so that a node there turns left |
| `RoAuxTree.KeyOffsetFits` | libbcachefs/bset.c:433-456 | the first key of a cacheline has an offset that fits its 8-bit field |
| `RoAuxTree.PackBound` | libbcachefs/bset.c:730-738 | the node's bounds are packed exactly or kept as positions |
| `RoAuxTree.Tree.constructor` | libbcachefs/bset.c:763-782 | a set without a tree |
| `RoAuxTree.Tree.PlaceKeys` | libbcachefs/bset.c:702-728 | every tree node gets the first key of its cacheline, in order; there is a tree exactly when the last key starts in the last cacheline needed for the size first tried, or later, and it has that size |
| `RoAuxTree.LongLastKey` | libbcachefs/bset.c:705-721 | a set that gets no tree although one of a single node would have had its key |
| `RoAuxTree.Tree.TreeToKey` | libbcachefs/bset.c:459-466 | the key a tree node stands for |
| `RoAuxTree.Tree.ComputeNode` | libbcachefs/bset.c:587-657 | the stored float is right for the node's key between its neighbours in the tree exactly when its exponent fits, and otherwise one that turns left |
| `RoAuxTree.Tree.MakeNodes` | libbcachefs/bset.c:740-745 | all nodes get a float, right exactly when its exponent fits and otherwise turning left |
| `RoAuxTree.Tree.Build` | libbcachefs/bset.c:696-745 | when there is a tree, and that a search can use it, for every valid format; which of its nodes decide and which turn left |
| `RoAuxTree.Tree.RangeFits` | libbcachefs/bset.c:587-646 | every exponent fits if one for the bounds of the whole set would |
| `RoAuxTree.Tree.FastDecides` | libbcachefs/bset.c:1107-1118 | a conclusive truncated comparison gives the true side |
| `RoAuxTree.Tree.SlowDecides` | libbcachefs/bset.c:1119-1125 | the full comparison gives the true side or the key itself |
| `RoAuxTree.Tree.LowDecides` | libbcachefs/bset.c:1107-1118 | turning left at a node whose exponent does not fit: the lookup stops on the left, or everything below is skipped by it |
| `RoAuxTree.Tree.GoneDown` | libbcachefs/bset.c:1107-1126 | once everything below is skipped by the lookup, any turn will do |
| `RoAuxTree.Tree.Decide` | libbcachefs/bset.c:1107-1125 | one step of the descent goes to the side where the lookup stops, or stays among keys that it skips |
| `RoAuxTree.Tree.Descend` | libbcachefs/bset.c:1107-1126 | going down keeps everything left of the path skipped and everything right of it not |
| `RoAuxTree.Tree.Search` | libbcachefs/bset.c:1092-1143 | all keys before the one returned are skipped by the scan, for every valid format, every position within the node and also with a rounded search key |
| `RwAuxTree.Bsearch` | libbcachefs/bset.c:534-562 | the first table entry at or after an offset, from any interpolation guess |
| `RwAuxTree.InsertEntry` | libbcachefs/bset.c:888-918 | a long gap gets an entry on a key boundary; the table stays right |
| `RwAuxTree.BuildTable` | libbcachefs/bset.c:677-694 | a right table for any sorted set |
| `RwAuxTree.EntryMoves` | libbcachefs/bset.c:954-966 | an entry past the change is right again once moved by the size difference |
| `RwAuxTree.ShiftEntries` | libbcachefs/bset.c:954-972 | dropping a duplicate, moving the rest and filling a gap gives a right table |
| `RwAuxTree.FixLookupTable` | libbcachefs/bset.c:920-977 | after any splice of keys the table is right for the new keys |
| `RwAuxTree.PackForInsert` | libbcachefs/bset.c:986-992 | the key is packed exactly if it fits, and in any case all fields, the type and the value stay the same |
| `RwAuxTree.SameSizeTable` | libbcachefs/bset.c:1009-1015 | overwriting a key by one of the same size and position needs no change of the table |
| `RwAuxTree.WriteSet.constructor` | libbcachefs/bset.c:763-782 | the set being written starts with a right table |
| `RwAuxTree.WriteSet.Insert` | libbcachefs/bset.c:979-1018 | inserting or overwriting splices the one key, keeps the set sorted and the table right |
| `RwAuxTree.WriteSet.Delete` | libbcachefs/bset.c:1020-1037 | deleting removes the one key and keeps the table right |
| `RwAuxTree.WriteSet.SearchTable` | libbcachefs/bset.c:1042-1058 | every key up to the one returned is skipped by a scan for the position |
| `NodeIter.LessTotal` | libbcachefs/bset.h:368-375 | the iterator's comparison is a strict total order |
| `NodeIter.LessTransitive` | libbcachefs/bset.h:368-375 | and transitive |
| `NodeIter.LessWithinSet` | libbcachefs/bset.h:368-375 | and the order of each set |
| `NodeIter.CmpKeys` | libbcachefs/bkey_cmp.h:109-127 | compares the positions of two keys, packed or not |
| `NodeIter.IterCmp` | libbcachefs/bset.h:368-375 | position, then deleted first, then address |
| `NodeIter.SortTwo` | libbcachefs/bset.c:1371-1382 | two neighbouring slots are put in order and nothing else changes |
| `NodeIter.Iter.Sort` | libbcachefs/bset.c:1384-1396 | the slots in order, the same ones |
| `NodeIter.Iter.Advance` | libbcachefs/bset.c:1408-1433 | the first slot moves on by one key, the others stay, the order holds |
| `NodeIter.AdvanceRemovesFirst` | libbcachefs/bset.c:1408-1433 | exactly the first key ahead is behind afterwards |
| `NodeIter.AdvanceKeepsCut` | libbcachefs/bset.c:1408-1433 | everything behind still sorts before everything ahead |
| `NodeIter.Iter.VisitAll` | libbcachefs/bset.h:419-440 | advancing to the end yields every key ahead, once, in iterator order |
| `NodeIter.BsetPos` | libbcachefs/bset.c:1358-1369 | where the iterator stands in a set |
| `NodeIter.FindPrev` | libbcachefs/bset.c:1459-1470 | the greatest key behind, if there is one |
| `NodeIter.MoveToFront` | libbcachefs/bset.c:1477-1490 | its slot comes first, the other slots keep their order |
| `NodeIter.Iter.PrevAll` | libbcachefs/bset.c:1449-1495 | steps back by exactly one key, or not at all at the start |
| `NodeIter.BackUndoesAdvance` | libbcachefs/bset.c:1408-1495 | stepping back after advancing returns the same key and the same iterator |
| `NodeIter.AdvanceUndoesBack` | libbcachefs/bset.c:1408-1495 | advancing after stepping back returns the same iterator |
| `NodeIter.BackKeepsIter` | libbcachefs/bset.c:1449-1495 | stepping back keeps an iterator with one more key ahead |
| `NodeLookup.SearchSet` | libbcachefs/bset.c:1146-1207 | with any index or none, the search of a set stops where a scan does |
| `NodeLookup.SearchIsCut` | libbcachefs/bset.c:1299-1344 | keys a lookup skips sort before those it does not |
| `NodeLookup.FoundIsIter` | libbcachefs/bset.c:1320-1344 | the slots found, once sorted, stand before exactly the keys at or after the position |
| `NodeLookup.InitFromStart` | libbcachefs/bset.c:1346-1356 | everything is ahead |
| `NodeLookup.PeekLive` | libbcachefs/bset.h:411-417 | passes over deleted keys only |
| `NodeLookup.InitPackFailed` | libbcachefs/bset.c:1240-1252 | ahead are the keys at or after the position from the first live one on |
| `NodeLookup.SearchSets` | libbcachefs/bset.c:1320-1340 | one slot for each set that has something left |
| `NodeLookup.InitAt` | libbcachefs/bset.c:1299-1344 | for every format: ahead are exactly the keys at or after the position; only if the position cannot be rounded down are deleted keys before the first live one left out |
| `NodeLookup.FallbackComplete` | libbcachefs/bset.c:1240-1252 | the fallback leaves nothing out exactly when the first key at or after the position is live |
| `NodeLookup.FallbackSkipsDeleted` | libbcachefs/bset.c:1240-1252 | a node where it leaves a key out |
| `KeySort.Compare` | libbcachefs/bkey_sort.c:70-81 | the three comparison functions |
| `KeySort.Sift` | libbcachefs/bkey_sort.c:18-29 | the rest in order, the same slots |
| `KeySort.SortAll` | libbcachefs/bkey_sort.c:31-37 | all slots in order, the same ones |
| `KeySort.Start` | libbcachefs/bkey_sort.h:35-47 | a slot for each nonempty set; everything is ahead |
| `KeySort.Advance` | libbcachefs/bkey_sort.c:44-58 | exactly the first key is used up; nothing used up sorts after anything left |
| `KeySort.SortIter.constructor` | libbcachefs/bkey_sort.h:15-47 | an iterator over all sets |
| `KeySort.SortIter.Next` | libbcachefs/bkey_sort.c:60-69 | returns the first key and advances |
| `KeySort.SortIter.ShouldDrop` | libbcachefs/bkey_sort.c:83-95 | true exactly when the next two slots have the same position |
| `KeySort.DropUnlessNewest` | libbcachefs/bkey_sort.c:83-95 | that test finds out whether a live key is the newest entry at its position |
| `KeySort.FixOverlapping` | libbcachefs/bkey_sort.c:97-119 | the output is strictly increasing, holds exactly the newest entries that are live, and means at every position what the sets meant |
| `KeySort.MergeKeepsMeaning` | libbcachefs/bkey_sort.c:97-119 | looking up any position in the output gives what looking it up in the sets, newest first, gives |
| `KeySort.MeaningIs` | libbcachefs/bkey_sort.c:83-119 | a reader sees the newest entry at a position, or nothing if that is deleted |
| `KeySort.NextUnlessLast` | libbcachefs/bkey_sort.c:181-184 | the next entry tells whether a key is the last at its position |
| `KeySort.KeepUnwrittenWhiteouts` | libbcachefs/bkey_sort.c:157-192 | the output is strictly increasing and holds exactly the last entry at each position, unless that is a whiteout already written |
| `KeySort.WhiteoutPolicy` | libbcachefs/bkey_sort.c:157-192 | a live key wins over whiteouts; without one an unwritten whiteout is kept if there is any; a kept whiteout has no live key beside it |
| `KeySort.SortKeys` | libbcachefs/bkey_sort.c:194-214 | exactly the live keys, each once, in position order |
| `BucketJournal.Filesystem.constructor` | libbcachefs/alloc_background.c:931-981 | all buckets empty, nothing waiting |
| `BucketJournal.Filesystem.MayReuse` | libbcachefs/alloc_foreground.c:182-207 | answers true exactly for a closed bucket that waits for no flush; an empty bucket that passes is empty in every state recovery could still return |
| `BucketJournal.Filesystem.OpenEntry` | libbcachefs/journal.c:455-470 | a new entry becomes recoverable; nothing else changes |
| `BucketJournal.Filesystem.RequestFlush` | libbcachefs/journal.c:872-883 | an entry promised to stay unflushed is not marked |
| `BucketJournal.Filesystem.PickFlush` | libbcachefs/journal_io.c:1986-2027 | the write of an entry is a flush or never one; after an error never one, and nothing is written before the first flush |
| `BucketJournal.Filesystem.WriteDone` | libbcachefs/journal_io.c:1667-1681 | entries complete in order; the flushed mark never goes back |
| `BucketJournal.Filesystem.NoflushSeq` | libbcachefs/journal.c:935-967 | succeeds exactly when the feature is there and nothing of the range is or must be flushed, and then no entry of the range can come back |
| `BucketJournal.Filesystem.Commit` | libbcachefs/alloc_background.c:931-981 | the recorded sequence numbers and the waiting entry, in all cases; every bucket stays covered |
| `BucketJournal.Filesystem.Emptied` | libbcachefs/alloc_background.c:963-981 | the branch for a bucket that becomes empty: forgotten, or waiting for this entry |
| `BucketJournal.BecomesEmpty` | libbcachefs/alloc_background.c:956-981 | either way every recoverable state with data is waited for |
| `BucketJournal.StaysCovered` | libbcachefs/alloc_background.c:941-954 | filling a bucket keeps earlier data waited for and later data recorded |
| `BucketJournal.Filesystem.Evict` | libbcachefs/buckets_waiting_for_journal.c:46-79 | dropping a bucket whose entry is flushed changes no answer |
| `BucketJournal.Filesystem.CrashAndRecover` | libbcachefs/alloc_background.c:931-981 | the state after the entry recovered to, with an empty waiting table, is as safe as before |
| `BucketJournal.ReplayedIsAt` | libbcachefs/alloc_background.c:931-981 | recovery returns exactly the state after an entry |
| `BucketJournal.Filesystem.Step` | libbcachefs/alloc_background.c:931-981 | every step keeps the invariant |
| `BucketJournal.Filesystem.Run` | libbcachefs/alloc_background.c:1839-1850 | over every sequence of commits, flushes, evictions and crashes, a bucket that is empty and may be reused or discarded is empty in every recoverable state |
| `BucketJournal.CheckMatters` | libbcachefs/alloc_background.c:1839-1850 | an empty bucket that still waits can have data in a recoverable state |
| `BucketGens.WrapAround` | libbcachefs/buckets.h:136-144 | 8-bit wrap-around comparison is the true distance up to 127 |
| `BucketGens.ComparisonsSound` | libbcachefs/alloc_background.h:33-36 | in every reachable state the code's 8-bit comparisons are the distances of unbounded counters |
| `BucketGens.FreeHasRoom` | libbcachefs/alloc_background.h:128-142 | only a bucket less than 96 generations ahead is free |
| `BucketGens.TriggerKeeps` | libbcachefs/alloc_background.c:859-881 | raising the generation leaves room and outdates no pointer |
| `BucketGens.AdmissibleOk` | libbcachefs/buckets.c:431-476 | pointers that are fresh or copied lie between oldest and current generation |
| `BucketGens.NormalizedKeeps` | libbcachefs/extents.c:1187-1199 | normalizing drops no current pointer and leaves no stale one |
| `BucketGens.AnyTooStale` | libbcachefs/btree_gc.c:1102-1112 | true exactly if some pointer is more than 16 behind |
| `BucketGens.NoteOldest` | libbcachefs/btree_gc.c:1114-1122 | the noted generations are at most those of the pointers, and no lower than needed |
| `BucketGens.GcKey` | libbcachefs/btree_gc.c:1090-1135 | one extent is normalized, or its pointers are noted |
| `BucketGens.GcKeys` | libbcachefs/btree_gc.c:1176-1208 | after the walk the noted generations are right for all extents |
| `BucketGens.Generations.OpenBucket` | libbcachefs/alloc_foreground.c:337-350 | only a free bucket is opened |
| `BucketGens.Generations.CloseBucket` | libbcachefs/alloc_foreground.c:100-126 | closing changes nothing else |
| `BucketGens.Generations.SetExtent` | libbcachefs/alloc_background.c:859-881 | an update of an extent with the trigger on all buckets it touches keeps the bounds |
| `BucketGens.Generations.Discard` | libbcachefs/alloc_background.c:1884-1890 | clearing the discard flag runs the trigger and keeps the bounds |
| `BucketGens.Generations.GcGens` | libbcachefs/btree_gc.c:1137-1228 | afterwards each generation is at most 17 ahead of the oldest, which is no older than some pointer needs; only stale cached pointers are dropped |
| `BucketGens.Generations.Run` | libbcachefs/alloc_background.h:12-36 | over every sequence of steps generation minus oldest is at most 96, pointers lie between, and 8-bit comparison is exact |
| `BucketIndex.FreespaceBucket` | libbcachefs/alloc_background.h:186-195 | a freespace position tells its bucket |
| `BucketIndex.TriggeredIs` | libbcachefs/alloc_background.c:859-881 | the recorded type is the one the other fields call for; generation, oldest generation and flags change exactly when due |
| `BucketIndex.TriggerOnCounters` | libbcachefs/alloc_background.c:859-881 | the trigger on 8-bit generations is the trigger on unbounded counters, seen through 8 bits |
| `BucketIndex.Device.constructor` | libbcachefs/alloc_background.c:2294-2392 | a device without alloc keys: all buckets free, counted and indexed as such |
| `BucketIndex.Device.DoIndex` | libbcachefs/alloc_background.c:698-739 | sets or clears the one index entry of a free or need_discard bucket |
| `BucketIndex.Device.Reindex` | libbcachefs/alloc_background.c:883-891 | the two indexes follow the changed alloc key |
| `BucketIndex.Device.GenUpdate` | libbcachefs/alloc_background.c:741-773 | records one generation and no other |
| `BucketIndex.Device.AccountingMod` | libbcachefs/alloc_background.c:775-787 | changes the counters of one type |
| `BucketIndex.Device.TypeCounters` | libbcachefs/alloc_background.c:789-813 | counters of the bucket's own type change by the difference of its shares |
| `BucketIndex.Device.UnstripedCounters` | libbcachefs/alloc_background.c:815-826 | so do those of unstriped sectors |
| `BucketIndex.Device.KeyToCounters` | libbcachefs/alloc_background.c:789-828 | so do all counters |
| `BucketIndex.ShareReplaced` | libbcachefs/alloc_background.c:789-828 | replacing one alloc key changes the recomputed totals by that difference |
| `BucketIndex.Device.Trigger` | libbcachefs/alloc_background.c:830-929 | indexes, generations and counters are what recomputation gives, before and after; a bucket the device does not have is refused |
| `BucketIndex.Device.Run` | libbcachefs/alloc_background.c:830-929 | the same after any sequence of updates |
| `BucketIndex.FreespaceInit` | libbcachefs/alloc_background.c:2294-2392 | the indexes built from keys and holes are what recomputation gives |
| `OpenBuckets.Table.constructor` | libbcachefs/alloc_foreground.c:1412-1430 | all slots but the null one are free |
| `OpenBuckets.LinkAll` | libbcachefs/alloc_foreground.c:1421-1430 | the links spell out a list of all slots |
| `OpenBuckets.Table.BucketIsOpen` | libbcachefs/alloc_foreground.h:192-206 | true exactly when some slot holds the bucket |
| `OpenBuckets.Table.TryAlloc` | libbcachefs/alloc_foreground.c:209-260 | when a slot is given, when the bucket is skipped and when slots run out; lists, counts and uniqueness are kept |
| `OpenBuckets.Table.OpenFirst` | libbcachefs/alloc_foreground.c:139-153 | the first free slot moves to the chain of its bucket |
| `OpenBuckets.Table.Get` | libbcachefs/alloc_foreground.h:169-182 | one more reference |
| `OpenBuckets.Table.Take` | libbcachefs/alloc_foreground.h:264-265 | an open bucket has fewer free sectors, and nothing else changes |
| `OpenBuckets.Table.Put` | libbcachefs/alloc_foreground.h:136-140 | one reference less; the last one closes the bucket and only that |
| `OpenBuckets.Table.Close` | libbcachefs/alloc_foreground.c:100-126 | the slot leaves its chain and becomes free; counts follow |
| `OpenBuckets.Table.FindPrev` | libbcachefs/alloc_foreground.c:87-98 | the walk finds the link that leads to the slot |
| `OpenBuckets.ChainPush` | libbcachefs/alloc_foreground.c:78-85 | adding in front keeps all chains linked and every slot in its chain |
| `OpenBuckets.ChainRemove` | libbcachefs/alloc_foreground.c:87-98 | removing from anywhere keeps all chains linked |
| `AllocRequest.Request.constructor` | libbcachefs/alloc_foreground.c:1253-1285 | nothing chosen; metadata counts as having its cache device |
| `AllocRequest.Request.AddNewBucket` | libbcachefs/alloc_foreground.c:686-706 | the choice stays on distinct devices with at most one without durability; tells when it is enough |
| `AllocRequest.Request.FromWritePoint` | libbcachefs/alloc_foreground.c:825-843 | buckets move from the write point to the choice, none lost; none that is wanted stays behind unless there is enough |
| `AllocRequest.Request.FromPartial` | libbcachefs/alloc_foreground.c:845-887 | buckets move from the partial list to the choice, none lost; none that is wanted stays behind unless there is enough |
| `AllocRequest.TableDistinct` | libbcachefs/alloc_foreground.c:236-241 | no two open slots hold the same bucket, because the table does not open one twice |
| `AllocRequest.Request.TryBucket` | libbcachefs/alloc_foreground.c:262-281 | a bucket is opened unless it is open already, not fit for use, or slots have run out |
| `AllocRequest.Request.AllocBucket` | libbcachefs/alloc_foreground.c:378-585 | opens the first bucket of the walk that is fit, with one reference, and says why it opens none |
| `AllocRequest.Request.FromDevices` | libbcachefs/alloc_foreground.c:708-749 | succeeds exactly when there are enough replicas; each bucket opened is in the choice; reports too few devices only when all were used but those without durability |
| `AllocRequest.Request.AddBuckets` | libbcachefs/alloc_foreground.c:889-935 | the three sources in turn, with the blocking retry |
| `AllocRequest.Request.Trim` | libbcachefs/alloc_foreground.c:1209-1231 | what is given up is not needed, and nothing kept could be given up as well |
| `AllocRequest.Request.Attempt` | libbcachefs/alloc_foreground.c:1287-1314 | target first, then all devices without further cache devices |
| `AllocRequest.Request.Commit` | libbcachefs/alloc_foreground.c:1331-1335 | the choice becomes the write point's list, the rest becomes partial |
| `AllocRequest.Request.Abandon` | libbcachefs/alloc_foreground.c:1347-1353 | on error choice and list are put together, overflow becomes partial |
| `AllocRequest.SectorsFree` | libbcachefs/alloc_foreground.c:1337-1344 | at most what each bucket has, and not zero if each has a block |
| `AllocRequest.Request.Start` | libbcachefs/alloc_foreground.c:1236-1369 | success gives distinct devices outside those had, at most one without durability and none for metadata, durability of all replicas asked for, or of the required ones when every usable device with durability is used; no replica kept could be given up; on success and on error every bucket is in exactly one place |
| `WritePoints.OpenWhileHeld` | libbcachefs/alloc_foreground.h:136-140 | the pin is zero, and the bucket closed, exactly when nobody owns it and no write refers to it |
| `WritePoints.NeverOverlap` | libbcachefs/alloc_foreground.c:1371-1383 | runs of sectors given out from open buckets of a device never overlap |
| `WritePoints.StaysInside` | libbcachefs/alloc_foreground.c:1371-1383 | each run lies in its bucket |
| `WritePoints.OwnersApart` | libbcachefs/alloc_foreground.c:163-180 | no bucket is in two write points or in one and the partial list |
| `WritePoints.Allocator.constructor` | libbcachefs/alloc_foreground.c:1401-1430 | no open buckets |
| `WritePoints.Allocator.Start` | libbcachefs/alloc_foreground.c:1236-1369 | the replicas of a write point; owners gain exactly the newly opened buckets |
| `WritePoints.Allocator.AppendPtrs` | libbcachefs/alloc_foreground.h:242-267 | each bucket gives the sectors right after those it gave before, and the pointers name them |
| `WritePoints.Allocator.GetRefs` | libbcachefs/alloc_foreground.h:169-182 | a write refers to the write point's buckets; each pin goes up by one |
| `WritePoints.Allocator.PutRef` | libbcachefs/alloc_foreground.h:136-140 | the pin goes down by one; that closes the bucket exactly when nobody owns or uses it |
| `WritePoints.Allocator.PutAll` | libbcachefs/alloc_foreground.h:142-151 | the same for a list of buckets |
| `WritePoints.Allocator.Done` | libbcachefs/alloc_foreground.h:153-168 | buckets without room for a block are let go, and closed unless a write refers to them; the others stay |
| `WritePoints.Allocator.Retire` | libbcachefs/alloc_foreground.c:1120-1150 | the buckets of a write point that is given up become partial |
| `WritePoints.Allocator.PartialFits` | libbcachefs/alloc_foreground.c:163-180 | the partial list never outgrows its array |
| `WritePoints.Allocator.Step` | libbcachefs/alloc_foreground.c:1236-1369 | every step keeps the invariant |
| `WritePoints.Allocator.Run` | libbcachefs/alloc_foreground.c:1236-1383 | over every sequence of steps each bucket has one owner at most, is open exactly while held, and no two runs given out overlap |
| `Topology.TilesCover` | libbcachefs/btree_gc.c:218-332 | children that tile a range hold each position of it exactly once |
| `Topology.ScannedNodes` | libbcachefs/btree_node_scan.c:536-602 | the found nodes that reach into the range, cut to it, one for each place where such a node ends |
| `Topology.Repair.CheckBoundaries` | libbcachefs/btree_gc.c:218-292 | which of two overlapping nodes gives way, when a gap is filled from the scan and when by extending a node |
| `Topology.Repair.RepairEnd` | libbcachefs/btree_gc.c:294-332 | the last child reaches the end, or the rest is filled from the scan |
| `Topology.Repair.Visit` | libbcachefs/btree_gc.c:352-455 | one child: what is kept stays ordered and disjoint from the last one |
| `Topology.Repair.Pass` | libbcachefs/btree_gc.c:352-485 | a pass ends with the children tiling the parent or none left, or restarts after pulling from the scan or dropping a child; a correct list is unchanged; a useful child is never lost to "none left", and without one none is left |
| `Topology.Repair.RepairKids` | libbcachefs/btree_gc.c:487-513 | every child is repaired; empty ones are deleted and another pass follows |
| `Topology.Repair.RepairNode` | libbcachefs/btree_gc.c:334-546 | ends; no child is left, or every node on every level is tiled by its children; a node right above the leaves is dropped exactly when it has no readable child that is more than the parent's first position, and on any level a node without one is dropped; a correct tree is unchanged |
| `Topology.LastPositionDropped` | libbcachefs/btree_gc.c:270-290 | a node that is dropped although a readable child holds a position of it |
| `Topology.CheckTopology` | libbcachefs/btree_update_interior.c:48-149 | accepts exactly a node that is tiled by its children |
| `Ranges.RoundedBlock` | c_src/tools-util.c:304-310 | a block is in a rounded range exactly when the range reaches into it |
| `Ranges.RoundupAll` | c_src/tools-util.c:304-310 | every range is rounded outwards to blocks |
| `Ranges.SortByStart` | c_src/tools-util.c:271-284 | the same ranges by start |
| `Ranges.SortMerge` | c_src/tools-util.c:282-302 | ranges in order with gaps between, covering exactly what was covered |
| `Qcow2.Image.constructor` | c_src/qcow2.c:74-88 | nothing is allocated |
| `Qcow2.WriteNew` | c_src/qcow2.c:44-134 | a write to a new place overlaps none before it |
| `Qcow2.Image.Pwrite` | c_src/qcow2.c:44-57 | one block is written and noted |
| `Qcow2.Image.FlushL2` | c_src/qcow2.c:44-57 | writing the pending table changes no answer; nothing is written over |
| `Qcow2.Image.AddL2` | c_src/qcow2.c:59-71 | for ascending blocks, the block is found at its place and no other answer changes |
| `Qcow2.Image.WriteBlock` | c_src/qcow2.c:99-111 | one block copied and entered |
| `Qcow2.IndexInL1` | c_src/qcow2.c:75-77 | the first-level table has an entry for every block of the image |
| `Qcow2.NextBlock` | c_src/qcow2.c:99-103 | the loop meets each block of the merged ranges once, in order |
| `Qcow2.CopyRange` | c_src/qcow2.c:99-111 | the tables answer for exactly the blocks copied so far; nothing is written over |
| `Qcow2.CopyAll` | c_src/qcow2.c:98-113 | the same for all ranges |
| `Qcow2.WriteL1` | c_src/qcow2.c:115-119 | the table goes behind everything written |
| `Qcow2.WriteHeader` | c_src/qcow2.c:121-132 | the header goes to the block kept for it and leads to the table |
| `Qcow2.WriteImage` | c_src/qcow2.c:72-134 | reading any block of the image gives the source block if some range reaches into it and nothing otherwise; each second-level table is written once; no two of the writes go to the same place, and the image is exactly what was written |

## Left out

- Command line, ioctl and sysfs access, mounting, fsck loops, FUSE, encryption, checksums: input and output.
- Locks, RCU, work queues and transaction restarts: each critical section or committed transaction is one step.
- Erasure coding and the LRU and copygc paths of the allocator: stripes only appear in the counters of `BucketIndex`.
- Accounting of key counts in a node (`btree_nr_keys`): plain sums.
- `bch2_bkey_prev_filter`: stepping back in a set is modelled as the key before, not as its search through the table.
- `bch2_sort_repack`: its parts, the iterator and the re-encoding of a key, are modelled separately.
- Big-endian layout, the assembly comparison and the compiled unpack functions: the portable little-endian code is modelled.
- RwAuxTree.WriteSet.Insert: an overwritten key is the one key at that place and has the new key's position.
- BucketJournal.Filesystem.Commit: journal entries hold only alloc keys; data blocks and their order of writing are not modelled.
- BucketJournal.Filesystem.WriteDone: a journal write that fails is not modelled; the filesystem shuts down then.
- BucketJournal.Filesystem.Evict: the hash table of waiting buckets is a map that may forget flushed entries; rehashing is not modelled.
- BucketGens.Generations.GcGens: is one step, as if no update came between its walks; sector counts are represented by the pointers that cause them.
- BucketIndex.Device.Trigger: input times, LRU entries and the cached-sector counter are not modelled; a device has fewer than 2^56 buckets.
- OpenBuckets.Table.TryAlloc: the hash function is any function; waiting lists and the superblock test are parameters.
- AllocRequest.Request.AllocBucket: the walk of a device's free space is given, with the outcome of the journal, nocow and alloc key tests; its cursors and the btree bitmap only shape the walk.
- AllocRequest.Request.Start: lists of open buckets have no capacity except on the error path, and the retry after giving up a write point is left to the caller.
- AllocRequest.Request.FromPartial: does not model the device's free count, which includes the bucket looked at and so is never zero.
- Topology.Repair.RepairNode: positions are numbers; the keys of leaves, and the reconstruction of a root without children, are not modelled.
- Qcow2.WriteImage: the block size is at least 128 bytes so that the header fits; file offsets stay below 2^63; the first-level table has fewer than 2^32 entries and is kept whole at its first block.
