# CHIME: a verified model of the index

CHIME is a B-link tree kept in disaggregated memory. Its leaves are circular hopscotch hash tables, readers take no lock,
writers read only part of a leaf, and compute nodes route with cached internal nodes that may be long out of date. This
project models that index in Dafny and proves what its code relies on without saying so: why a split always makes room,
why a reader that overlaps a hop misses no key, why comparing one sibling pointer validates a stale route, why torn reads
are noticed, and why a vacancy bitmap that shares the lock word is never optimistic.

The model is of the default build: every CHIME option on, `UNORDERED_INTERNAL_NODE` off.

## How the files fit together

- `HopChain`, `HopTable`, `HopInsert`, `HopSplit`, `HopRead`: the hopscotch leaf. `HopChain` is the greedy hop chain with
  slots numbered from the home of the inserted key, so that nothing wraps; `HopTable` has the leaf invariant, with one slot
  counted as the hole of an unfinished insert; the others are insertion, splitting and lock-free reading.
- `Vacancy`, `LeafInsert`, `LeafUpdate`: the vacancy bitmap and maximum index of the lock word, a whole leaf insert under
  them, and the update of a value in place.
- `LockFields`, `LockWord`: the bit-fields of the lock word, the masked compare-and-swap and the lock protocol of any
  number of clients.
- `VersionLayout`, `VersionCodec`, `VersionDecode`, `MetadataScatter`: nodes as bytes with a version byte per 64-byte line
  and the leaf metadata repeated before every group of entries.
- `TornEntries`, `EntryBytes`, `RawRead`, `SearchLayout`, `StraddlingBitmap`: lock-free reads from the bytes up. Which torn
  reads pass the version checks, entries as bytes, what a search may conclude, and exactly the layouts in which it may miss
  a stored key.
- `InternalNode`, `BLink`, `BLinkCover`, `BLinkParents`: sorted internal nodes, the tree as a state machine, the partition of
  the key space, and the place every node has in the level above.
- `BLinkSearch`, `BLinkWriter`, `BLinkInstall`, `BLinkRest`: readers, writers and announcers moving through the tree while
  others change it, and coming to their end when nobody does.
- `InternalRefinement`, `LeafRefinement`, `LeafRuns`: node and leaf operations are steps of the tree; runs of the tree with
  its tables and lock words, and what the whole tree holds.
- `ReadDelegation`, `RangeMerge`, `Allocators`, `KeyArithmetic`: the ticketed read delegation, the interval merge of range
  queries, memory allocation, and byte-string keys. `Arith` and `Basics` hold small facts.

## Modelling decisions

- Keys are natural numbers, 0 being the null key; `KeyArithmetic` proves that the byte strings of the source, their order
  and their `+ 1` are those of numbers. The largest key is excluded, as the ghost key of the first leaf makes it a bound.
- `leafSpanSize`, `neighborSize`, `vacancyMapBit`, `internalSpanSize` and the hash function are arbitrary; the only
  assumption is `1 <= neighborSize <= leafSpanSize`, `1 <= vacancyMapBit <= leafSpanSize` and, for internal splits, at
  least three records.
- A hop bitmap is the set of offsets whose bit is set; the source numbers its bits from the other end.
- `find_bucket` and `get_first` divide doubles; the model divides exactly.
- Insert and split take the key as absent from the leaf. The scan for an existing key (`src/Tree.cpp:546`) only sees the
  entries that were read.
- A reader or a stale cache may look at any internal node image that was ever written. A leaf's bounds are not stored in
  it, and no step of a reader or writer uses them.
- A segment that wraps round the end of the leaf is written as two (`src/Tree.cpp:1077-1115`), each of which is an instance
  of the segment write proved for any range of entries.
- Any announcement one level above the root may put a new root there. In the source only the split of the root itself
  does, so the model has more runs, not fewer.
- The lock word has the field widths of the default configuration: 57 vacancy bits, 6 bits of index, the lock bit.
- The window counters of read delegation are timing only; the step that may drop a hand-over leaves the choice open.
- The retry bound of the emulated compare-and-swap is a parameter; other clients may write anything between its load and
  its swap.

## Findings

- Tickets of read delegation are 8 bits wide. One thread at a time is in its turn, in every run of repeated lookups, exactly
  when at most 256 threads use the slot (`ThreadsSafeIff`); `TwoInTurn` is the run from the start with one thread more.
  State by state, the counter admits exactly one thread as long as at most 256 tickets are outstanding (`OneAdmittedIff`).
- `DSM::alloc` uses the address of its second attempt even when that attempt found no room. With the directory counted as
  owner of the first chunk and of all chunks not handed out, no byte gets two owners exactly when the rest of the chunk, a
  free block or a fresh chunk has room for the request (`AllocExact`); `OversizeOverlaps` is a request of a chunk and one
  byte.
- `LocalAllocator::malloc` gives out a free block whatever its alignment. An address is aligned as asked exactly when it is
  cut from a chunk, or the reused block happens to be aligned (`DsmTakeExact`); `MisalignedReuse` is a run of modest
  requests that ends with a block 8 bytes off. No tree operation gives memory back, so the tree itself does not meet it.
- A segment write bumps the versions of hopped entries only. An entry whose bitmap alone changes keeps its version, and a
  read can tear it. No accepted read tears an entry exactly when all that changed in it lies on one line (`NeverTornIff`).
  Values returned by a search were stored whatever the layout (`ValueStored`). A search can miss a stored key exactly in
  the layouts that `Unsafe` describes (`MissesIff`): a neighbourhood of at least ten slots, smaller than the leaf, and a
  home with a line starting between the two bytes of its bitmap, whose neighbourhood's first slot after the home and last
  slot are read separately or share no line. The default, eight slots, is not among them. `SourceShapeUnsafe` is a layout
  that is: sixteen slots to a neighbourhood and a group, 17 slots, 8-byte keys, 41-byte values.
- When a leaf that is the root splits, and splits again before the root pointer is swapped, the second announcement finds a
  root that is still a leaf, and the assertion of `insert_internal` fires. `SecondSplitTooEarly` is that run. An
  announcement finds a parent exactly when its level is at most that of the root (`ParentExistsIff`), which a writer can see
  in the root entry; the descent from there stops at the assertion exactly when it is not (`InsertInternal`, and
  `AnnouncementLands` while others change the tree).

## Model

| member | source | states |
|---|---|---|
| HopChain.ReachesDown | src/Tree.cpp:600-632 | If a hole can be hopped into the neighbourhood of the home, so can every hole nearer to it. |
| HopChain.HomesDecrease | src/Tree.cpp:610-632 | Because the largest offset is tried first, the homes of two successively hopped keys strictly decrease. |
| HopChain.ReachesPrefix | src/Tree.cpp:610-632 | The chain's choices and its success depend only on the slots before the hole. |
| HopTable.HopStepInv | src/Tree.cpp:627-631 | One hop keeps the leaf invariant with the vacated slot as the new hole, stale copy and all, and keeps the contents. |
| HopTable.PlaceInv | src/Tree.cpp:604-609 | Writing an absent key into a hole within its neighbourhood gives a valid leaf with exactly that entry more. |
| HopInsert.InsertedCorrect | src/Tree.cpp:583-634 | A successful insert of an absent key keeps the leaf valid and stores the old contents plus that entry. |
| HopInsert.InsertedFrame | src/Tree.cpp:600-608 | Nothing changes outside the segment from the key's home to the first empty slot. |
| HopInsert.InsertSlotsCover | src/Tree.cpp:600-608 | Every slot whose key or value changes is among the hopped slots, and all of these lie in the written segment. |
| HopInsert.InsertSlotsDistinct | src/Tree.cpp:600-608 | No slot is listed as hopped twice, so a listed entry is bumped once. |
| HopInsert.WrappedHome | src/Tree.cpp:616-620 | Wrapping h - z into the array and renormalising always gives back h - z. |
| HopInsert.HomeByBitmap | src/Tree.cpp:614-626 | The search through the bitmaps finds the home that hashing the key would give, and finds one exactly when the hole is in that key's reach. |
| HopInsert.FindHop | src/Tree.cpp:610-632 | The hop chosen through bitmaps is the greedy choice on hashed homes, and none is found exactly when there is none. |
| HopInsert.Hop | include/LeafNode.h:57-64 | A hop changes the array as specified; the bit assertions hold on every call. |
| HopInsert.RunHops | src/Tree.cpp:600-633 | The in-place hop loop ends, succeeds exactly when the hole can be hopped home, and then shows the specified leaf and hopped slots. |
| HopInsert.InsertInWindow | src/Tree.cpp:583-634 | On a buffer holding only the entries read, the insert decides and changes exactly what it would on the whole leaf. |
| HopInsert.SegmentInstallsInsert | src/Tree.cpp:1044-1115 | Writing back only the segment from home to empty slot installs the whole insert. |
| HopInsert.InsertLocally | src/Tree.cpp:678-721 | Where there is room, the local insert yields the inserted leaf and the slot of the key; its assertions never fire. |
| HopSplit.SplitMakesRoom | src/Tree.cpp:637-721 | In every leaf where inserting k failed, cutting at the chosen key leaves room for k in the half k belongs to. |
| HopSplit.CriticalPrefix | src/Tree.cpp:646-666 | Slots from which a hole could be hopped home form a prefix of the taken slots. |
| HopSplit.TryHops | src/Tree.cpp:648-665 | The trial hops by hashing succeed exactly when a hole there could be hopped home. |
| HopSplit.GetSplitKey | src/Tree.cpp:637-671 | The result is the median of the critical keys and k; the list of critical keys is never empty. |
| HopSplit.MoveUpper | src/Tree.cpp:739-754 | The halves are the entries below and from the split key, each at its old index, and both are valid leaves. |
| HopSplit.OtherHalfNonEmpty | src/Tree.cpp:667-671 | The half k does not go to keeps a key. |
| HopSplit.TightenedKey | src/Tree.cpp:770-776 | The largest key on the left plus one still separates the halves. |
| HopSplit.MaxKeyIdx | src/Tree.cpp:761-769 | The slot of the largest key. |
| HopSplit.SplitLeaf | src/Tree.cpp:724-776 | The halves are valid and not empty, hold exactly the old entries and (k, v), and the split key is the largest left key plus one. |
| HopRead.NextHomeDecreases | src/Tree.cpp:610-632 | On the leaf itself, successively hopped homes strictly decrease. |
| HopRead.OneMovePerHome | src/Tree.cpp:610-632 | An insert moves at most one key of any home, and none of the inserted key's own home. |
| HopRead.InsertedView | src/Tree.cpp:583-634 | Seen from one home, an insert moves at most one key to a free slot; the key's own home only gains the key. |
| HopRead.NoMissedKey | src/Tree.cpp:1873-1891 | For every entry-wise mix of a leaf before and after one insert: a stored key the mix lacks makes the stored and the recomputed bitmap differ. |
| HopRead.SearchNeighbourhood | src/Tree.cpp:1873-1891 | The scan finds the key exactly when it is in the neighbourhood read, and retries exactly when the bitmaps differ. |
| HopRead.SearchSound | src/Tree.cpp:1873-1891 | A value returned from such a mix was stored, and reported absence means the key was absent before the insert. |
| HopRead.NearSearchSound | src/Tree.cpp:1873-1891 | The same from the slots of the neighbourhood alone, all that a reader reads. |
| Vacancy.BucketPreimage | include/Metadata.h:86-106 | The slot range of a bit is exactly the set of slots mapped to that bit, and is never empty. |
| Vacancy.BucketMonotone | include/Metadata.h:86-90 | The mapping from slots to bits is monotone. |
| Vacancy.VaLock.UpdateVacancy | include/Metadata.h:44-59 | Exactly the bits of the segment are marked, then exactly those of the empty slots cleared. |
| Vacancy.VaLock.ReadEntryNum | include/Metadata.h:61-75 | The window ends with the nearest clear bit that lies ahead of the start, or is the whole leaf when there is none. |
| LeafInsert.WindowHasEmpty | src/Tree.cpp:540-543 | If no clear bit is optimistic, a window ending with a clear bit contains an empty slot. |
| LeafInsert.VacancyKept | include/Metadata.h:44-59 | Updating the bitmap keeps it from being optimistic when every filled slot's bit was marked. |
| LeafInsert.CoveredIff | include/Metadata.h:44-52 | The bits marked for a segment are exactly those of its slots, unless it wraps inside one bit. |
| LeafInsert.CoveredInOneBit | include/Metadata.h:44-52 | A segment that wraps inside one bit marks that bit alone. |
| LeafInsert.InsertFills | src/Tree.cpp:592-608 | An insert fills the first empty slot and no other, and leaves no empty slot in its segment. |
| LeafInsert.MaxAfterInsert | src/Tree.cpp:1018-1028 | The largest key stays the largest, and is in a hopped slot exactly if its old slot was one. |
| LeafInsert.WidenedEnd | src/Tree.cpp:424-432 | A widened window ends just after the first entry of the next group and spans at most a neighbourhood. |
| LeafInsert.WindowHasReplica | src/Tree.cpp:424-432 | Every window that is read, wrapped or not, contains the first entry of a group and so a replica of the metadata. |
| LeafInsert.EntriesToRead | src/Tree.cpp:418-435 | The entries read include an empty one, unless the whole leaf is read, and a replica, and are no more than the nearest vacant bit or a neighbourhood needs. |
| LeafInsert.NewMaxIdx | src/Tree.cpp:1018-1028 | The index is recomputed over the hopped slots exactly if it was one of them. |
| LeafInsert.MaxMovedIsMax | src/Tree.cpp:1018-1028 | Recomputed so, the index again points at the largest key. |
| LeafInsert.NewVacancy | src/Tree.cpp:1029-1041 | After an insert exactly the bits of the written segment have been marked, none cleared. |
| LeafInsert.MarkedKept | src/Tree.cpp:1029-1041 | After that no clear bit is optimistic. |
| LeafInsert.FreshVacancy | src/Tree.cpp:790-805 | After a split exactly the bits without an empty slot are marked. |
| LeafInsert.CreateRootLeaf | src/Tree.cpp:80-99 | The first leaf holds only the ghost key, is valid, and its lock word describes it. |
| LeafInsert.InsertIntoLeaf | src/Tree.cpp:412-570 | From any good leaf and lock word, an insert from a partial read stores the entry or splits, as the steps of the runs say, and leaves good leaves with the old maximum. |
| LeafInsert.SplitAndPublish | src/Tree.cpp:724-806 | Both halves are written with exact bitmaps and with indexes of their largest keys. |
| LeafInsert.StoreGood | src/Tree.cpp:1018-1041 | Hops, marked segment and recomputed index together keep the leaf, its bitmap and its largest key right. |
| LeafInsert.SplitGood | src/Tree.cpp:770-806 | Both halves with their fresh bitmaps and indexes are good leaves, the right one with the old largest key. |
| LeafUpdate.UpdateInLeaf | src/Tree.cpp:1578-1630 | The scan of the neighbourhood finds the key exactly when the leaf holds it, and replaces its value and nothing else. |
| LeafUpdate.UpdateContents | src/Tree.cpp:1332-1336 | Overwriting a value replaces one entry of the contents. |
| LockFields.WordShows | include/Metadata.h:35-42 | The word shows exactly the vacancy bits and the maximum index it was packed from, and its lock bit is clear. |
| LockFields.LeafWordUnlocked | include/Metadata.h:35-42 | The metadata of every good leaf fits its fields and leaves bit 63 clear. |
| LockWord.SharedWord.CasMask | src/CxlTransport.cpp:117-147 | Whatever others write meanwhile, it swaps exactly when a quiet round comes after rounds that all matched, writes once then and never otherwise: one atomic masked compare-and-swap. |
| LockWord.StepInv | src/Tree.cpp:202-243 | Every lock, unlock and field update keeps mutual exclusion, the published word, and buffers whose lock bit is clear. |
| LockWord.RunInv | src/Tree.cpp:202-243 | In every state of every run at most one client holds a node, and it took exactly the published word. |
| LockWord.NothingLost | src/Tree.cpp:202-243 | In every run, a free word shows the fields written by the last update of any holder, and so does the buffer of a client that has just taken it: overwriting all 64 bits loses nothing. |
| LockWord.FreeLockTaken | src/Tree.cpp:202-226 | A lock that nobody holds is taken by the next client that tries. |
| LockWord.QuietSwapTakes | src/CxlTransport.cpp:124-141 | Through the emulation a free lock is taken exactly when the word has not changed since it was loaded. |
| VersionLayout.BoundaryIsLineStart | include/LeafVersionManager.h:76-95 | Version bytes are exactly the first bytes of 64-byte lines. |
| VersionCodec.EncodeTiles | include/LeafVersionManager.h:138-180 | Encodings of adjacent segments put together are the encoding of both. |
| VersionCodec.SegmentWrite | include/LeafVersionManager.h:138-180 | Writing an encoded segment at its raw offset into an encoded node gives the encoding of the node with that segment replaced. |
| VersionCodec.OffsetIs | include/LeafVersionManager.h:99-108 | An entry's offset is its own bytes and one metadata copy for every group begun. |
| VersionCodec.LengthsAgree | include/MetadataManager.h:100-106 | The metadata formula and the version formula agree on the length of every segment. |
| VersionCodec.VersionInfoIs | include/LeafVersionManager.h:110-135 | The formulas give where the segment lies in the encoded node, its raw length, and where its first version byte is. |
| VersionCodec.LocalStartIs | include/LeafVersionManager.h:160-178 | The object a line starts in, found through the segment's own layout, is the one in the node's layout. |
| VersionCodec.EncodeSegment | include/LeafVersionManager.h:157-179 | The block-wise loop produces the byte-wise encoding, of exactly raw length bytes. |
| VersionDecode.RoundTrip | include/LeafVersionManager.h:183-228 | What was encoded decodes to itself, and is accepted exactly when its objects share one node version. |
| VersionDecode.NodeWriteNotTorn | include/VersionManager.h:34-61 | For every per-line mix of two images with different node versions, an accepted read took all its lines from one image. |
| VersionDecode.TwoRangesNotTorn | src/Tree.cpp:911-947 | A read that wraps and compares the node versions of its two ranges took both from the same image. |
| VersionDecode.UntornAccepted | include/LeafVersionManager.h:183-228 | The converse: a read whose lines all come from one image is accepted. |
| VersionDecode.NodeWriteCaught | include/LeafVersionManager.h:32-96 | Whatever a whole-node write puts in, an accepted read of any part sees the old node or the new one. |
| VersionDecode.BumpedEntryNotTorn | include/LeafVersionManager.h:138-228 | In every accepted per-line mix around a segment write, an entry whose version was bumped comes whole from one image. |
| VersionDecode.BumpEntryVersion | include/LeafVersionManager.h:147-154 | A bump changes the version byte and keeps the node version. |
| VersionDecode.BumpsReturn | include/LeafVersionManager.h:147-158 | An entry version comes back after 16 bumps and not before. |
| VersionDecode.NodeBumpsReturn | include/LeafVersionManager.h:69-79 | A node version comes back after 16 whole-node writes and not before. |
| TornEntries.AcceptedIff | include/LeafVersionManager.h:183-228 | Around a write that leaves the node version alone, a per-line mix is accepted exactly when no line starts inside an object whose version the two show differently. |
| TornEntries.ObjectWhole | include/LeafVersionManager.h:138-228 | An accepted read shows an object whole if it was bumped or all that changed in it lies on one line. |
| TornEntries.NeverTornIff | include/LeafVersionManager.h:138-228 | No accepted read is ever torn if and only if in each object changed without being bumped, all that changed lies on one line. |
| EntryBytes.EntryRoundTrip | include/LeafNode.h:29-55 | An entry read back from its bytes, bitmap bits numbered from the other end, is the entry. |
| EntryBytes.BitmapDiffers | include/LeafNode.h:29-64 | Entries that differ in the bitmap alone differ in its two bytes alone, where the bitmaps do. |
| EntryBytes.ByteDiffers | include/LeafNode.h:57-64 | A byte of two bitmaps differs only where an offset numbered into it does. |
| RawRead.BumpedAt | include/LeafVersionManager.h:143-158 | The bump loop changes exactly the versions of the listed entries, each once. |
| RawRead.EntryNotTorn | src/Tree.cpp:897-962 | Around one insert, every entry decoded from an accepted range is the entry before or after; only the bitmap of an entry not hopped can be torn, if both its bytes changed and a line starts between them. |
| RawRead.BumpedSide | include/LeafVersionManager.h:143-178 | All lines of a hopped entry in an accepted range come from the same image. |
| RawRead.MixAccepted | include/LeafVersionManager.h:183-228 | Around one insert, a range is accepted when no hopped entry in it is cut between the images. |
| SearchLayout.ValueStored | src/Tree.cpp:1879-1884 | In every layout, a value returned by a search around one insert was stored. |
| SearchLayout.TornByMove | src/Tree.cpp:610-632 | Both bytes of an unhopped entry's bitmap change only by a hop past it, in a neighbourhood of at least ten slots that is smaller than the leaf. |
| SearchLayout.NeverMisses | src/Tree.cpp:1873-1891 | In every layout that is not unsafe, nothing found, from the lines up and through one range or two, means absent before the insert. |
| StraddlingBitmap.StoredKeyMissed | include/LeafVersionManager.h:143-158 | In every layout with a home at risk, some search passes every check and misses a key stored before and after the insert. |
| StraddlingBitmap.MissesIff | src/Tree.cpp:1873-1891 | Searches can miss a stored key if and only if the layout is unsafe. |
| StraddlingBitmap.SourceShapeUnsafe | include/Common.h:169-190 | Sixteen slots to a neighbourhood and a group, ten bytes of metadata, 41-byte values: such a search. |
| VersionDecode.DecodeSegment | include/LeafVersionManager.h:183-228 | The decoding loop accepts exactly when every line's version and the joint check agree, and gives the bytes without versions. |
| MetadataScatter.ScatterLength | include/MetadataManager.h:100-106 | A scattered segment has exactly the length the offset formulas give it. |
| MetadataScatter.SegmentWriteInstallsEntries | src/Tree.cpp:1044-1071 | One segment write turns the encoded leaf into the encoding of the leaf with those entries replaced. |
| MetadataScatter.ScatterSegment | include/MetadataManager.h:87-97 | The group-wise copy puts one metadata copy before every group that begins in the segment. |
| MetadataScatter.GatherSegment | include/MetadataManager.h:65-83 | The entries come back, with the metadata exactly when the segment has a copy. |
| InternalNode.InsertKidCorrect | src/Tree.cpp:1159-1164 | Inserting keeps the list ascending and adds exactly that child. |
| InternalNode.RouteRecords | src/Tree.cpp:394-408 | The search loop picks the child whose range covers k and the child after it. |
| InternalNode.ShiftAndInsert | src/Tree.cpp:1159-1164 | The shift loop inserts into the ascending list and leaves the rest of the array alone. |
| InternalNode.SplitKeepsKids | src/Tree.cpp:1211-1231 | End to end, the halves of a split are the old children plus the new one, in order. |
| InternalNode.SplitRecords | src/Tree.cpp:1184-1232 | The in-place split gives these halves, the middle pointer becoming the sibling's leftmost one. |
| InternalRefinement.ShiftIsInstall | src/Tree.cpp:1159-1166 | Shifting in the announced child is the tree's install step, and the new records are the new kids. |
| InternalRefinement.SplitIsStep | src/Tree.cpp:1184-1246 | Splitting the records is the tree's split step, with the middle pointer as the old node's expected neighbour. |
| BLink.InitInv | src/Tree.cpp:80-99 | A tree of one leaf holding the ghost key satisfies the invariant. |
| BLink.SplitLeafInv | src/Tree.cpp:770-784 | A leaf split keeps fences adjacent and disjoint and every leaf's upper bound its largest key plus one. |
| BLink.InstallKidInv | src/Tree.cpp:1147-1167 | Taking in an announced child keeps every node image, old or new, truthful about lower bounds. |
| BLink.SplitInnerInv | src/Tree.cpp:1184-1246 | So does an internal split, whose `sibling_leftmost_ptr` is the next node's first child. |
| BLink.GrowRootInv | src/Tree.cpp:1275-1293 | So does putting a new root above the old one. |
| BLink.AnnouncedKeyIsNew | src/Tree.cpp:1150-1151 | The announced key is in no image of the parent level: the check before an internal insert never fires. |
| BLink.StepInv | src/Tree.cpp:724-895 | Every step keeps the tree invariant, and never moves a lower bound, level or image. |
| BLinkParents.StepPlaced | src/Tree.cpp:1147-1246 | No step loses a node: it stays the root, announced, or the kid of a node one level up under its own lower bound. |
| BLinkParents.EveryNodePlaced | src/Tree.cpp:1147-1246 | In every reachable tree each node is in exactly one of these places, and has at most one parent. |
| BLinkRest.NextLeftmostIs | src/Tree.cpp:1242-1246 | `sibling_leftmost_ptr` is the leftmost child of the next node. |
| BLinkCover.LevelsPartition | src/Tree.cpp:1233-1246 | On every level of the tree, every key is in the range of exactly one node. |
| BLinkCover.ParentExistsIff | src/Tree.cpp:342-361 | A parent that can take an announcement in exists if and only if the announced level is at most the root's. |
| BLinkCover.InsertInternal | src/Tree.cpp:342-361 | On a tree at rest the descent from the root reaches the node that covers the announced key, and stops at its assertion exactly when the root is too low. |
| BLinkCover.SecondSplitTooEarly | src/Tree.cpp:842-893 | A run of two leaf splits after which two announcements are pending, the root is still a leaf, and neither has a parent. |
| BLinkInstall.AnnouncementLands | src/Tree.cpp:342-361 | Over all runs, reading each node live: the descent stops at its assertion only if the root it began with was too low, and installs only in the node that covers the announced key. |
| BLinkRest.AnnouncerCloser | src/Tree.cpp:342-361 | On a tree at rest an announcer installs, stops, or moves closer. |
| BLinkRest.AnnouncerGoesOn | src/Tree.cpp:342-361 | An announcer on its way always has a next step. |
| BLinkSearch.RouteSound | include/TreeCache.h:164-184 | Any image covering k, however stale, routes k to a node starting at or before k and expects a node starting after k. |
| BLinkSearch.SiblingValidation | src/Tree.cpp:1845-1850 | If the leaf's sibling is the one a stale image expected, the leaf's range covers k. |
| BLinkSearch.KeyInCoveringLeaf | src/Tree.cpp:1904-1912 | A stored key is in the leaf whose range covers it. |
| BLinkSearch.WalkRight | src/Tree.cpp:1904-1912 | A leaf before the expected one that is not linked to it has a sibling that is still before it. |
| BLinkSearch.ReachableInv | src/Tree.cpp:84-98 | Every tree reached by any run satisfies the invariant. |
| BLinkSearch.SearchCorrect | src/Tree.cpp:1904-1915 | Over all runs and from any stale image, a key stored before the search is found, and a key found is stored. |
| BLinkSearch.ReaderAssertions | src/Tree.cpp:377-390 | Readers never reach an internal node that starts after k, nor a missing sibling. |
| BLinkRest.ReaderCloser | src/Tree.cpp:377-408 | On a tree at rest every step of a reader brings it closer to its end. |
| BLinkRest.SearchEnds | src/Tree.cpp:1904-1915 | Every search of a tree at rest from its root is finite, goes on until it is done, and then has the right answer. |
| BLinkSearch.TurnsRightExact | src/Tree.cpp:465-499 | From any partial read, the turn-right test is comparison with the leaf's true upper bound. |
| BLinkSearch.WriterDecision | src/Tree.cpp:457-500 | A writer inserts into a leaf that covers k, or moves to a leaf that exists and does not start after k. |
| BLinkWriter.WritesCovered | src/Tree.cpp:450-500 | A writer that got to a leaf by routing and turning right and does not turn right again is at a leaf that covers its key. |
| BLinkWriter.WriteLands | src/Tree.cpp:412-570 | Over all runs and from any stale image, an insert that never looks at a range is made in a leaf whose range covers its key, and the key stays in the tree. |
| BLinkRest.WriterCloser | src/Tree.cpp:457-500 | On a tree at rest a writer on its way writes, or moves closer. |
| BLinkRest.WriterGoesOn | src/Tree.cpp:457-500 | A writer that has not written always has a next step. |
| LeafRefinement.MaxIsBound | src/Tree.cpp:770-776 | The key the lock word points at, plus one, is the leaf's upper bound. |
| LeafRefinement.InsertIsStep | src/Tree.cpp:583-634 | A hopscotch insert is the tree's insert step, and the new table represents the new leaf. |
| LeafRefinement.SplitIsStep | src/Tree.cpp:724-784 | A hopscotch split is the tree's split step, and the two tables represent the two leaves. |
| LeafRuns.RunInv | src/Tree.cpp:412-570 | Every store, split, update in place and step above the leaves keeps every leaf's table valid and its lock word right, in every run. |
| LeafRuns.LeavesDescribed | src/Tree.cpp:457-500 | In every reachable tree each leaf's upper bound is its largest key plus one, the lock word points at that key, and no clear vacancy bit is optimistic. |
| LeafRuns.StoreStored | src/Tree.cpp:583-634 | Storing a key adds exactly its entry to what the whole tree holds. |
| LeafRuns.SplitStored | src/Tree.cpp:724-784 | So does a split. |
| LeafRuns.UpdateStored | src/Tree.cpp:1578-1630 | An update replaces exactly the value of its key in what the whole tree holds. |
| LeafRuns.AboveStored | src/Tree.cpp:1147-1246 | Steps above the leaves change nothing of it. |
| LeafRuns.OneValue | src/Tree.cpp:545-549 | In every good state no key has two values. |
| ReadDelegation.OneAdmittedIff | include/LocalLockTable.h:121-130 | In every good state with tickets outstanding some thread is admitted, and only one exactly when at most 256 tickets are outstanding. |
| ReadDelegation.TwoInTurn | include/LocalLockTable.h:108-130 | With any number of threads above 256, a run from the start that ends with two threads in their turn. |
| ReadDelegation.ThreadsSafeIff | include/LocalLockTable.h:108-195 | No run with n threads ever has two in their turn if and only if n is at most 256. |
| ReadDelegation.StepInv | include/LocalLockTable.h:108-195 | Every step of every thread keeps the queue in order, every outstanding ticket held, the stored result tied to the announced key, and no key announced that nobody uses. |
| ReadDelegation.FinishDecides | include/LocalLockTable.h:177-182 | A result is handed over exactly when someone waits for the next turn. |
| ReadDelegation.DelegationSafe | include/LocalLockTable.h:108-195 | In every run within the bound at most one thread is in its turn, and each returns what a winner read for the same key. |
| RangeMerge.MergeOverlaps | src/Tree.cpp:1989-1998 | The runs are apart and cover exactly the slots the segments cover. |
| RangeMerge.GreedyReads | src/Tree.cpp:1999-2008 | Each read is one run or spans at most the limit, and reads are ascending and apart. |
| RangeMerge.GreedyCovers | src/Tree.cpp:1999-2008 | The reads cover every run. |
| RangeMerge.GreedyOptimal | src/Tree.cpp:1999-2008 | No way of cutting the runs into allowed reads uses fewer reads. |
| RangeMerge.MergeSegments | src/Tree.cpp:1985-2012 | From any list of segments: reads that are apart, cover every wanted slot, and are one run each or within the limit. |
| Allocators.LocalAllocator.Malloc | include/LocalAllocator.h:22-49 | The aligned rest of the chunk is used if it is enough, else the first free block that is, else a chunk is asked for. |
| Allocators.TakeCuts | include/LocalAllocator.h:25-35 | A block cut from the chunk is the nearest aligned one and the cursor ends right behind it. |
| Allocators.TakeReuses | include/LocalAllocator.h:37-47 | Otherwise the first free block large enough is given out and leaves the list. |
| Allocators.DsmTakeExact | include/DSM.h:240-264 | A chunk is taken exactly when nothing else has room, and the address is aligned exactly when it is not that of a free block that is not. |
| Allocators.MisalignedReuse | include/LocalAllocator.h:37-47 | A run in which a block asked for with alignment 64 is not aligned. |
| Allocators.GlobalAllocator.AllocChunk | include/GlobalAllocator.h:31-53 | Chunks are handed out in order from the second one on; the assertion about a used chunk never fires. |
| Allocators.DsmAlloc | include/DSM.h:240-264 | The allocation with its refill and retry computes the step that the runs are made of. |
| Allocators.AllocExact | include/DSM.h:240-264 | From any good state, an allocation gives no byte two owners, the directory's chunks counted, if and only if the chunk's rest, a free block or a fresh chunk has room. |
| Allocators.BlockGiven | include/DSM.h:240-264 | The caller holds a block of the size asked for, aligned exactly in those cases, and all other blocks stay. |
| Allocators.FreedReusable | include/DSM.h:266-268 | A block given back can be given out again without a new chunk. |
| Allocators.OversizeOverlaps | include/DSM.h:252-262 | A request larger than a chunk gets a block that overlaps the next one given out. |
| Allocators.HeldApart | include/LocalAllocator.h:22-58 | In every run of requests up to a chunk and valid frees, live blocks share no byte. |
| Allocators.HeldInPool | include/GlobalAllocator.h:18-53 | In every such run, a live block lies in chunks handed out, above the reserved first one. |
| Allocators.PoolRunInv | src/CxlTransport.cpp:255-275 | Over every interleaving of loads and swaps, blocks are aligned, disjoint, inside the pool, above the reserved chunk, and as close to each other as alignment allows. |
| KeyArithmetic.Add | include/Key.h:78-93 | The carry loop computes byte-wise addition. |
| KeyArithmetic.Subtract | include/Key.h:95-111 | The borrow loop computes byte-wise subtraction, borrowing once per byte. |
| KeyArithmetic.PlusValue | include/Key.h:78-93 | Addition is addition modulo 256 to the key length. |
| KeyArithmetic.MinusValue | include/Key.h:95-111 | Subtraction is subtraction modulo 256 to the key length. |
| KeyArithmetic.PlusMinus | include/Key.h:78-111 | Each undoes the other, wrap-around included. |
| KeyArithmetic.LessIsNumeric | include/Key.h:113-117 | Lexicographic order of keys is the order of their numbers. |
| KeyArithmetic.Successor | include/Key.h:78-93 | Below the largest key, k + 1 is the immediate successor. |
| KeyArithmetic.KeyRoundTrip | include/Key.h:113-131 | Converting a key to a number and back gives the key exactly when it is not the null key. |
| KeyArithmetic.IntRoundTrip | include/Key.h:113-131 | Converting a number to a key and back gives the number exactly when it is the number of a key other than null. |

## Left out

- HopRead.NoMissedKey: speaks about reads that overlap one insert, as does SearchLayout.NeverMisses; a read spanning several inserts is not covered.
- VersionDecode.NodeWriteCaught: speaks about one write between the two images; sixteen writes bring the 4-bit version back.
- ReadDelegation.DelegationSafe: says nothing about how fresh a delegated result is, which depends on timing windows.
- Allocators.HeldApart: speaks about one directory starting at offset 0, as in the default configuration; 48-bit offsets do not wrap.
- Write combining, the address-based and hand-over variants of the local locks, coroutines and statistics.
- The skip list, eviction and reclamation of the cache, and the index cache, whose hints are always rechecked by key.
- Range queries beyond the interval merge, and variable-length values. The source has no deletion of keys, and neither has the model.
- RDMA verbs, queue pairs, memory registration and NUMA placement: remote memory is 64-byte lines read one at a time and an atomic masked compare-and-swap.
- The experiment, plotting and workload scripts.
