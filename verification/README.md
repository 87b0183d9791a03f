# A verified model of the B+-tree and the skip list

Dafny models of two in-memory index structures and proofs about them:

- the **B+-tree** of `datastructures/btree/btree.hpp`, in layers: the slotted 4096-byte page
  (`PageImage`, `Page`), what a page means and how it splits and merges (`Nodes`, `Splitting`,
  `Limits`), the tree as a collection of pages (`Trees`, `TreeChanges`, `TreeGrowth`, `TreeSpace`,
  `Scans`, `Restarts`), its operations run by one thread (`BTree`, `PageCalls`), the page lock word
  (`PageStates`), optimistic lock coupling with any number of threads (`Olc`, `OlcProof`), and the
  table of resident pages, alone and with any number of threads (`ResidentSet`, `ResidentRuns`);
- the **skip list** of `datastructures/skiplist/`: as a heap structure (`SkipList`), as a machine in
  which every pointer load and store is a step (`SkipSteps`, `SkipProof`), its random number
  generator (`Random`) and its allocator with memory tags (`Arena`, `Mte`).

How the layers fit together: `Page.dfy` works on arrays of slots and bytes and proves every page
operation equal to a function on *nodes* (two fences, sorted full keys, payloads, one extra page
id); `BTree.dfy` and `Olc.dfy` use exactly these functions. `Pages.FitsPageIff` shows that the
byte accounts that the tree layer checks are those of real pages, and `PageCalls.dfy` that the
tree's invariant meets what the page operations ask for. Keys are byte strings; `Lex.Rank` maps
them to the real line so that order proofs are arithmetic, and `Lex.LessIsLexicographic` ties that
to the byte-by-byte order.

Conventions: a slot count, length or offset is an unbounded natural number; the page invariant
keeps all of them below 4096, so the 16-bit fields cannot wrap. The 64-bit lock word is modelled
with its wrap-around. The source's `assert`s are preconditions, or an `AssertionFailed` outcome where
a caller can run into them. `bm.toPID(this)`, the address that `operator new` returns, the tag that
IRG picks, and a scan callback's replies are parameters.

## What turned out not to hold

- **The left half of a leaf split can overflow.** The separator is stored as a fence although the
  key it was taken from may stay in the node. `Splitting.LeafLeftFitsIff` gives the exact condition,
  `Splitting.LeafLeftFits` the only situation in which it can fail (the next key ends one byte after
  the part it shares with the key at the split point, and is shorter than that key), and
  `Splitting.LeftHalfCanOverflow` a legal leaf with all entries at most 792 bytes for which it fails.
  No two keys of one length, and no two keys that end in a zero byte, can be in that situation.
- **`maxKVSize` (993) admits entries with which a full leaf holds only two keys**, and
  `splitNode` asserts that the split slot is not 0. `Limits.TwoEntriesLeaveRoomIff`: this is excluded
  exactly up to 792 bytes of key and payload. Within that limit insertion is proved to succeed for
  all sets of keys without the situation above. In general it fails only at a page that has to be
  split and has too few entries or an overflowing left half, and there it fails always
  (`BTrees.BTree.Insert`, `Restarts.StuckForGood`).
- **`nextVersion` carries into the state byte at the last version** (`PageStates.NextVersionExact`,
  `PageStates.LastVersionLeavesPhantomHolder`).
- **`AllocateAligned` adds `bytes % 16` where it means to fill up to a multiple of 16**: results stay
  aligned exactly for requests that are multiples of 8 (`Arenas.NeededIsWholeIff`).
- **`next_pow2` shifts a 32-bit number by 64 less the leading zeros.** The table of resident pages gets
  a power of two above the number of pages exactly from two pages on and while one and a half times
  that number is at most 2^30 (`ResidentSets.TableSizeIff`). For one page the leading zeros of zero are
  counted; from 715827884 pages on the sign bit is shifted in, or the shift is too long
  (`ResidentSets.TableSizeFails`).
- **`insert` never looks for an existing key**: a leaf stays legal exactly if the key was absent
  (`Nodes.InsertKeepsWFIff`), so `BTrees.BTree.Insert` requires that.

## Model

| member | source | states |
|---|---|---|
| Lex.LessIsLexicographic | datastructures/btree/btree.hpp:868-882 | position on the real line orders keys as comparing common bytes and then lengths does |
| Lex.MemCmp | datastructures/btree/btree.hpp:846-870 | the sign of memcmp on equally long buffers decides the key order, zero means equality |
| Lex.BetweenSharesPrefix | datastructures/btree/btree.hpp:692-701 | every key between two fences starts with their common prefix |
| Nodes.LowerBound | datastructures/btree/btree.hpp:838-839 | reference search: everything before the result is smaller, the result is not |
| Nodes.HasIsMembership | datastructures/btree/btree.hpp:838-839 | on sorted keys the lower bound finds a key exactly if it is among them |
| Nodes.RoutedInRange | datastructures/btree/btree.hpp:1152-1159 | the child slot that an inner page selects has the key in its range |
| Nodes.EncodePid | datastructures/btree/btree.hpp:797-797 | a page id stored as eight bytes is read back unchanged |
| Nodes.CoveredSharesPrefix | datastructures/btree/btree.hpp:1041-1047 | a key above the lower and at or below the upper fence has the page's prefix, so cutting it off never underflows |
| Nodes.InsertKeepsWF | datastructures/btree/btree.hpp:899-911 | inserting an absent covered key keeps order, ranges and separators legal |
| Nodes.InsertKeepsWFIff | datastructures/btree/btree.hpp:899-911 | a leaf stays legal exactly if the inserted key was absent; otherwise the key ends up in two neighbouring slots |
| Nodes.InsertSpace | datastructures/btree/btree.hpp:769-802 | an insertion uses exactly spaceNeeded bytes of the space after compaction |
| Nodes.RemoveKeepsWF | datastructures/btree/btree.hpp:913-921 | removing a slot keeps a page legal |
| Nodes.RemoveSpace | datastructures/btree/btree.hpp:913-921 | a removal gives back exactly what the entry had needed |
| Splitting.SeparatorIsSplitPoint | datastructures/btree/btree.hpp:1109-1150 | findSeparator and getSep deliver, in every mode and also truncated, a key at or above all that stays left and below all that goes right |
| Splitting.InnerSplitIsBalanced | datastructures/btree/btree.hpp:1112-1116 | an inner page is split around its middle separator: the left half keeps as many separators as the right one, or one more |
| Splitting.OrderedSplitSendsOne | datastructures/btree/btree.hpp:1121-1122 | in sequential mode a leaf gives up its last entry only |
| Splitting.SmallLeafSplitIsBalanced | datastructures/btree/btree.hpp:1133-1135 | a leaf of at most 16 entries is split in the middle |
| Splitting.LargeLeafSplitIsNearMiddle | datastructures/btree/btree.hpp:1123-1132 | a larger leaf is split in the last sixteenth of its slots before the middle: at the first slot that shares more or less with slot 0 than the range's first slot does, if the range's last slot does, else at the first slot |
| Splitting.SeparatorIsCutIff | datastructures/btree/btree.hpp:1138-1144 | the separator is the next key up to the first byte that differs exactly if that cuts something off and the key at the split goes on there; else it is the key at the split |
| Splitting.CutSeparatorIsShortest | datastructures/btree/btree.hpp:1138-1144 | no shorter key separates the halves when the separator is cut, or when the next key continues the key at the split |
| Splitting.SplitKeepsWF | datastructures/btree/btree.hpp:1049-1089 | both halves of a split are legal between their new fences |
| Splitting.SplitConservesEntries | datastructures/btree/btree.hpp:1072-1085 | the halves hold exactly the old entries in order; an inner page's middle entry moves up and its child becomes the left half's last |
| Splitting.SplitPrefixesGrow | datastructures/btree/btree.hpp:1060-1061 | neither half has a shorter prefix than the page had |
| Splitting.LeftSpace | datastructures/btree/btree.hpp:1060-1085 | the left half's free space, exactly |
| Splitting.RightSpace | datastructures/btree/btree.hpp:1060-1085 | the right half's free space, exactly |
| Splitting.RightFits | datastructures/btree/btree.hpp:1049-1089 | the right half of any split fits a page |
| Splitting.InnerLeftFits | datastructures/btree/btree.hpp:1049-1089 | the left half of an inner split fits, whatever the keys |
| Splitting.LeafLeftFitsIff | datastructures/btree/btree.hpp:1049-1089 | the left half of a leaf split fits exactly if free space and leaving entries pay for the new fence |
| Splitting.LeafLeftFits | datastructures/btree/btree.hpp:1049-1089 | it fits unless the next key ends one byte after the shared part and is shorter than the key at the split point |
| Splitting.HarmlessHasNoShortNextKey | datastructures/btree/btree.hpp:1049-1089 | that exception does not arise between keys of a harmless set: no key ends one byte after what it shares with a smaller and longer one |
| Splitting.EqualLengthsAreHarmless | datastructures/btree/btree.hpp:1049-1089 | keys of one length are harmless |
| Splitting.TerminatedKeysAreHarmless | datastructures/btree/btree.hpp:1049-1089 | keys of any lengths that end in a zero byte are harmless |
| Splitting.LeftHalfCanOverflow | datastructures/btree/btree.hpp:1049-1089 | a legal full leaf whose left half does not fit |
| Splitting.SplitParentShape | datastructures/btree/btree.hpp:1063-1070 | the parent gains the separator at its place; the slot before it leads to the left half, the one after it to the right half, all others stay |
| Splitting.SplitParentSpace | datastructures/btree/btree.hpp:1342-1343 | the parent pays exactly what hasSpaceFor asked for |
| Splitting.MergedWF | datastructures/btree/btree.hpp:951-977 | the merge of two adjacent leaves is a legal leaf |
| Splitting.MergeFits | datastructures/btree/btree.hpp:951-968 | when the estimate passes, the merged leaf fits although prefixes may shrink; by how much, exactly |
| Splitting.MergedParentShape | datastructures/btree/btree.hpp:969-971 | the parent loses one slot and the next one leads to the merged leaf, all others stay |
| Limits.OneEntryLeavesRoomIff | datastructures/btree/btree.hpp:755-755 | a leaf with one entry that fits a page always has room for another exactly up to maxKVSize |
| Limits.TwoEntriesLeaveRoomIff | datastructures/btree/btree.hpp:1051-1051 | with two entries exactly up to 792 bytes, so that a split never gets slot 0 |
| Limits.FullPageIsSplittable | datastructures/btree/btree.hpp:1049-1052 | a page of entries within that limit that lacks room has enough entries to be split |
| Limits.FreshRootHasRoom | datastructures/btree/btree.hpp:1328-1343 | a new root has room for the separator of any page that fits |
| PageImage.HeadOrder | datastructures/btree/btree.hpp:723-738 | a smaller 4-byte head means a smaller key, and heads never contradict the key order |
| PageImage.HeadTellsApart | datastructures/btree/btree.hpp:723-738 | heads are equal exactly if the first four bytes are, filled up with zeros |
| PageImage.SpaceFiguresExact | datastructures/btree/btree.hpp:769-770 | on a legal page the space figures are those of the stored entries; without holes all reclaimable space is free |
| PageImage.RangeChecksPass | datastructures/btree/btree.hpp:757-792 | the checks of count, slots and fences that are meant for torn reads never fire on a legal page |
| PageImage.StoredKeeps | datastructures/btree/btree.hpp:980-996 | writing an entry below the data overlaps nothing, keeps the byte count exact, and adds exactly that entry |
| PageImage.RemovedKeeps | datastructures/btree/btree.hpp:913-921 | dropping a slot keeps the page legal and removes exactly that entry |
| PageImage.OverwrittenKeeps | datastructures/btree/btree.hpp:969-970 | overwriting a payload in place changes nothing else on the page |
| PageImage.FencedKeeps | datastructures/btree/btree.hpp:1031-1047 | a new page with fences is legal, empty and without holes |
| Pages.PartsDecide | datastructures/btree/btree.hpp:868-882 | memcmp on the common length, then the lengths, decides order and equality |
| Pages.BesidePrefix | datastructures/btree/btree.hpp:846-852 | a key unlike the prefix lies before or behind all keys of the page |
| Pages.NarrowedIsLowerBound | datastructures/btree/btree.hpp:862-888 | finding the place of a remainder among remainders is finding the key among the full keys |
| Pages.SkippedHintBelow | datastructures/btree/btree.hpp:811-819 | the hints that updateHint skips point below the inserted slot |
| Pages.HintRange | datastructures/btree/btree.hpp:821-836 | the range between the two hints that searchHint picks still contains the key's place |
| Pages.CopyRange | datastructures/btree/btree.hpp:998-1029 | entries that share the other page's prefix and fit can be copied one by one, and then stand behind its own |
| Pages.CompactKeeps | datastructures/btree/btree.hpp:937-949 | compaction preserves the page's meaning and leaves no holes |
| Pages.MergedImage | datastructures/btree/btree.hpp:951-977 | the page that mergeNodes builds stores the merged leaf |
| Pages.HalfImage | datastructures/btree/btree.hpp:1060-1085 | the page that splitNode builds for one half stores that half |
| Pages.FitsPageIff | datastructures/btree/btree.hpp:769-775 | a node can be stored in a page exactly if its space account is not negative |
| Pages.BTreeNode.MakeHint | datastructures/btree/btree.hpp:804-809 | every hint is the head one more stride into the slots |
| Pages.BTreeNode.UpdateHint | datastructures/btree/btree.hpp:811-819 | recomputing only the later hints gives the same hints as recomputing all |
| Pages.BTreeNode.SearchHint | datastructures/btree/btree.hpp:821-836 | the hints narrow the range without losing the key |
| Pages.BTreeNode.CompareRest | datastructures/btree/btree.hpp:871-884 | memcmp on the common bytes, then the lengths, order a key and a stored remainder, and tell when they are equal |
| Pages.BTreeNode.SearchRemainder | datastructures/btree/btree.hpp:856-888 | heads, hints and binary search find the remainder or its place |
| Pages.BTreeNode.LowerBound | datastructures/btree/btree.hpp:839-889 | the fast search returns index and exact-match flag of a plain lower bound over the full keys |
| Pages.BTreeNode.LookupInner | datastructures/btree/btree.hpp:1152-1159 | the child that covers the key |
| Pages.BTreeNode.StoreKeyValue | datastructures/btree/btree.hpp:980-996 | the whole new page after one entry is written |
| Pages.BTreeNode.InsertFence | datastructures/btree/btree.hpp:1031-1039 | a fence is written just below the data |
| Pages.BTreeNode.SetFences | datastructures/btree/btree.hpp:1041-1047 | fences are written and the prefix is their longest common one |
| Pages.BTreeNode.CopyKeyValueRange | datastructures/btree/btree.hpp:998-1020 | with a longer or a shorter prefix, the other page gets the same entries |
| Pages.BTreeNode.CopyNode | datastructures/btree/btree.hpp:932-935 | the page becomes a copy of the other |
| Pages.BTreeNode.Compactify | datastructures/btree/btree.hpp:937-949 | meaning, count and prefix stay, all reclaimable space becomes free |
| Pages.BTreeNode.InsertInPage | datastructures/btree/btree.hpp:899-911 | the page afterwards stores the old entries and the new one at its place, hints included |
| Pages.BTreeNode.RemoveSlot | datastructures/btree/btree.hpp:913-921 | exactly the entry of that slot is gone |
| Pages.BTreeNode.RemoveInPage | datastructures/btree/btree.hpp:923-930 | true exactly if the key was there, and then exactly its entry is gone |
| Pages.BTreeNode.MergeNodes | datastructures/btree/btree.hpp:951-977 | merges exactly if the estimate fits a page: left entries, then right ones, the right neighbour's link and fence; the parent is rerouted |
| Pages.BTreeNode.SplitNode | datastructures/btree/btree.hpp:1049-1089 | the page keeps the left half, the new page gets the right half, the parent routes to both |
| Pages.BTreeNode.CommonPrefix | datastructures/btree/btree.hpp:1097-1107 | how many bytes two stored remainders share, which is what the full keys share beyond the prefix |
| Pages.BTreeNode.FindSeparator | datastructures/btree/btree.hpp:1109-1144 | on stored remainders the same slot, length and cut as on full keys, where Splitting.InnerSplitIsBalanced, OrderedSplitSendsOne, SmallLeafSplitIsBalanced, LargeLeafSplitIsNearMiddle and SeparatorIsCutIff say which they are |
| Pages.BTreeNode.GetSep | datastructures/btree/btree.hpp:1146-1150 | prefix and remainder put together are the chosen piece of the full key |
| Trees.HopCovers | datastructures/btree/btree.hpp:1193-1194 | a descent goes one level down and stays with pages that cover the key |
| Trees.OnePagePerLevel | datastructures/btree/btree.hpp:692-693 | on one level only one page covers a key |
| Trees.LeafDecides | datastructures/btree/btree.hpp:1199-1213 | the leaf that covers a key decides whether and how the map contains it |
| Trees.LookupMeetsContents | datastructures/btree/btree.hpp:1188-1213 | following child pointers from the root finds what the map holds |
| Trees.InsertLeafContents | datastructures/btree/btree.hpp:1390-1395 | inserting into the covering leaf adds exactly that pair to the map |
| Trees.RemoveLeafContents | datastructures/btree/btree.hpp:1433-1442 | removing from a leaf removes exactly that key from the map |
| Trees.GrowRootKeeps | datastructures/btree/btree.hpp:1328-1335 | a new root above the old one keeps tree invariant and map |
| TreeChanges.SplitKeeps | datastructures/btree/btree.hpp:1337-1345 | a split keeps fences equal to separators, levels, leaf chain and map |
| TreeChanges.MergeKeeps | datastructures/btree/btree.hpp:1433-1437 | a merge keeps fences equal to separators, levels, leaf chain and map |
| TreeGrowth.SplitLowersMeasure | datastructures/btree/btree.hpp:1325-1405 | a split on a key's path lowers the measure that bounds the restarts of insert |
| TreeGrowth.RootSplitLowersMeasure | datastructures/btree/btree.hpp:1328-1345 | so does splitting the root below a new one, although the path gets longer |
| Scans.AscEnd | datastructures/btree/btree.hpp:1280-1281 | at the end of the chain every entry at or above the start has been visited |
| Scans.DescHop | datastructures/btree/btree.hpp:1303-1306 | following the lower fence goes on in the left neighbour and misses nothing |
| Scans.FirstVisit | datastructures/btree/btree.hpp:1290-1296 | the slot at the start's place in its leaf holds the start if the map does, else the next key above it, and is missing exactly if the leaf has no such key |
| Restarts.StuckForGood | datastructures/btree/btree.hpp:1325-1405 | once a page that has to be split cannot be, no sequence of attempts makes room for the entry |
| Restarts.ChainBelow | datastructures/btree/btree.hpp:1342-1350 | below a page that has to be split, every page on the path has to be, and its parent lacks room for its separator |
| Restarts.GainedCount | datastructures/btree/btree.hpp:590-597 | the counter of page ids goes up by exactly the number of pages that the tree gains |
| TreeSpace.SplitStaysSpacious | datastructures/btree/btree.hpp:1337-1345 | if the parent has room and the halves fit, all pages fit afterwards, and entries and fences keep their bound |
| TreeSpace.MergeStaysSpacious | datastructures/btree/btree.hpp:951-977 | after a merge under the estimate all pages fit, and entries and fences keep their bound |
| PageCalls.PagesCanBeStored | datastructures/btree/btree.hpp:740-753 | every page of the tree is that of some 4096 bytes |
| PageCalls.InsertAllowed | datastructures/btree/btree.hpp:899-911 | the key that insertInPage gets has the prefix that is cut off |
| PageCalls.SeparatorAllowed | datastructures/btree/btree.hpp:1109-1150 | findSeparator and getSep stay within the slots and behind the prefix |
| PageCalls.SplitAllowed | datastructures/btree/btree.hpp:1049-1089 | splitNode gets halves that fit, and a separator that belongs into the parent right before the page |
| PageCalls.MergeAllowed | datastructures/btree/btree.hpp:951-977 | mergeNodes gets neighbours whose outer fences fit a page together |
| BTrees.BTree.constructor | datastructures/btree/btree.hpp:1314-1321 | a new tree is one empty leaf, page 1, and stands for the empty map |
| BTrees.BTree.AllocPage | datastructures/btree/btree.hpp:590-597 | the next id exactly if it is below the number of pages; the counter goes up by one either way |
| BTrees.BTree.Lookup | datastructures/btree/btree.hpp:1199-1213 | what the map holds for the key |
| BTrees.BTree.Insert | datastructures/btree/btree.hpp:1376-1405 | ends; success adds exactly the pair, any other outcome leaves the map. The tree before and the tree after are linked by attempts, each of which splits the one page that has to be split and whose parent has room; then the entry goes into its leaf. It fails by an assertion only if in the resulting tree a page that has to be split has too few entries or an overflowing left half, and always if such a page was there before; never if all entries are at most 792 bytes and the keys in the map are harmless. It fails for lack of pages only if the next id does not exist; each page gained has taken one id |
| BTrees.BTree.Remove | datastructures/btree/btree.hpp:1407-1447 | true exactly if the key was there; afterwards exactly it is gone. The right sibling's page is given up exactly if the leaf then has 3072 bytes free (its slot not counted), it has a parent, the sibling is not the parent's last child and has 1024 bytes free, and the estimate for both fits 4096 bytes; otherwise all pages stay |
| BTrees.RemovedMergesIfDue | datastructures/btree/btree.hpp:1428-1437 | the same about the tree that remove leaves behind, for all trees and keys |
| BTrees.BTree.TrySplit | datastructures/btree/btree.hpp:1325-1351 | the map stays. If node has to be split, then afterwards one page on the key's path has been split and the measure has fallen, or such a page cannot be split, or there are no more pages |
| BTrees.BTree.EnsureSpace | datastructures/btree/btree.hpp:1353-1374 | nothing happens if there is room; otherwise as for trySplit |
| BTrees.BTree.SplitNode | datastructures/btree/btree.hpp:1338-1345 | the split tree with the next id as the new page, or failure: by an assertion only if the page cannot be split, for lack of pages exactly if the slot is above 0 and the next id does not exist |
| BTrees.BTree.MergeNodes | datastructures/btree/btree.hpp:951-977 | the merged tree if the estimate fits, else nothing changes; the map stays |
| BTrees.BTree.ScanAsc | datastructures/btree/btree.hpp:1269-1286 | visits exactly the entries at or above the start in ascending order, across empty leaves, until the callback declines |
| BTrees.BTree.ScanDesc | datastructures/btree/btree.hpp:1288-1308 | visits first the start, if the map has it, else the next key above it, if its leaf has one, then all entries at or below it in descending order, until the callback declines; exactMatch, which goes with every visit, is false exactly if the first visit lies above the start |
| PageStates.NextVersionExact | datastructures/btree/btree.hpp:77-78 | nextVersion sets state and next version exactly if the version is not the last one |
| PageStates.NextVersionCarries | datastructures/btree/btree.hpp:77-78 | at the last version the version starts over, and the carry makes an even state odd |
| PageStates.LastVersionLeavesPhantomHolder | datastructures/btree/btree.hpp:78-87 | at the last version unlocking leaves one shared holder in the word |
| PageStates.PageState.TryLockX | datastructures/btree/btree.hpp:80-82 | locks exactly if the word is still the expected one, and keeps the version |
| PageStates.PageState.UnlockX | datastructures/btree/btree.hpp:84-87 | unlocked at the next version as long as there is one; at the last version one shared holder and version 0 |
| PageStates.PageState.UnlockXEvicted | datastructures/btree/btree.hpp:89-92 | evicted at the next version, at the last one too, where the version starts over |
| PageStates.PageState.DowngradeLock | datastructures/btree/btree.hpp:94-97 | one shared holder at the next version, at the last one too, where the version starts over |
| PageStates.PageState.TryLockS | datastructures/btree/btree.hpp:99-106 | one more shared holder, exactly if the word is unchanged and has room or is marked |
| PageStates.PageState.UnlockS | datastructures/btree/btree.hpp:108-116 | one shared holder less |
| PageStates.PageState.TryMark | datastructures/btree/btree.hpp:118-121 | marks an unlocked page |
| PageStates.LockWordIsTruthful | datastructures/btree/btree.hpp:64-127 | over all runs Locked exactly with one exclusive holder, value n exactly with n sharers, versions never fall |
| PageStates.ValidatedReadIsSnapshot | datastructures/btree/btree.hpp:365-382 | when validation passes, all bytes loaded one by one come from the single captured content, which the page still has |
| PageStates.ValidationPassesIff | datastructures/btree/btree.hpp:365-382 | over all runs validation passes exactly if nobody has held the page exclusively since the capture, however many share it and whether it is marked |
| PageStates.UpgradeLocksWhatWasRead | datastructures/btree/btree.hpp:416-436 | an upgraded guard locks precisely the content that was read |
| OlcProof.StepKeeps | datastructures/btree/btree.hpp:1188-1447 | every single step of every thread keeps tree, memory and locks consistent and every thread's knowledge true |
| OlcProof.HistoryIsReal | datastructures/btree/btree.hpp:1376-1447 | every recorded map is what the tree stood for at some moment of the run |
| OlcProof.HistoryChangesOnePair | datastructures/btree/btree.hpp:1376-1447 | consecutive maps of a run differ by one pair |
| OlcProof.FinishedOperationsAgree | datastructures/btree/btree.hpp:1188-1447 | in every interleaving every finished lookup, insert and remove agrees with the map at a moment between its start and its end |
| OlcProof.OneOperationPerEntry | datastructures/btree/btree.hpp:1376-1447 | no two operations, of one thread or of several, take effect with the same change of the map |
| OlcProof.EntryHasMaker | datastructures/btree/btree.hpp:1376-1447 | every change of the map is the effect of some insert or remove, which reports it |
| OlcProof.UnchangedPageStillCovers | datastructures/btree/btree.hpp:299-309 | a page reached through a validated parent whose version is unchanged is still in the tree and still covers the key |
| OlcProof.FetchedPageExists | datastructures/btree/btree.hpp:299-309 | a child pointer that was read through a validated parent leads to a page that has been allocated |
| ResidentSets.PutKeepsLegal | datastructures/btree/btree.hpp:176-187 | entering a page into the first free slot of its path keeps every page reachable |
| ResidentSets.DropKeepsLegal | datastructures/btree/btree.hpp:196-198 | a tombstone keeps every other page reachable |
| ResidentSets.AbsentAtEmpty | datastructures/btree/btree.hpp:192-194 | an empty slot on its path means that a page is not in the table |
| ResidentSets.TableNeverFull | datastructures/btree/btree.hpp:145-151 | with more slots than page ids there is always a free slot |
| ResidentSets.TableSizeIff | datastructures/btree/btree.hpp:145-159 | init yields a power of two above the number of pages exactly from two pages on and up to 2^30 slots |
| ResidentSets.TableSizeFails | datastructures/btree/btree.hpp:157-159 | for one page the result is undefined, for 715827884 pages it is a sign-extended 32-bit number |
| ResidentSets.MaskIsRemainder | datastructures/btree/btree.hpp:145-151 | and with a power of two less one is the remainder |
| ResidentSets.ResidentPageSet.constructor | datastructures/btree/btree.hpp:145-151 | an empty table whose size is a power of two above the number of pages |
| ResidentSets.ResidentPageSet.Insert | datastructures/btree/btree.hpp:176-187 | alone: ends if some slot is free, and adds exactly the page to the set |
| ResidentSets.ResidentPageSet.Remove | datastructures/btree/btree.hpp:189-202 | alone: ends if the page is there or some slot is empty; true exactly if it was there, and removes exactly it |
| ResidentRuns.StepKeeps | datastructures/btree/btree.hpp:176-202 | every load and compare-and-swap of insert and remove, and every step of the lock words and of allocation, keeps the table searchable and every thread on a right place of its path |
| ResidentRuns.TableIsResident | datastructures/btree/btree.hpp:590-660 | in every state of every run the table has exactly the pages that are not evicted, except those that a thread has locked and is entering or taking out |
| ResidentRuns.StepMovesOnePage | datastructures/btree/btree.hpp:176-202 | one step enters one page that was not in the table, takes out one that was, or neither |
| ResidentRuns.InsertMeetsNoTwin | datastructures/btree/btree.hpp:176-187 | whatever other threads do, insert never meets its own page, which it asserts at every slot, and the table has a free slot |
| ResidentRuns.AllocationLocks | datastructures/btree/btree.hpp:590-601 | the compare-and-swap that allocPage asserts to succeed does |
| ResidentRuns.RemoveFindsItsPage | datastructures/btree/btree.hpp:189-202 | under the exclusive lock remove never comes to an empty slot, finds its page in one round, and its compare-and-swap does not fail |
| SkipProof.StepKeeps | datastructures/skiplist/skiplist.h:246-348 | every load and store of readers and writer keeps all levels sorted, nested and consistent with the history |
| SkipProof.LevelsAlwaysSorted | datastructures/skiplist/skiplist.h:317-348 | after every single store every level is a strictly sorted list and part of the list below |
| SkipProof.SearchesAreRight | datastructures/skiplist/skiplist.h:246-305 | every finished search reports the right key of the set that the list held between the search's start and end |
| SkipProof.ContainsIsRight | datastructures/skiplist/skiplist.h:350-357 | Contains never misses a key whose insertion had been published before, and never reports one that was not there at its last load |
| SkipProof.IterationMissesNothing | datastructures/skiplist/skiplist.h:199-220 | an iteration during insertions is strictly ascending and visits every key that was there at its start |
| SkipProof.InsertAddsItsKey | datastructures/skiplist/skiplist.h:317-348 | from begin to end an insertion adds its key, at its first publication, and nothing else |
| SkipProof.InsertEndsComplete | datastructures/skiplist/skiplist.h:342-347 | when it ends, its node is linked on all its levels |
| SkipProof.SearchProgress | datastructures/skiplist/skiplist.h:246-305 | alone, every load goes down a level or leaves fewer nodes ahead |
| SkipLists.LinkKeepsSorted | datastructures/skiplist/skiplist.h:342-347 | linking a node behind its predecessor keeps the level a sorted list |
| SkipLists.SkipList.constructor | datastructures/skiplist/skiplist.h:307-315 | an empty list |
| SkipLists.SkipList.FindGreaterOrEqual | datastructures/skiplist/skiplist.h:246-266 | the smallest key at or above the target, and the target's predecessor on every level; ends |
| SkipLists.SkipList.FindLessThan | datastructures/skiplist/skiplist.h:268-286 | the greatest key below the target, or the head; ends |
| SkipLists.SkipList.FindLast | datastructures/skiplist/skiplist.h:288-305 | the greatest key, or the head; ends |
| SkipLists.SkipList.Contains | datastructures/skiplist/skiplist.h:350-357 | true exactly if the key is in the list |
| SkipLists.SkipList.RandomHeight | datastructures/skiplist/skiplist.h:229-239 | between 1 and 12, one more than the number of leading draws that are multiples of 4 |
| SkipLists.SkipList.Insert | datastructures/skiplist/skiplist.h:317-348 | the key set grows by exactly the new key, whose node is linked on as many levels as the draws say; all levels stay sorted, nested and complete, and the list's height is the greatest of its nodes' so far |
| SkipLists.Iterator.Next | datastructures/skiplist/skiplist.h:199-202 | to the next greater key |
| SkipLists.Iterator.Prev | datastructures/skiplist/skiplist.h:204-212 | to the next smaller key |
| SkipLists.Iterator.Seek | datastructures/skiplist/skiplist.h:214-216 | to the first key at or above the target |
| SkipLists.Iterator.SeekToFirst | datastructures/skiplist/skiplist.h:218-220 | to the smallest key |
| SkipLists.Iterator.SeekToLast | datastructures/skiplist/skiplist.h:222-227 | to the greatest key |
| Randoms.StepIsBijection | datastructures/skiplist/random.h:26-46 | multiplication by 16807 modulo 2^31-1 is a bijection on [1, 2^31-2] |
| Randoms.ReductionIsRemainder | datastructures/skiplist/random.h:35-44 | shift, add and conditional subtraction compute the remainder, never 0 and never 2^31-1 |
| Randoms.RunsArePureCycles | datastructures/skiplist/random.h:32-34 | from every good seed the numbers repeat from the first one on |
| Randoms.Random.constructor | datastructures/skiplist/random.h:20-25 | the seed is good, whatever number was given |
| Randoms.Random.Next | datastructures/skiplist/random.h:26-46 | the next number of the Lehmer sequence |
| Randoms.Random.OneIn | datastructures/skiplist/random.h:51-53 | whether the next number is a multiple |
| Arenas.NeededIsWholeIff | datastructures/skiplist/arena.h:99-101 | the padded size is a multiple of 16 exactly for multiples of 8, and less than 16 bytes are added |
| Arenas.Arena.AllocateNewBlock | datastructures/skiplist/arena.h:118-125 | one more block, and memory usage stays the sum over the blocks |
| Arenas.Arena.AllocateFallback | datastructures/skiplist/arena.h:79-96 | large requests get their own block; otherwise the rest given up is under 1024 bytes |
| Arenas.Arena.Allocate | datastructures/skiplist/arena.h:63-75 | the new region lies in a block, apart from all others; it comes out of the block in use exactly if it fits there |
| Arenas.Arena.AllocateAligned | datastructures/skiplist/arena.h:98-116 | an aligned, tagged region apart from all others, whose tags all still match, out of the block in use exactly if it fits there; succeeds exactly if the address is aligned and the request a multiple of 8 bytes |
| Mte.GranulesApart | utils/mte.hpp:23-36 | disjoint regions of whole granules share no granule |
| Mte.TagMemory.TagPointer | utils/mte.hpp:23-36 | afterwards the region's granules, and no others, have the pointer's tag |
| Mte.TagMemory.UntagPointer | utils/mte.hpp:38-48 | afterwards pointer and region's granules have tag 0, and no other granule changes |

## Left out

- Weak memory ordering: every atomic access is one sequentially consistent step.
- Spinning, `yield`, fairness and freedom from deadlock: not modelled; no progress is claimed for threads that run concurrently.
- BTrees.BTree.Insert: requires an absent key, because the source stores a second entry otherwise.
- BTrees.BTree.SplitNode: changes the three pages at once; the order of writes inside a page is the contract of the page class, and the order in which other threads may see them is that of the lock-coupling model.
- Pages.BTreeNode.SplitNode: slots and bytes are two arrays, not two views of one; the page invariant keeps the parts in use apart.
- Pages.BTreeNode.LowerBound: the restarts on torn reads are not part of it; in the lock-coupling model a reader of a page that changes may read anything and has to validate.
- ResidentSets.ResidentPageSet.Insert: its compare-and-swap always succeeds, as for one thread at a time; lost ones and what follows them are steps of `ResidentRuns`, which claims no end for an insert that others overtake again and again.
- SkipLists.SkipList.Insert: keys are byte strings compared as by strcmp; memory comes from Dafny's heap, not from the arena model.
- The B+-tree's operations work on page values instead of page objects, because every page operation is proved equal to a function on such values.
- `updateInPlace`, payload truncation in `lookup` and the second form of `lookup`: only add easy cases.
- Scans while other threads write: shared locks are held leaf by leaf, and the source makes no promise across leaves.
- Page eviction: no code shown evicts a page; `ResidentRuns` lets the holder of an exclusive lock remove the page and unlock it evicted, as `remove` and `unlockXEvicted` are there for. The clock of the resident set, `mmap` and huge pages are not modelled.
- Inner pages are never merged: the source leaves that as a no-op, and so does `Pages.BTreeNode.MergeNodes`.
- `maxCount * 1.5` is exact: floating-point rounding begins beyond 2^53 pages, where the size fails anyway.
- Reuse of page ids, several trees in one metadata page and the `dirty` flag: not modelled.
- The hash function of the resident set: nothing depends on its value.
- `GuardS(GuardS&&)`: unused in the source.
- The full period and the statistical quality of the generator, and `Skewed`.
- `Arena`'s destructor, CHERI bounds and the process-wide tag settings.
