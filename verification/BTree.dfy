/** The B+-tree's operations, run by one thread: the restart loops of the source never see
    a concurrent change, but insert still restarts after every split. */
module BTrees {
  import opened Options
  import opened Lex
  import opened Nodes
  import opened Splitting
  import opened Trees
  import opened TreeChanges
  import opened TreeGrowth
  import opened TreeSpace
  import opened Limits
  import opened Restarts
  import opened Scans

  /** Page 0 holds the metadata, that is, the root's page id. */
  const META: PID := 0

  /** AssertionFailed and OutOfPages stand for the source's assert and exit. */
  datatype Outcome = Finished | AssertionFailed | OutOfPages

  /** A legal tree whose pages have room for what they hold and whose page ids have all been
      handed out. */
  ghost predicate Good(t: Tree, allocCount: nat) {
    && Inv(t) && Spacious(t) && META !in t.pages
    && (forall p {:trigger p in t.pages} | p in t.pages :: p < allocCount)
  }

  lemma GrowRootGood(t: Tree, newRoot: PID, allocCount: nat)
    requires Good(t, allocCount) && newRoot !in t.pages && newRoot != NO_NEIGHBOUR && META < newRoot < allocCount
    ensures Good(GrowRoot(t, newRoot), allocCount) && Contents(GrowRoot(t, newRoot)) == Contents(t)
  {
    GrowRootKeeps(t, newRoot);
    GrowRootFits(t, newRoot);
    GrowRootBounded(t, newRoot, MAX_KV_SIZE);
  }

  lemma InsertGood(t: Tree, p: PID, k: Key, v: Bytes, allocCount: nat)
    requires Good(t, allocCount) && p in t.pages && t.pages[p].isLeaf && Covers(t.pages[p], k) && k !in Contents(t)
    requires HasSpaceFor(t.pages[p], |k|, |v|) && |k| + |v| <= MAX_KV_SIZE
    ensures var u := PutLeaf(t, p, Insert(t.pages[p], k, v));
            Good(u, allocCount) && Contents(u) == Contents(t)[k := v]
  {
    hide Contents, AllFit, AllBounded;
    InsertLeafContents(t, p, k, v);
    InsertFits(t, p, k, v);
    InsertBounded(t, p, k, v, MAX_KV_SIZE);
  }

  lemma RemoveGood(t: Tree, p: PID, i: nat, allocCount: nat)
    requires Good(t, allocCount) && p in t.pages && t.pages[p].isLeaf && i < |t.pages[p].keys|
    ensures var u := PutLeaf(t, p, RemoveAt(t.pages[p], i));
            Good(u, allocCount) && Contents(u) == Contents(t) - {t.pages[p].keys[i]}
  {
    hide Contents, AllFit, AllBounded;
    RemoveLeafContents(t, p, i);
    RemoveFits(t, p, i);
    RemoveBounded(t, p, i, MAX_KV_SIZE);
  }

  lemma SplitGood(t: Tree, par: PID, i: nat, node: PID, slot: nat, sep: Key, newPid: PID, allocCount: nat)
    requires Good(t, allocCount) && CanSplit(t, par, i, node, slot, sep, newPid) && newPid < allocCount
    requires Free(SplitLeft(t.pages[node], slot, sep, newPid)) >= 0 && Free(SplitRight(t.pages[node], slot, sep)) >= 0
    requires HasSpaceFor(t.pages[par], |sep|, PID_SIZE) && newPid != META && |sep| <= MAX_KV_SIZE
    ensures var u := SplitPage(t, par, node, slot, sep, newPid);
            Good(u, allocCount) && Contents(u) == Contents(t)
  {
    hide Contents, AllFit, AllBounded, Free, HasSpaceFor, SplitLeft, SplitRight, SplitPoint, LinksOk, LevelsApart,
         ChainOk, Rank, AreHalves, IsParentOfSplit;
    SplitKeeps(t, par, i, node, slot, sep, newPid);
    SplitFits(t, par, i, node, slot, sep, newPid);
    SplitBounded(t, par, i, node, slot, sep, newPid, MAX_KV_SIZE);
    SplitPageIsSplit(t, par, i, node, slot, sep, newPid);
  }

  lemma MergeGood(t: Tree, par: PID, pos: nat, node: PID, right: PID, allocCount: nat)
    requires Good(t, allocCount) && CanMerge(t, par, pos, node, right)
    requires MergeBound(t.pages[node], t.pages[right]) <= PAGE_SIZE
    ensures var u := MergePages(t, par, pos, node, right);
            Good(u, allocCount) && Contents(u) == Contents(t)
  {
    hide Contents, AllFit, AllBounded;
    MergeKeeps(t, par, pos, node, right);
    MergePagesIsMerge(t, par, pos, node, right);
    MergePagesFit(t, par, pos, node, right);
    MergePagesBounded(t, par, pos, node, right, MAX_KV_SIZE);
  }

  /** Every key with its payload is at most 792 long, and no key ends early after a smaller one. */
  ghost predicate Tame(t: Tree)
    requires Inv(t)
  {
    AllBounded(t, SAFE_KV_SIZE) && Harmless(Contents(t).Keys)
  }

  /** A descent for k has come to node, through parent unless node is the root. */
  ghost predicate Reached(t: Tree, parent: PID, node: PID, k: Key) {
    && Inv(t) && node in t.pages && Covers(t.pages[node], k)
    && if parent == META then node == t.root
       else parent in t.pages && !t.pages[parent].isLeaf && Covers(t.pages[parent], k)
            && Next(t.pages[parent], k) == node
  }

  /** All keys that node covers take the same way to it. */
  lemma ReachedForAll(t: Tree, parent: PID, node: PID, key: Key, k: Key)
    requires Reached(t, parent, node, key) && Covers(t.pages[node], k)
    ensures Reached(t, parent, node, k)
  {
    if parent != META {
      ParentCovers(t, parent, LowerBound(t.pages[parent].keys, key), node, k);
      PathPage(t, parent, k, node);
    }
  }

  /** t1 is t0, or t0 with the new root par on top of node. */
  ghost predicate Grows(t0: Tree, t1: Tree, grown: bool, par: PID, node: PID)
    requires Inv(t0)
  {
    if !grown then t1 == t0
    else par !in t0.pages && par != NO_NEIGHBOUR && node == t0.root && t1 == GrowRoot(t0, par)
  }

  /** node is about to be split below par: in the tree as it was, or below a root that has
      just been put on top of it. */
  ghost predicate SplitSetting(t0: Tree, t1: Tree, grown: bool, par: PID, node: PID, k: Key) {
    && Inv(t0) && Inv(t1) && par in t1.pages && !t1.pages[par].isLeaf && node in t0.pages && node in t1.pages
    && Covers(t1.pages[node], k) && Covers(t1.pages[par], k) && Next(t1.pages[par], k) == node
    && t1.pages[node] == t0.pages[node]
    && Grows(t0, t1, grown, par, node)
  }

  /** The separator belongs into par, and a new root has room for it. */
  lemma SeparatorPlace(t0: Tree, t1: Tree, grown: bool, par: PID, node: PID, k: Key, ordered: bool)
    requires SplitSetting(t0, t1, grown, par, node, k) && AllFit(t1) && |t1.pages[node].keys| > 1
    ensures Covers(t1.pages[par], Separator(t1.pages[node], ordered))
    ensures t1.level[node] + 1 == t1.level[par] && (!grown ==> t1 == t0)
    ensures grown ==> HasSpaceFor(t1.pages[par], |Separator(t1.pages[node], ordered)|, PID_SIZE)
  {
    var n := t1.pages[node];
    SeparatorInRange(n, ordered);
    ParentCovers(t1, par, LowerBound(t1.pages[par].keys, k), node, Separator(n, ordered));
    assert Fits(t1, node);
    if grown { FreshRootHasRoom(n, FindSeparator(n, ordered).slot); }
  }

  /** Whatever findSeparator picks, also at slot 0, lies in the page's range. */
  lemma SeparatorInRange(n: Node, ordered: bool)
    requires WF(n) && |n.keys| > 1
    ensures Covers(n, Separator(n, ordered))
  {
    var info := FindSeparator(n, ordered);
    var a := n.keys[info.slot];
    assert Covers(n, a);
    assert !info.truncated ==> Separator(n, ordered) == a;
    if info.truncated {
      var b, c := n.keys[info.slot + 1], info.len - 1;
      var sep := b[..info.len];
      assert Covers(n, b);
      FirstDifference(a, b, c);
      FirstDifference(a, sep, c);
      ProperPrefixLess(sep, b);
    }
  }

  /** The halves of a page of a good tree: the right one fits, and the left one exactly unless the
      page cannot be split. */
  lemma HalvesOfPage(t: Tree, p: PID, ordered: bool, newPid: PID, allocCount: nat)
    requires Good(t, allocCount) && p in t.pages && |t.pages[p].keys| > 1 && FindSeparator(t.pages[p], ordered).slot > 0
    ensures var n, slot, sep := t.pages[p], FindSeparator(t.pages[p], ordered).slot, Separator(t.pages[p], ordered);
            && WF(n) && SplitPoint(n, slot, sep) && |sep| <= MAX_KV_SIZE
            && Free(SplitRight(n, slot, sep)) >= 0
            && (Free(SplitLeft(n, slot, sep, newPid)) >= 0 <==> !CannotSplit(n, ordered))
  {
    hide Contents, AllFit, AllBounded, Free, Common, Rank, SplitLeft, SplitRight, SplitPoint, LinksOk, FenceCost,
         EntryBytes, LevelsApart, ChainOk, Separator;
    var n := t.pages[p];
    PageIsSpacious(t, p, ordered);
    SeparatorIsSplitPoint(n, ordered);
    RightFits(n, ordered);
    if n.isLeaf { LeafLeftFitsIff(n, ordered, newPid); } else { InnerLeftFits(n, ordered, newPid); }
  }

  lemma SlotZeroCannotSplit(t: Tree, p: PID, ordered: bool, allocCount: nat)
    requires Good(t, allocCount) && p in t.pages && |t.pages[p].keys| > 1
    ensures |t.pages[p].keys| == |t.pages[p].pays|
    ensures FindSeparator(t.pages[p], ordered).slot == 0 ==> CannotSplit(t.pages[p], ordered)
  {
    hide Contents, AllFit, AllBounded, LinksOk, LevelsApart, ChainOk;
  }

  lemma CanSplitHere(t: Tree, par: PID, i: nat, node: PID, slot: nat, sep: Key, newPid: PID, allocCount: nat)
    requires Good(t, allocCount) && par in t.pages && !t.pages[par].isLeaf && i <= |t.pages[par].keys|
             && Child(t.pages[par], i) == node
    requires node in t.pages && SplitPoint(t.pages[node], slot, sep) && newPid !in t.pages && newPid != NO_NEIGHBOUR
    ensures CanSplit(t, par, i, node, slot, sep, newPid) && node in t.level && WF(t.pages[par]) && WF(t.pages[node])
  {}

  lemma SeparatorOfPage(t: Tree, p: PID, ordered: bool)
    requires AllBounded(t, SAFE_KV_SIZE) && p in t.pages && |t.pages[p].keys| > 1
    ensures |Separator(t.pages[p], ordered)| <= SAFE_KV_SIZE
  {
    assert BoundedAt(t, p, SAFE_KV_SIZE);
    SeparatorBounded(t.pages[p], ordered, SAFE_KV_SIZE);
  }

  /** In a tame tree a page with enough entries can be split. */
  lemma TameSplits(t: Tree, p: PID, ordered: bool, allocCount: nat)
    requires Good(t, allocCount) && Tame(t) && p in t.pages && Splittable(t.pages[p])
    ensures |t.pages[p].keys| == |t.pages[p].pays| && !CannotSplit(t.pages[p], ordered)
  {
    hide Contents, AllBounded, AllFit, LinksOk, LevelsApart, ChainOk, Harmless, FenceCost, EntryBytes, Separator,
         ShortNextKey, Free;
    var n := t.pages[p];
    if n.isLeaf {
      PageIsSpacious(t, p, ordered);
      TameLeafIsHarmless(t, p, FindSeparator(n, ordered).slot);
      LeafLeftFits(n, ordered, 0);
      LeafLeftFitsIff(n, ordered, 0);
    }
  }

  lemma TameLeafIsHarmless(t: Tree, p: PID, slot: nat)
    requires Inv(t) && Harmless(Contents(t).Keys) && p in t.pages && t.pages[p].isLeaf && slot + 1 < |t.pages[p].keys|
    ensures !ShortNextKey(t.pages[p], slot)
  {
    hide Contents, EndsEarly, ShortNextKey;
    EntryInMap(t, p, slot);
    EntryInMap(t, p, slot + 1);
    HarmlessHasNoShortNextKey(t.pages[p], slot, Contents(t).Keys);
  }

  /** A split lowers the measure of every key that the split page covers, below an old
      parent as well as below a new root. */
  lemma SplitProgress(t0: Tree, t1: Tree, grown: bool, par: PID, i: nat, node: PID, slot: nat, sep: Key, newPid: PID,
        k: Key)
    requires Inv(t0) && Grows(t0, t1, grown, par, node) && (grown ==> i == 0)
    requires CanSplit(t1, par, i, node, slot, sep, newPid)
    requires Covers(t1.pages[node], k) && |t1.pages[node].keys| > 1
    requires Inv(SplitPage(t1, par, node, slot, sep, newPid))
    ensures Measure(SplitPage(t1, par, node, slot, sep, newPid), k) < Measure(t0, k)
  {
    var u := SplitPage(t1, par, node, slot, sep, newPid);
    SplitPageIsSplit(t1, par, i, node, slot, sep, newPid);
    SplitShrinks(t1, par, i, node, slot, sep, newPid);
    if grown {
      RootSplitLowersMeasure(t0, par, u, sep, newPid, k);
    } else {
      SplitLowersMeasure(t0, u, par, i, node, sep, newPid, k);
    }
  }

  lemma SplitShrinks(t: Tree, par: PID, i: nat, node: PID, slot: nat, sep: Key, newPid: PID)
    requires CanSplit(t, par, i, node, slot, sep, newPid)
    requires IsSplit(t, SplitPage(t, par, node, slot, sep, newPid), par, i, node, sep, newPid)
    ensures var u := SplitPage(t, par, node, slot, sep, newPid);
            Shrunk(t.pages[node], u.pages[node]) && Shrunk(t.pages[node], u.pages[newPid])
  {
    assert par != node by { assert Linked(t, par, i); }
  }

  /** The inner page from which a descent for k gets to its leaf; `parent` if there is none below p. */
  ghost function LastInner(t: Tree, p: PID, k: Key, parent: PID): (par: PID)
    requires Inv(t) && p in t.pages && Covers(t.pages[p], k)
    ensures par == parent || (par in t.pages && !t.pages[par].isLeaf)
    decreases if p in t.level then t.level[p] else 0
  {
    if t.pages[p].isLeaf then parent else
      HopCovers(t, p, k);
      LastInner(t, Next(t.pages[p], k), k, p)
  }

  /** After k's entry is gone its leaf is underfull, and it has a right sibling below par. */
  predicate TriesMerge(t: Tree, par: PID, leaf: PID, k: Key)
    requires leaf in t.pages && Has(t.pages[leaf], k) && |t.pages[leaf].keys| == |t.pages[leaf].pays|
  {
    var n := t.pages[leaf];
    var slot := LowerBound(n.keys, k);
    && Free(n) + (|n.keys[slot]| - Prefix(n) + |n.pays[slot]|) >= UNDER_FULL_SIZE
    && par != META && par in t.pages && |t.pages[par].keys| >= 2
    && LowerBound(t.pages[par].keys, k) + 1 < |t.pages[par].keys|
  }

  /** The sibling is not too full, and the estimate fits a page. */
  predicate TakesRight(n: Node, right: Node) {
    Free(right) >= PAGE_SIZE - UNDER_FULL_SIZE && MergeBound(n, right) <= PAGE_SIZE
  }

  /** The tree without the entry at slot, and with the leaf's right sibling merged into it if that fits. */
  ghost function DroppedAndMerged(t: Tree, par: PID, pos: nat, leaf: PID, right: PID, slot: nat): Tree
    requires Inv(t) && par in t.pages && !t.pages[par].isLeaf && pos + 1 <= |t.pages[par].keys|
    requires leaf in t.pages && t.pages[leaf].isLeaf && right in t.pages && slot < |t.pages[leaf].keys|
  {
    var n := RemoveAt(t.pages[leaf], slot);
    var u := PutLeaf(t, leaf, n);
    if TakesRight(n, t.pages[right]) then MergePages(u, par, pos, leaf, right) else u
  }

  /** The tree after remove: without the entry, and with its leaf merged if it is underfull. */
  ghost function Removed(t: Tree, k: Key): Tree
    requires Inv(t) && META !in t.pages
  {
    var leaf, par := FindLeaf(t, t.root, k), LastInner(t, t.root, k, META);
    var n := t.pages[leaf];
    if !Has(n, k) then t
    else if TriesMerge(t, par, leaf, k) then
      var pos := LowerBound(t.pages[par].keys, k);
      assert Linked(t, par, pos + 1);
      DroppedAndMerged(t, par, pos, leaf, Child(t.pages[par], pos + 1), LowerBound(n.keys, k))
    else PutLeaf(t, leaf, RemoveAt(n, LowerBound(n.keys, k)))
  }

  /** The leaf of the key in slot s, which is child i of par, and the next child, which is not the last
      one, belong together when the key is gone: 3072 bytes of the leaf are free, not counting the
      slot, so are 1024 of its sibling, and the estimate for both together fits a page. */
  ghost predicate MergeDue(t: Tree, par: PID, i: nat, s: nat, right: PID, k: Key)
    requires Inv(t)
  {
    && par in t.pages && !t.pages[par].isLeaf && i + 1 < |t.pages[par].keys|
    && Child(t.pages[par], i) == FindLeaf(t, t.root, k) && Child(t.pages[par], i + 1) == right && right in t.pages
    && var n := t.pages[FindLeaf(t, t.root, k)];
       && s < |n.keys| && n.keys[s] == k
       && Free(RemoveAt(n, s)) - SLOT_SIZE >= 3072
       && Free(t.pages[right]) >= 1024
       && MergeBound(RemoveAt(n, s), t.pages[right]) <= 4096
  }

  /** Exactly then remove gives up the sibling's page. */
  ghost predicate MergesIfDue(t: Tree, u: Tree, k: Key)
    requires Inv(t)
  {
    && (forall par, i, s, right | MergeDue(t, par, i, s, right, k) :: u.pages.Keys == t.pages.Keys - {right})
    && ((forall par, i, s, right :: !MergeDue(t, par, i, s, right, k)) ==> u.pages.Keys == t.pages.Keys)
  }

  /** A descent's last inner page is the parent of its leaf. */
  lemma {:induction false} LastInnerLeads(t: Tree, p: PID, k: Key, parent: PID)
    requires Inv(t) && p in t.pages && Covers(t.pages[p], k) && !t.pages[p].isLeaf
    ensures var par := LastInner(t, p, k, parent);
            && par in t.pages && !t.pages[par].isLeaf && Covers(t.pages[par], k)
            && Next(t.pages[par], k) == FindLeaf(t, p, k)
    decreases t.level[p]
  {
    hide LinksOk, LevelsApart, ChainOk, LowerBound, DecodePid;
    HopCovers(t, p, k);
    var c := Next(t.pages[p], k);
    if !t.pages[c].isLeaf { LastInnerLeads(t, c, k, p); }
  }

  /** The parent in MergeDue is the one that remove has come through. */
  lemma DuePlace(t: Tree, par: PID, i: nat, s: nat, right: PID, k: Key)
    requires Inv(t) && META !in t.pages && MergeDue(t, par, i, s, right, k)
    ensures par == LastInner(t, t.root, k, META) && i == LowerBound(t.pages[par].keys, k)
    ensures Has(t.pages[FindLeaf(t, t.root, k)], k) && s == LowerBound(t.pages[FindLeaf(t, t.root, k)].keys, k)
  {
    hide LinksOk, LevelsApart, ChainOk, DecodePid, Free, MergeBound;
    var leaf := FindLeaf(t, t.root, k);
    assert t.root != leaf by { ChildIsNoRoot(t, par, i); }
    LastInnerLeads(t, t.root, k, META);
    var q := LastInner(t, t.root, k, META);
    OneParent(t, par, i, q, LowerBound(t.pages[q].keys, k));
    LowerBoundUnique(t.pages[leaf].keys, k, s);
  }

  lemma ChildIsNoRoot(t: Tree, par: PID, i: nat)
    requires Inv(t) && par in t.pages && !t.pages[par].isLeaf && i <= |t.pages[par].keys|
    ensures Child(t.pages[par], i) != t.root
  {
    assert Linked(t, par, i);
  }

  lemma RemovedMergesIfDue(t: Tree, k: Key)
    requires Inv(t) && META !in t.pages
    ensures MergesIfDue(t, Removed(t, k), k)
  {
    hide LinksOk, LevelsApart, ChainOk, DecodePid, MergeBound, MergeDue, LowerBound;
    var u := Removed(t, k);
    forall par, i, s, right | MergeDue(t, par, i, s, right, k) ensures u.pages.Keys == t.pages.Keys - {right} {
      DuePlace(t, par, i, s, right, k);
      DueMerges(t, par, i, s, right, k);
    }
    if u.pages.Keys != t.pages.Keys { UndueKeeps(t, k); }
  }

  lemma DueMerges(t: Tree, par: PID, i: nat, s: nat, right: PID, k: Key)
    requires Inv(t) && META !in t.pages && MergeDue(t, par, i, s, right, k)
    requires par == LastInner(t, t.root, k, META) && i == LowerBound(t.pages[par].keys, k)
    requires Has(t.pages[FindLeaf(t, t.root, k)], k) && s == LowerBound(t.pages[FindLeaf(t, t.root, k)].keys, k)
    ensures Removed(t, k).pages.Keys == t.pages.Keys - {right}
  {
    hide LinksOk, LevelsApart, ChainOk, DecodePid, LowerBound, TriesMerge, TakesRight, MergeDue, MergedParent, Merged;
    DueIsTried(t, par, i, s, right, k);
    SiblingsDiffer(t, par, i);
  }

  lemma DueIsTried(t: Tree, par: PID, i: nat, s: nat, right: PID, k: Key)
    requires Inv(t) && META !in t.pages && MergeDue(t, par, i, s, right, k)
    requires i == LowerBound(t.pages[par].keys, k)
    requires Has(t.pages[FindLeaf(t, t.root, k)], k) && s == LowerBound(t.pages[FindLeaf(t, t.root, k)].keys, k)
    ensures par in t.pages && !t.pages[par].isLeaf && i + 1 < |t.pages[par].keys| && right in t.pages
    ensures Child(t.pages[par], i + 1) == right && Child(t.pages[par], i) == FindLeaf(t, t.root, k)
    ensures var leaf := FindLeaf(t, t.root, k);
            && |t.pages[leaf].keys| == |t.pages[leaf].pays| && s < |t.pages[leaf].keys|
            && TriesMerge(t, par, leaf, k) && TakesRight(RemoveAt(t.pages[leaf], s), t.pages[right])
  {
    hide LinksOk, LevelsApart, ChainOk, DecodePid, LowerBound, Free, MergeBound, Prefix;
    RemoveSpace(t.pages[FindLeaf(t, t.root, k)], s);
  }

  lemma SiblingsDiffer(t: Tree, par: PID, i: nat)
    requires Inv(t) && par in t.pages && !t.pages[par].isLeaf && i + 1 <= |t.pages[par].keys|
    ensures Child(t.pages[par], i) != Child(t.pages[par], i + 1)
    ensures Child(t.pages[par], i) != par && Child(t.pages[par], i + 1) != par
    ensures Child(t.pages[par], i) in t.pages && Child(t.pages[par], i + 1) in t.pages
  {
    assert Linked(t, par, i) && Linked(t, par, i + 1);
    assert Covers(t.pages[par], t.pages[par].keys[i]);
  }

  lemma UndueKeeps(t: Tree, k: Key)
    requires Inv(t) && META !in t.pages && Removed(t, k).pages.Keys != t.pages.Keys
    ensures exists par, i, s, right :: MergeDue(t, par, i, s, right, k)
  {
    hide LinksOk, LevelsApart, ChainOk, DecodePid, LowerBound, SpaceUsed, MergeBound;
    var leaf, par := FindLeaf(t, t.root, k), LastInner(t, t.root, k, META);
    var s := LowerBound(t.pages[leaf].keys, k);
    assert Has(t.pages[leaf], k) && TriesMerge(t, par, leaf, k);
    assert t.root != leaf;
    LastInnerLeads(t, t.root, k, META);
    var i := LowerBound(t.pages[par].keys, k);
    RemoveSpace(t.pages[leaf], s);
    SiblingsDiffer(t, par, i);
    assert MergeDue(t, par, i, s, Child(t.pages[par], i + 1), k);
  }

  // ---------------------------------------------------------------- one attempt to make room

  /** t, or t below a new root: what is left when an attempt fails. */
  ghost predicate SameOrRaised(t: Tree, u: Tree) {
    u == t || (t.root in t.level && exists par :: u == GrowRoot(t, par))
  }

  /** One page has been split, or some page that has to be split cannot, or there are no more pages. */
  ghost predicate Attempted(t: Tree, u: Tree, a: Ask, r: Outcome)
    requires Inv(t)
  {
    Inv(u) &&
    match r
    case Finished => SplitsTo(t, u, a)
    case AssertionFailed => SameOrRaised(t, u) && Stuck(u, a)
    case OutOfPages => SameOrRaised(t, u)
  }

  /** Each new page has taken one id. A failure may have taken one more; without more pages it is the
      first one that does not exist. */
  ghost predicate Allocated(before: Tree, after: Tree, first: nat, next: nat, virtCount: nat, r: Outcome) {
    match r
    case Finished => Gained(before, after, first, next)
    case AssertionFailed =>
      Gained(before, after, first, next) || (next > 0 && Gained(before, after, first, next - 1))
    case OutOfPages => next > 0 && virtCount < next && Gained(before, after, first, next - 1)
  }

  lemma AllocatedAfter(a: Tree, b: Tree, c: Tree, i: nat, j: nat, k: nat, virtCount: nat, r: Outcome)
    requires Gained(a, b, i, j) && Allocated(b, c, j, k, virtCount, r)
    ensures Allocated(a, c, i, k, virtCount, r)
  {}

  /** A failed attempt that changes nothing has taken at most one id. */
  lemma FailureGains(t: Tree, first: nat, next: nat, virtCount: nat, r: Outcome)
    requires !r.Finished? && first <= next <= first + 1 && (r.OutOfPages? ==> next == first + 1 && virtCount < next)
    ensures Allocated(t, t, first, next, virtCount, r)
  {}

  lemma SuccessGains(before: Tree, after: Tree, first: nat, next: nat, virtCount: nat)
    requires Gained(before, after, first, next)
    ensures Allocated(before, after, first, next, virtCount, Finished)
  {}

  lemma AllocatedGains(before: Tree, after: Tree, first: nat, next: nat, virtCount: nat)
    requires Allocated(before, after, first, next, virtCount, Finished)
    ensures Gained(before, after, first, next)
  {}

  lemma NothingGained(t: Tree, i: nat)
    ensures Gained(t, t, i, i)
  {}

  lemma RaisedGains(t0: Tree, t1: Tree, grown: bool, par: PID, node: PID, first: nat, next: nat)
    requires Inv(t0) && Grows(t0, t1, grown, par, node) && next == first + (if grown then 1 else 0)
    requires grown ==> par == first
    ensures Gained(t0, t1, first, next)
  {}

  lemma SplitGains(t: Tree, par: PID, i: nat, node: PID, slot: nat, sep: Key, newPid: PID)
    requires CanSplit(t, par, i, node, slot, sep, newPid)
    ensures Gained(t, SplitPage(t, par, node, slot, sep, newPid), newPid, newPid + 1)
  {
    SplitPageIsSplit(t, par, i, node, slot, sep, newPid);
  }

  lemma NowStuck(t0: Tree, t1: Tree, grown: bool, par: PID, node: PID, a: Ask)
    requires SplitSetting(t0, t1, grown, par, node, a.key) && MustSplit(t0, node, a)
    requires CannotSplit(t1.pages[node], a.ordered)
    ensures Attempted(t0, t1, a, AssertionFailed)
  {
    hide MustSplit, CannotSplit, LinksOk, LevelsApart, ChainOk;
    MustSplitStays(t0, t1, node, a);
    assert StuckAt(t1, node, a);
  }

  lemma SettingKeeps(t0: Tree, t1: Tree, grown: bool, par: PID, node: PID, k: Key)
    requires SplitSetting(t0, t1, grown, par, node, k)
    ensures Inv(t0) && Inv(t1) && node in t0.pages && node in t1.pages && t1.pages[node] == t0.pages[node]
            && Covers(t0.pages[node], k)
    ensures par in t1.pages && !t1.pages[par].isLeaf && Covers(t1.pages[par], k) && WF(t1.pages[par])
            && WF(t1.pages[node]) && Next(t1.pages[par], k) == node
  {}

  /** How an insert ends after its last attempt: in the leaf, which has room by then, or for one of
      two reasons. */
  ghost predicate Ends(t: Tree, u: Tree, a: Ask, val: Bytes, r: Outcome)
    requires Inv(t)
  {
    Inv(u) &&
    match r
    case Finished =>
      var leaf := FindLeaf(t, t.root, a.key);
      HasSpaceFor(t.pages[leaf], |a.key|, |val|) && u == PutLeaf(t, leaf, Nodes.Insert(t.pages[leaf], a.key, val))
    case AssertionFailed => SameOrRaised(t, u) && Stuck(u, a)
    case OutOfPages => SameOrRaised(t, u)
  }

  lemma FullLeafMustSplit(t: Tree, p: PID, a: Ask)
    requires Inv(t) && p in t.pages && t.pages[p].isLeaf && Covers(t.pages[p], a.key)
    requires !HasSpaceFor(t.pages[p], |a.key|, a.valLen)
    ensures MustSplit(t, p, a)
  {}

  lemma TamePageIsBounded(t: Tree, p: PID)
    requires Inv(t) && Tame(t) && p in t.pages
    ensures Bounded(t.pages[p], SAFE_KV_SIZE)
  {
    assert BoundedAt(t, p, SAFE_KV_SIZE);
  }

  /** run leads from one tree to the other, attempt by attempt, and each page gained took one id. */
  ghost predicate Restarted(run: seq<Tree>, before: Tree, after: Tree, a: Ask, first: nat, next: nat) {
    Attempts(run, a) && run[0] == before && run[|run| - 1] == after && Gained(before, after, first, next)
  }

  /** The whole insertion: attempts, and after the last one its end. */
  ghost predicate Inserted(run: seq<Tree>, before: Tree, after: Tree, a: Ask, val: Bytes, r: Outcome) {
    Attempts(run, a) && run[0] == before && Ends(run[|run| - 1], after, a, val, r)
  }

  lemma StartOver(t: Tree, a: Ask, first: nat)
    requires Inv(t)
    ensures Restarted([t], t, t, a, first, first)
  {
    hide Inv;
  }

  lemma AttemptFollows(run: seq<Tree>, t0: Tree, t: Tree, u: Tree, a: Ask, val: Bytes, r: Outcome, i: nat, j: nat,
        k: nat, virtCount: nat)
    requires Inv(t) && Restarted(run, t0, t, a, i, j) && Attempted(t, u, a, r) && Allocated(t, u, j, k, virtCount, r)
    ensures Allocated(t0, u, i, k, virtCount, r)
    ensures if r.Finished? then Restarted(run + [u], t0, u, a, i, k) else Inserted(run, t0, u, a, val, r)
  {
    hide Inv, Gained, SplitsTo, Stuck, SameOrRaised;
    AllocatedAfter(t0, t, u, i, j, k, virtCount, r);
    if r.Finished? {
      OneMoreAttempt(run, u, a);
      AllocatedGains(t0, u, i, k, virtCount);
    }
  }

  lemma EntryFollows(run: seq<Tree>, t0: Tree, t: Tree, u: Tree, a: Ask, val: Bytes, i: nat, j: nat, virtCount: nat)
    requires Inv(t) && Inv(u) && Restarted(run, t0, t, a, i, j) && a.valLen == |val|
    requires var leaf := FindLeaf(t, t.root, a.key);
             HasSpaceFor(t.pages[leaf], |a.key|, |val|)
                 && u == PutLeaf(t, leaf, Nodes.Insert(t.pages[leaf], a.key, val))
    ensures Allocated(t0, u, i, j, virtCount, Finished) && Inserted(run, t0, u, a, val, Finished)
    ensures Inv(t0) && !Stuck(t0, a)
  {
    hide LinksOk, LevelsApart, ChainOk, HasSpaceFor, SplitsTo, Stuck;
    KeysStay(t0, t, u, i, j);
    FirstIsLegal(run, a);
    if Stuck(t0, a) { StuckForGood(run, a, |run| - 1); }
  }

  lemma FirstIsLegal(run: seq<Tree>, a: Ask)
    requires Attempts(run, a)
    ensures Inv(run[0])
  {}

  lemma TameStays(t: Tree, u: Tree)
    requires Inv(t) && Inv(u) && Tame(t) && AllBounded(u, SAFE_KV_SIZE) && Contents(u) == Contents(t)
    ensures Tame(u)
  {}

  lemma TameIsBounded(t: Tree)
    requires Inv(t) && Tame(t)
    ensures AllBounded(t, SAFE_KV_SIZE)
  {}

  lemma KeysStay(a: Tree, b: Tree, c: Tree, i: nat, j: nat)
    requires Gained(a, b, i, j) && c.pages.Keys == b.pages.Keys
    ensures Gained(a, c, i, j)
  {}

  lemma NowOut(t: Tree, u: Tree, a: Ask)
    requires Inv(t) && Inv(u) && SameOrRaised(t, u)
    ensures Attempted(t, u, a, OutOfPages)
  {}

  lemma SettingIsRaised(t0: Tree, t1: Tree, grown: bool, par: PID, node: PID, k: Key)
    requires SplitSetting(t0, t1, grown, par, node, k)
    ensures SameOrRaised(t0, t1) && (grown <==> node == t0.root) && t1 == Raised(t0, grown, par)
  {
    hide LevelsApart, ChainOk;
    if !grown { HopCovers(t0, par, k); }
  }

  lemma NowSplit(t0: Tree, t1: Tree, grown: bool, par: PID, node: PID, newPid: PID, u: Tree, a: Ask)
    requires SplitSetting(t0, t1, grown, par, node, a.key) && MustSplit(t0, node, a)
    requires !CannotSplit(t1.pages[node], a.ordered) && newPid !in t1.pages && Inv(u) && |t1.pages[node].keys| > 1
    requires var slot, sep := FindSeparator(t1.pages[node], a.ordered).slot, Separator(t1.pages[node], a.ordered);
             HasSpaceFor(t1.pages[par], |sep|, PID_SIZE) && node in t1.level
                 && u == SplitPage(t1, par, node, slot, sep, newPid)
    ensures Attempted(t0, u, a, Finished)
  {
    hide MustSplit, CannotSplit, LinksOk, LevelsApart, ChainOk, HasSpaceFor, SplitPage, Separator;
    SettingIsRaised(t0, t1, grown, par, node, a.key);
    assert SplitStep(t0, u, a, node, par, newPid);
  }

  lemma GoodIsInv(t: Tree, allocCount: nat)
    requires Good(t, allocCount)
    ensures Inv(t)
  {}

  /** What a successful split has done. */
  lemma SplitSucceeds(t0: Tree, t1: Tree, grown: bool, par: PID, i: nat, node: PID, ordered: bool, newPid: PID,
        u: Tree, a: Ask)
    requires SplitSetting(t0, t1, grown, par, node, a.key) && Inv(u) && i == LowerBound(t1.pages[par].keys, a.key)
    requires |t1.pages[node].keys| > 1 && !CannotSplit(t1.pages[node], ordered)
    requires var slot, sep := FindSeparator(t1.pages[node], ordered).slot, Separator(t1.pages[node], ordered);
             && CanSplit(t1, par, i, node, slot, sep, newPid) && HasSpaceFor(t1.pages[par], |sep|, PID_SIZE)
             && node in t1.level && u == SplitPage(t1, par, node, slot, sep, newPid)
    ensures Gained(t1, u, newPid, newPid + 1) && Measure(u, a.key) < Measure(t0, a.key)
    ensures AllBounded(t1, SAFE_KV_SIZE) ==> AllBounded(u, SAFE_KV_SIZE)
    ensures a.ordered == ordered && MustSplit(t0, node, a) ==> Attempted(t0, u, a, Finished)
  {
    hide MustSplit, CannotSplit, Attempted, Gained, HasSpaceFor, SplitPage, Separator, Measure, LinksOk, LevelsApart,
         ChainOk, AllBounded, Rank;
    var slot, sep := FindSeparator(t1.pages[node], ordered).slot, Separator(t1.pages[node], ordered);
    SplitGains(t1, par, i, node, slot, sep, newPid);
    SplitProgress(t0, t1, grown, par, i, node, slot, sep, newPid, a.key);
    if AllBounded(t1, SAFE_KV_SIZE) {
      SeparatorOfPage(t1, node, ordered);
      SplitBounded(t1, par, i, node, slot, sep, newPid, SAFE_KV_SIZE);
    }
    if a.ordered == ordered && MustSplit(t0, node, a) { NowSplit(t0, t1, grown, par, node, newPid, u, a); }
  }

  lemma ShortIsNotSplittable(n: Node)
    requires |n.keys| <= 1
    ensures !Splittable(n)
  {}

  lemma ShortCannotSplit(n: Node, ordered: bool)
    requires |n.keys| <= 1 && |n.keys| == |n.pays|
    ensures CannotSplit(n, ordered)
  {}

  lemma ParentMustSplit(t: Tree, par: PID, node: PID, a: Ask)
    requires Inv(t) && par in t.pages && !t.pages[par].isLeaf && Covers(t.pages[par], a.key)
    requires node in t.pages && Covers(t.pages[node], a.key) && Next(t.pages[par], a.key) == node
    requires MustSplit(t, node, a) && |t.pages[node].keys| > 1
    requires !HasSpaceFor(t.pages[par], |Separator(t.pages[node], a.ordered)|, PID_SIZE)
    ensures MustSplit(t, par, a)
  {}

  class BTree {
    var pages: map<PID, Node>
    var root: PID
    var allocCount: nat
    const virtCount: nat
    var splitOrdered: bool
    ghost var level: map<PID, nat>

    ghost function T(): Tree
      reads this
    {
      Tree(pages, root, level)
    }

    ghost predicate Valid()
      reads this
    {
      Good(T(), allocCount) && 0 < allocCount && virtCount <= NO_NEIGHBOUR
    }

    ghost function Map(): map<Key, Bytes>
      requires Valid()
      reads this
    {
      Contents(T())
    }

    /** A tree starts as one empty leaf. */
    constructor (virtCount: nat)
      requires 2 <= virtCount <= NO_NEIGHBOUR
      ensures Valid() && Map() == map[] && !splitOrdered
      ensures pages.Keys == {1} && allocCount == 2 && this.virtCount == virtCount
    {
      this.virtCount := virtCount;
      pages := map[1 := Node(true, [], [], [], [], NO_NEIGHBOUR)];
      root := 1;
      level := map[1 := 0];
      allocCount := 2;
      splitOrdered := false;
      new;
      assert AllKeys(T()) == {};
      assert Free(pages[1]) >= 0;
    }

    /** Descends to the leaf whose range contains the key, remembering the last inner page. */
    method Descend(key: Key) returns (parent: PID, node: PID)
      requires Valid()
      ensures node in pages && node == FindLeaf(T(), root, key)
      ensures Reached(T(), parent, node, key)
      ensures parent == LastInner(T(), root, key, META)
    {
      parent, node := META, root;
      while !pages[node].isLeaf
        invariant Reached(T(), parent, node, key)
        invariant LastInner(T(), node, key, parent) == LastInner(T(), root, key, META)
        invariant FindLeaf(T(), node, key) == FindLeaf(T(), root, key)
        decreases level[node]
      {
        HopCovers(T(), node, key);
        parent := node;
        node := Next(pages[parent], key);
      }
    }

    /** lookup: what the map holds for the key. */
    method Lookup(key: Key) returns (res: Option<Bytes>)
      requires Valid()
      ensures res == MapGet(Map(), key)
    {
      var parent, node := Descend(key);
      LookupMeetsContents(T(), key);
      res := LeafGet(pages[node], key);
    }

    method AllocPage() returns (pid: Option<PID>)
      requires Valid()
      modifies this`allocCount
      ensures Valid() && allocCount == old(allocCount) + 1
      ensures pid == if old(allocCount) < virtCount then Some(old(allocCount)) else None
      ensures pid.Some? ==>
              pid.value !in pages && pid.value != NO_NEIGHBOUR && pid.value != META && pid.value < allocCount
    {
      var next := allocCount;
      allocCount := allocCount + 1;
      pid := if next < virtCount then Some(next) else None;
    }

    /** An empty page above the root. */
    method MakeRoot() returns (pid: Option<PID>)
      requires Valid()
      modifies this
      ensures Valid() && allocCount == old(allocCount) + 1
      ensures pid == if old(allocCount) < virtCount then Some(old(allocCount)) else None
      ensures pid.None? ==> T() == old(T())
      ensures pid.Some? ==>
              pid.value !in old(pages) && pid.value != NO_NEIGHBOUR && T() == GrowRoot(old(T()), pid.value)
      ensures Map() == old(Map()) && splitOrdered == old(splitOrdered)
    {
      pid := AllocPage();
      if pid.Some? {
        GrowRootGood(T(), pid.value, allocCount);
        PutRoot(pid.value);
      }
    }

    method PutRoot(pid: PID)
      requires root in level
      modifies this`pages, this`level, this`root
      ensures T() == old(GrowRoot(T(), pid))
    {
      level := level[pid := level[root] + 1];
      pages := pages[pid := Node(false, [], [], [], [], root)];
      root := pid;
    }

    /** splitNode: puts the upper half into a new page and the separator into the parent.
        Fails where the source asserts: at slot 0, and if a half does not fit its page. */
    method SplitNode(par: PID, ghost i: nat, node: PID, info: SeparatorInfo, sep: Key) returns (r: Outcome, newPid: PID)
      requires Valid() && par in pages && !pages[par].isLeaf && i <= |pages[par].keys| && Child(pages[par], i) == node
               && node in pages
      requires |pages[node].keys| > 1 && info == FindSeparator(pages[node], splitOrdered)
               && sep == Separator(pages[node], splitOrdered)
      requires HasSpaceFor(pages[par], |sep|, PID_SIZE)
      modifies this
      ensures Valid() && Map() == old(Map()) && splitOrdered == old(splitOrdered)
      ensures r.Finished? ==> old(CanSplit(T(), par, i, node, info.slot, sep, newPid))
                              && T() == old(SplitPage(T(), par, node, info.slot, sep, newPid))
                              && newPid == old(allocCount) && info.slot > 0
      ensures !r.Finished? ==> T() == old(T())
      ensures if r.Finished? then !CannotSplit(old(pages)[node], splitOrdered)
              else r.AssertionFailed? ==> CannotSplit(old(pages)[node], splitOrdered)
      ensures r.OutOfPages? <==> info.slot > 0 && virtCount <= old(allocCount)
      ensures allocCount == old(allocCount) + if info.slot == 0 then 0 else 1
    {
      hide Good, Contents, SplitPage, SplitLeft, SplitRight, Separator, Free, SplitPoint, LowerBound, DecodePid,
           CannotSplit;
      var n := pages[node];
      newPid := 0;
      SlotZeroCannotSplit(T(), node, splitOrdered, allocCount);
      if info.slot == 0 { return AssertionFailed, newPid; }
      var pid := AllocPage();
      if pid.None? { return OutOfPages, newPid; }
      newPid := pid.value;
      HalvesOfPage(T(), node, splitOrdered, newPid, allocCount);
      if Free(SplitLeft(n, info.slot, sep, newPid)) < 0 || Free(SplitRight(n, info.slot, sep)) < 0 {
        return AssertionFailed, newPid;
      }
      CanSplitHere(T(), par, i, node, info.slot, sep, newPid, allocCount);
      SplitGood(T(), par, i, node, info.slot, sep, newPid, allocCount);
      Splits(par, node, info.slot, sep, newPid);
      r := Finished;
    }

    /** The three page writes of a split. */
    method Splits(par: PID, node: PID, slot: nat, sep: Key, newPid: PID)
      requires par in pages && node in pages && node in level && WF(pages[par]) && WF(pages[node])
               && slot < |pages[node].keys|
      modifies this`pages, this`level
      ensures T() == old(SplitPage(T(), par, node, slot, sep, newPid))
    {
      var n := pages[node];
      pages := pages[node := SplitLeft(n, slot, sep, newPid)]
                    [newPid := SplitRight(n, slot, sep)]
                    [par := SplitParent(pages[par], sep, node, newPid)];
      level := level[newPid := level[node]];
    }

    /** The page below which node is going to be split: its parent, or a new root. */
    method ParentFor(node: PID, parent: PID, ghost k: Key) returns (par: Option<PID>)
      requires Valid() && Reached(T(), parent, node, k)
      modifies this
      ensures Valid() && Map() == old(Map()) && splitOrdered == old(splitOrdered)
      ensures par.None? ==> T() == old(T()) && allocCount == old(allocCount) + 1 && virtCount < allocCount
      ensures par.Some? ==> SplitSetting(old(T()), T(), parent == META, par.value, node, k)
      ensures par.Some? ==> Gained(old(T()), T(), old(allocCount), allocCount)
      ensures old(AllBounded(T(), SAFE_KV_SIZE)) ==> AllBounded(T(), SAFE_KV_SIZE)
    {
      ghost var t0 := T();
      par := Some(parent);
      if parent == META {
        par := MakeRoot();
        if par.Some? && AllBounded(t0, SAFE_KV_SIZE) { GrowRootBounded(t0, par.value, SAFE_KV_SIZE); }
      }
      if par.Some? { RaisedGains(t0, T(), parent == META, par.value, node, old(allocCount), allocCount); }
    }

    /** A split with room for the separator: it succeeds or fails like splitNode, and if it
        succeeds it is progress. */
    method SplitWithRoom(ghost t0: Tree, ghost grown: bool, par: PID, node: PID, info: SeparatorInfo, sep: Key,
          ghost a: Ask)
      returns (r: Outcome)
      requires Valid() && SplitSetting(t0, T(), grown, par, node, a.key)
      requires |pages[node].keys| > 1 && info == FindSeparator(pages[node], splitOrdered)
               && sep == Separator(pages[node], splitOrdered)
      requires HasSpaceFor(pages[par], |sep|, PID_SIZE)
      modifies this
      ensures Valid() && Map() == old(Map()) && splitOrdered == old(splitOrdered)
      ensures Allocated(old(T()), T(), old(allocCount), allocCount, virtCount, r)
      ensures r.Finished? ==> Measure(T(), a.key) < Measure(t0, a.key)
      ensures a.ordered == splitOrdered && MustSplit(t0, node, a) ==> Attempted(t0, T(), a, r)
      ensures old(Tame(T())) && Splittable(old(pages)[node]) ==> !r.AssertionFailed? && Tame(T())
    {
      hide MustSplit, CannotSplit, Attempted, Gained, Allocated, SplitSetting, Contents, Measure, Good, HasSpaceFor,
           SplitPage, Separator, CanSplit, Tame, AllBounded, Splittable, LowerBound, DecodePid, LinksOk, LevelsApart,
           ChainOk, Rank;
      SettingKeeps(t0, T(), grown, par, node, a.key);
      ghost var t1, i := T(), LowerBound(pages[par].keys, a.key);
      if Tame(t1) && Splittable(t1.pages[node]) { TameSplits(t1, node, splitOrdered, allocCount); }
      var newPid;
      r, newPid := SplitNode(par, i, node, info, sep);
      if r.Finished? {
        GoodIsInv(T(), allocCount);
        if Tame(t1) { TameIsBounded(t1); }
        SplitSucceeds(t0, t1, grown, par, i, node, splitOrdered, newPid, T(), a);
        if Tame(t1) { TameStays(t1, T()); }
        SuccessGains(t1, T(), old(allocCount), allocCount, virtCount);
      } else {
        FailureGains(t1, old(allocCount), allocCount, virtCount, r);
        SettingIsRaised(t0, t1, grown, par, node, a.key);
        if a.ordered == splitOrdered && MustSplit(t0, node, a) {
          if r.AssertionFailed? { NowStuck(t0, t1, grown, par, node, a); } else { NowOut(t0, t1, a); }
        }
      }
    }

    /** Splits node below par, or makes room for that by splitting par instead. */
    method SplitBelow(ghost t0: Tree, ghost grown: bool, par: PID, node: PID, ghost a: Ask) returns (r: Outcome)
      requires Valid() && SplitSetting(t0, T(), grown, par, node, a.key)
      modifies this
      ensures Valid() && Map() == old(Map()) && splitOrdered == old(splitOrdered)
      ensures Allocated(old(T()), T(), old(allocCount), allocCount, virtCount, r)
      ensures r.Finished? ==> Measure(T(), a.key) < Measure(t0, a.key)
      ensures a.ordered == splitOrdered && MustSplit(t0, node, a) ==> Attempted(t0, T(), a, r)
      ensures old(Tame(T()) && Splittable(pages[node])) ==> !r.AssertionFailed? && Tame(T())
      decreases t0.level[t0.root] - t0.level[node], 0
    {
      hide Contents, Measure, SplitSetting, Rank, Common, ChainOk, LevelsApart, LinksOk, MustSplit, CannotSplit,
           Attempted, Gained, Allocated, LexLess, LowerBound, DecodePid, Tame, AllBounded, Splittable;
      SettingKeeps(t0, T(), grown, par, node, a.key);
      if |pages[node].keys| <= 1 {
        FailureGains(T(), allocCount, allocCount, virtCount, AssertionFailed);
        ShortIsNotSplittable(pages[node]);
        ShortCannotSplit(pages[node], a.ordered);
        if MustSplit(t0, node, a) { NowStuck(t0, T(), grown, par, node, a); }
        return AssertionFailed;
      }
      var info := FindSeparator(pages[node], splitOrdered);
      var sep := GetSep(pages[node], info);
      SeparatorPlace(t0, T(), grown, par, node, a.key, splitOrdered);
      if HasSpaceFor(pages[par], |sep|, PID_SIZE) {
        r := SplitWithRoom(t0, grown, par, node, info, sep, a);
      } else {
        if Tame(T()) {
          TameIsBounded(T());
          SeparatorOfPage(T(), node, splitOrdered);
        }
        if a.ordered == splitOrdered && MustSplit(t0, node, a) { ParentMustSplit(t0, par, node, a); }
        r := EnsureSpace(par, sep, PID_SIZE, a);
      }
    }

    /** Splits node below parent, or makes room for that by splitting parent instead. Either
        way one page on the asking key's path shrinks; that may be any key of node's range. */
    method TrySplit(node: PID, parent: PID, ghost a: Ask) returns (r: Outcome)
      requires Valid() && Reached(T(), parent, node, a.key)
      modifies this
      ensures Valid() && Map() == old(Map()) && splitOrdered == old(splitOrdered)
      ensures Allocated(old(T()), T(), old(allocCount), allocCount, virtCount, r)
      ensures r.Finished? ==> Measure(T(), a.key) < old(Measure(T(), a.key))
      ensures a.ordered == splitOrdered && MustSplit(old(T()), node, a) ==> Attempted(old(T()), T(), a, r)
      ensures old(Tame(T()) && Splittable(pages[node])) ==> !r.AssertionFailed? && Tame(T())
      decreases level[root] - level[node], 1
    {
      hide Contents, Measure, SplitSetting, Rank, Common, ChainOk, LevelsApart, LinksOk, MustSplit, CannotSplit,
           Attempted, Gained, Allocated;
      ghost var t0 := T();
      var p := ParentFor(node, parent, a.key);
      if p.None? {
        FailureGains(t0, old(allocCount), allocCount, virtCount, OutOfPages);
        NowOut(t0, T(), a);
        return OutOfPages;
      }
      SettingKeeps(t0, T(), parent == META, p.value, node, a.key);
      ghost var t1, next := T(), allocCount;
      r := SplitBelow(t0, parent == META, p.value, node, a);
      AllocatedAfter(t0, t1, T(), old(allocCount), next, allocCount, virtCount, r);
    }

    /** Descends along `key` towards the inner page toSplit, which covers it. */
    method DescendTo(toSplit: PID, key: Key) returns (parent: PID, node: PID)
      requires Valid() && toSplit in pages && !pages[toSplit].isLeaf && Covers(pages[toSplit], key)
      ensures node == toSplit && Reached(T(), parent, node, key)
    {
      parent, node := META, root;
      while !pages[node].isLeaf && node != toSplit
        invariant Reached(T(), parent, node, key) && level[node] >= level[toSplit]
        decreases level[node]
      {
        HopCovers(T(), node, key);
        if level[node] == level[toSplit] { OnePagePerLevel(T(), node, toSplit, key); }
        parent := node;
        node := Next(pages[parent], key);
      }
      OnePagePerLevel(T(), node, toSplit, key);
    }

    /** Makes room in the inner page toSplit, on the path of `key`, unless it has room. */
    method EnsureSpace(toSplit: PID, key: Key, payloadLen: nat, ghost a: Ask) returns (r: Outcome)
      requires Valid() && toSplit in pages && !pages[toSplit].isLeaf
      requires Covers(pages[toSplit], key) && Covers(pages[toSplit], a.key)
      modifies this
      ensures Valid() && Map() == old(Map()) && splitOrdered == old(splitOrdered)
      ensures Allocated(old(T()), T(), old(allocCount), allocCount, virtCount, r)
      ensures r.Finished? && !old(HasSpaceFor(pages[toSplit], |key|, payloadLen)) ==>
              Measure(T(), a.key) < old(Measure(T(), a.key))
      ensures old(HasSpaceFor(pages[toSplit], |key|, payloadLen)) ==> r.Finished? && T() == old(T())
      ensures a.ordered == splitOrdered && !old(HasSpaceFor(pages[toSplit], |key|, payloadLen)) ==>
              MustSplit(old(T()), toSplit, a) ==> Attempted(old(T()), T(), a, r)
      ensures |key| <= SAFE_KV_SIZE && payloadLen == PID_SIZE && old(Tame(T())) ==> !r.AssertionFailed? && Tame(T())
      decreases level[root] - level[toSplit], 2
    {
      hide MustSplit, CannotSplit, Attempted, Gained, Allocated, Contents, Measure;
      var parent, node := DescendTo(toSplit, key);
      if HasSpaceFor(pages[node], |key|, payloadLen) {
        NothingGained(T(), allocCount);
        SuccessGains(T(), T(), allocCount, allocCount, virtCount);
        return Finished;
      }
      if |key| <= SAFE_KV_SIZE && payloadLen == PID_SIZE && Tame(T()) {
        assert BoundedAt(T(), node, SAFE_KV_SIZE);
        FullPageIsSplittable(pages[node], |key|, payloadLen);
      }
      ReachedForAll(T(), parent, node, key, a.key);
      r := TrySplit(node, parent, a);
    }

    /** insertInPage on the leaf that covers the key and has room for it. */
    method InsertInLeaf(node: PID, key: Key, val: Bytes)
      requires Valid() && key !in Map() && node in pages && pages[node].isLeaf && Covers(pages[node], key)
      requires HasSpaceFor(pages[node], |key|, |val|) && |key| + |val| <= MAX_KV_SIZE
      modifies this`pages
      ensures Valid() && Map() == old(Map())[key := val]
      ensures T() == old(PutLeaf(T(), node, Nodes.Insert(pages[node], key, val)))
      ensures |key| + |val| <= SAFE_KV_SIZE && old(AllBounded(T(), SAFE_KV_SIZE)) ==> AllBounded(T(), SAFE_KV_SIZE)
    {
      InsertGood(T(), node, key, val, allocCount);
      if |key| + |val| <= SAFE_KV_SIZE && AllBounded(T(), SAFE_KV_SIZE) {
        InsertBounded(T(), node, key, val, SAFE_KV_SIZE);
      }
      PutPage(node, Nodes.Insert(pages[node], key, val));
    }

    method PutPage(node: PID, n: Node)
      modifies this`pages
      ensures T() == old(PutLeaf(T(), node, n))
    {
      pages := pages[node := n];
    }

    /** insert: adds exactly the pair. Each attempt that finds the leaf full splits one page (run
        records the trees in between). It fails only if a page that has to be split cannot be, or if
        there are no more pages; the former does not happen if all entries are small and no key ends
        early after a smaller one, and then all entries stay small. */
    method Insert(key: Key, val: Bytes) returns (r: Outcome, ghost run: seq<Tree>)
      requires Valid() && key !in Map()
      modifies this
      ensures Valid() && splitOrdered == old(splitOrdered)
      ensures Map() == if r.Finished? then old(Map())[key := val] else old(Map())
      ensures |key| + |val| > MAX_KV_SIZE ==> r.AssertionFailed? && T() == old(T())
      ensures |key| + |val| <= MAX_KV_SIZE ==> Inserted(run, old(T()), T(), Ask(key, |val|, splitOrdered), val, r)
      ensures Allocated(old(T()), T(), old(allocCount), allocCount, virtCount, r)
      ensures old(Stuck(T(), Ask(key, |val|, splitOrdered))) ==> !r.Finished?
      ensures |key| + |val| <= MAX_KV_SIZE && old(HasSpaceFor(pages[FindLeaf(T(), root, key)], |key|, |val|)) ==>
              r.Finished?
      ensures |key| + |val| <= SAFE_KV_SIZE && old(Tame(T())) ==> !r.AssertionFailed? && AllBounded(T(), SAFE_KV_SIZE)
    {
      hide Measure, Contents, Restarted, Inserted, Gained, Allocated, Stuck, AllBounded, Tame, AllFit, HasSpaceFor,
           LinksOk, LevelsApart, ChainOk, Rank;
      ghost var a, t0, first := Ask(key, |val|, splitOrdered), T(), allocCount;
      run := [t0];
      StartOver(t0, a, first);
      if |key| + |val| > MAX_KV_SIZE {
        FailureGains(t0, first, first, virtCount, AssertionFailed);
        return AssertionFailed, run;
      }
      if Tame(t0) { TameIsBounded(t0); }
      while true
        invariant Valid() && Map() == old(Map()) && a.ordered == splitOrdered
        invariant Restarted(run, t0, T(), a, first, allocCount)
        invariant HasSpaceFor(t0.pages[FindLeaf(t0, t0.root, key)], |key|, |val|) ==> T() == t0
        invariant |key| + |val| <= SAFE_KV_SIZE && Tame(t0) ==> Tame(T())
        decreases Measure(T(), key)
      {
        var parent, node := Descend(key);
        if HasSpaceFor(pages[node], |key|, |val|) {
          PutEntry(node, key, val, a, run, t0, first);
          return Finished, run;
        }
        r, run := MakeRoom(node, parent, val, a, run, t0, first);
        if !r.Finished? { return; }
      }
    }

    /** The entry goes into its leaf, which has room. */
    method PutEntry(node: PID, key: Key, val: Bytes, ghost a: Ask, ghost run: seq<Tree>, ghost t0: Tree,
          ghost first: nat)
      requires Valid() && key !in Map() && node == FindLeaf(T(), root, key) && HasSpaceFor(pages[node], |key|, |val|)
      requires |key| + |val| <= MAX_KV_SIZE && a.key == key && a.valLen == |val|
      requires Restarted(run, t0, T(), a, first, allocCount)
      modifies this`pages
      ensures Valid() && Map() == old(Map())[key := val]
      ensures Allocated(t0, T(), first, allocCount, virtCount, Finished) && Inserted(run, t0, T(), a, val, Finished)
      ensures Inv(t0) && !Stuck(t0, a)
      ensures |key| + |val| <= SAFE_KV_SIZE && old(Tame(T())) ==> AllBounded(T(), SAFE_KV_SIZE)
    {
      hide Contents, Restarted, Inserted, Gained, Allocated, Stuck, AllBounded, Tame, HasSpaceFor, LinksOk, LevelsApart,
           ChainOk, Rank;
      ghost var t := T();
      if Tame(t) { TameIsBounded(t); }
      InsertInLeaf(node, key, val);
      EntryFollows(run, t0, t, T(), a, val, first, allocCount, virtCount);
    }

    /** One attempt to make room in the leaf. */
    method MakeRoom(node: PID, parent: PID, val: Bytes, ghost a: Ask, ghost run: seq<Tree>, ghost t0: Tree,
          ghost first: nat)
      returns (r: Outcome, ghost run': seq<Tree>)
      requires Valid() && Reached(T(), parent, node, a.key) && pages[node].isLeaf && a.ordered == splitOrdered
      requires a.valLen == |val| && !HasSpaceFor(pages[node], |a.key|, |val|)
      requires Restarted(run, t0, T(), a, first, allocCount)
      modifies this
      ensures Valid() && Map() == old(Map()) && splitOrdered == old(splitOrdered)
      ensures Allocated(t0, T(), first, allocCount, virtCount, r)
      ensures if r.Finished? then Restarted(run', t0, T(), a, first, allocCount)
              && Measure(T(), a.key) < old(Measure(T(), a.key))
              else Inserted(run', t0, T(), a, val, r)
      ensures |a.key| + |val| <= SAFE_KV_SIZE && old(Tame(T())) ==>
              !r.AssertionFailed? && Tame(T()) && AllBounded(T(), SAFE_KV_SIZE)
    {
      hide Contents, Restarted, Inserted, Gained, Allocated, Stuck, AllBounded, Tame, HasSpaceFor, LinksOk, LevelsApart,
           ChainOk, Rank, Measure, MustSplit, Attempted;
      ghost var t, j := T(), allocCount;
      FullLeafMustSplit(t, node, a);
      if |a.key| + |val| <= SAFE_KV_SIZE && Tame(t) {
        TamePageIsBounded(t, node);
        FullPageIsSplittable(pages[node], |a.key|, |val|);
      }
      r := TrySplit(node, parent, a);
      AttemptFollows(run, t0, t, T(), a, val, r, first, j, allocCount, virtCount);
      run' := if r.Finished? then run + [T()] else run;
      if Tame(T()) { TameIsBounded(T()); }
    }

    /** removeSlot on a leaf. */
    method RemoveSlot(node: PID, pos: nat)
      requires Valid() && node in pages && pages[node].isLeaf && pos < |pages[node].keys|
      modifies this`pages
      ensures Valid() && Map() == old(Map()) - {old(pages[node].keys[pos])}
      ensures T() == old(PutLeaf(T(), node, RemoveAt(pages[node], pos)))
    {
      RemoveGood(T(), node, pos, allocCount);
      PutPage(node, RemoveAt(pages[node], pos));
    }

    /** mergeNodes: the right leaf's entries move into node if the estimate fits a page. */
    method MergeNodes(par: PID, pos: nat, node: PID, right: PID) returns (merged: bool)
      requires Valid() && CanMerge(T(), par, pos, node, right)
      modifies this`pages, this`level
      ensures Valid() && Map() == old(Map())
      ensures merged <==> old(MergeBound(pages[node], pages[right])) <= PAGE_SIZE
      ensures T() == if merged then old(MergePages(T(), par, pos, node, right)) else old(T())
    {
      merged := MergeBound(pages[node], pages[right]) <= PAGE_SIZE;
      if merged {
        MergeGood(T(), par, pos, node, right, allocCount);
        PutMerged(par, pos, node, right);
      }
    }

    method PutMerged(par: PID, pos: nat, node: PID, right: PID)
      requires par in pages && node in pages && right in pages
      requires |pages[par].keys| == |pages[par].pays| && pos + 1 < |pages[par].keys| + 1
      modifies this`pages, this`level
      ensures T() == old(MergePages(T(), par, pos, node, right))
    {
      pages := (pages - {right})[node := Merged(pages[node], pages[right])][par := MergedParent(pages[par], pos, node)];
      level := level - {right};
    }

    /** remove: true exactly if the key was there; afterwards it is gone and nothing else. A
        leaf that has become underfull is merged with its right neighbour if that fits. */
    method Remove(key: Key) returns (found: bool)
      requires Valid()
      modifies this
      ensures Valid()
      ensures found <==> key in old(Map())
      ensures Map() == old(Map()) - {key}
      ensures MergesIfDue(old(T()), T(), key)
      ensures T() == old(Removed(T(), key))
    {
      hide MergesIfDue, Rank, Contents, Common, DroppedAndMerged, SpaceUsed, RemoveAt, LinksOk, LevelsApart, ChainOk,
           LexLess,
           LowerBound, DecodePid, AllFit, AllBounded;
      var parent, node := Descend(key);
      LookupMeetsContents(T(), key);
      RemovedMergesIfDue(T(), key);
      if !Has(pages[node], key) { return false; }
      var slot := LowerBound(pages[node].keys, key);
      var sizeEntry := |pages[node].keys[slot]| - Prefix(pages[node]) + |pages[node].pays[slot]|;
      if Free(pages[node]) + sizeEntry >= UNDER_FULL_SIZE && parent != META && |pages[parent].keys| >= 2
         && LowerBound(pages[parent].keys, key) + 1 < |pages[parent].keys|
      {
        var pos := LowerBound(pages[parent].keys, key);
        RemoveAndMerge(parent, pos, node, Child(pages[parent], pos + 1), slot);
      } else {
        RemoveSlot(node, slot);
      }
      return true;
    }

    /** Removes an entry from node and merges node with its right sibling if that has room. */
    method RemoveAndMerge(par: PID, pos: nat, node: PID, right: PID, slot: nat)
      requires Valid() && par in pages && !pages[par].isLeaf && pos + 1 <= |pages[par].keys|
      requires Child(pages[par], pos) == node && Child(pages[par], pos + 1) == right
      requires node in pages && pages[node].isLeaf && slot < |pages[node].keys|
      modifies this
      ensures Valid() && Map() == old(Map()) - {old(pages[node].keys[slot])}
      ensures right in old(pages) && T() == old(DroppedAndMerged(T(), par, pos, node, right, slot))
    {
      hide Rank, Contents, CanMerge, Common, MergePages, MergeBound, SpaceUsed, RemoveAt, LinksOk, LevelsApart, ChainOk;
      NeighboursMerge(T(), par, pos, node, right, slot);
      RemoveSlot(node, slot);
      if Free(pages[right]) >= PAGE_SIZE - UNDER_FULL_SIZE {
        var merged := MergeNodes(par, pos, node, right);
      }
    }

    /** The rest of one leaf, upwards. */
    method AscendLeaf(ghost key: Key, node: PID, from: nat, before: Visits, goOn: nat -> bool)
      returns (v: Visits, stopped: bool)
      requires AscState(T(), key, node, from, before) && forall i | 0 <= i < |before| :: goOn(i)
      ensures stopped ==> AscResult(Contents(T()), key, v, true) && Replies(v, goOn, true)
      ensures !stopped ==> AscState(T(), key, node, |pages[node].keys|, v) && forall i | 0 <= i < |v| :: goOn(i)
    {
      hide AscState, AscResult, Contents;
      AscFacts(T(), key, node, from, before);
      v := before;
      var pos: nat := from;
      while pos < |pages[node].keys|
        invariant pos <= |pages[node].keys|
        invariant AscState(T(), key, node, pos, v)
        invariant forall i | 0 <= i < |v| :: goOn(i)
      {
        AscVisit(T(), key, node, pos, v);
        v := v + [(pages[node].keys[pos], pages[node].pays[pos])];
        pos := pos + 1;
        if !goOn(|v| - 1) {
          AscStop(T(), key, node, pos, v);
          return v, true;
        }
      }
      stopped := false;
    }

    /** scanAsc: visits entries from the key on along the leaf chain, past empty leaves, until
        the callback declines (goOn gives its reply to each visit) or the chain ends. */
    method ScanAsc(key: Key, goOn: nat -> bool) returns (v: Visits, stopped: bool)
      requires Valid()
      ensures AscResult(Map(), key, v, stopped) && Replies(v, goOn, stopped)
    {
      hide AscState, AscResult, Contents, Good;
      var parent, node := Descend(key);
      AscBegin(T(), key);
      v, stopped := AscendLeaf(key, node, LowerBound(pages[node].keys, key), [], goOn);
      while !stopped
        invariant stopped ==> AscResult(Map(), key, v, true) && Replies(v, goOn, true)
        invariant node in pages
        invariant !stopped ==> AscState(T(), key, node, |pages[node].keys|, v) && forall i | 0 <= i < |v| :: goOn(i)
        decreases !stopped, LeavesFrom(T(), node)
      {
        AscFacts(T(), key, node, |pages[node].keys|, v);
        if pages[node].ext == NO_NEIGHBOUR {
          AscEnd(T(), key, node, v);
          return;
        }
        AscHop(T(), key, node, v);
        node := pages[node].ext;
        v, stopped := AscendLeaf(key, node, 0, v, goOn);
      }
    }

    /** The rest of one leaf, downwards. */
    method DescendLeaf(ghost key: Key, node: PID, from: int, before: Visits, goOn: nat -> bool)
      returns (v: Visits, stopped: bool)
      requires DescState(T(), key, node, from, before) && forall i | 0 <= i < |before| :: goOn(i)
      ensures stopped ==> DescResult(Contents(T()), key, v, true) && Replies(v, goOn, true)
      ensures !stopped ==> DescState(T(), key, node, -1, v) && forall i | 0 <= i < |v| :: goOn(i)
      ensures from < |pages[node].keys| && before <= v && (from < 0 ==> v == before)
      ensures from >= 0 ==> |v| > |before| && v[|before|].0 == pages[node].keys[from]
    {
      hide DescState, DescResult, Contents;
      DescFacts(T(), key, node, from, before);
      v := before;
      var pos := from;
      while pos >= 0
        invariant -1 <= pos < |pages[node].keys| && pos <= from
        invariant DescState(T(), key, node, pos, v)
        invariant forall i | 0 <= i < |v| :: goOn(i)
        invariant before <= v && if pos == from then v == before
                  else |v| > |before| && v[|before|].0 == pages[node].keys[from]
      {
        DescVisit(T(), key, node, pos, v);
        v := v + [(pages[node].keys[pos], pages[node].pays[pos])];
        pos := pos - 1;
        if !goOn(|v| - 1) {
          DescStop(T(), key, node, pos, v);
          return v, true;
        }
      }
      stopped := false;
    }

    /** scanDesc: visits the slot at or above the key, then downwards; it goes on in the leaf
        that covers the lower fence of the one it has finished. */
    method ScanDesc(key: Key, goOn: nat -> bool) returns (v: Visits, stopped: bool, exactMatch: bool)
      requires Valid()
      ensures DescResult(Map(), key, v, stopped) && Replies(v, goOn, stopped)
      ensures key in Map() ==> exactMatch && v != [] && v[0].0 == key
      ensures key !in Map() && HasAbove(pages[FindLeaf(T(), root, key)], key) ==>
              !exactMatch && v != [] && NextAbove(Map(), key, v[0].0)
      ensures key !in Map() && !HasAbove(pages[FindLeaf(T(), root, key)], key) ==>
              exactMatch && (v == [] || Less(v[0].0, key))
    {
      hide DescState, DescResult, Contents, Good, HasAbove, NextAbove;
      var parent, node := Descend(key);
      var pos: int := LowerBound(pages[node].keys, key);
      exactMatch := pos < |pages[node].keys| && pages[node].keys[pos] == key;
      if pos == |pages[node].keys| {
        pos := pos - 1;
        exactMatch := true;
      }
      DescBegin(T(), key);
      FirstVisit(T(), key);
      ghost var first := if pos >= 0 then Some(pages[node].keys[pos]) else None;
      v, stopped := DescendLeaf(key, node, pos, [], goOn);
      while !stopped
        invariant stopped ==> DescResult(Map(), key, v, true) && Replies(v, goOn, true)
        invariant node in pages
        invariant !stopped ==> DescState(T(), key, node, -1, v) && forall i | 0 <= i < |v| :: goOn(i)
        invariant if first.Some? then v != [] && v[0].0 == first.value else v == [] || Less(v[0].0, key)
        decreases !stopped, LeavesUpTo(T(), node)
      {
        if pages[node].lower == [] {
          DescEnd(T(), key, node, v);
          break;
        }
        DescHop(T(), key, node, v);
        parent, node := Descend(pages[node].lower);
        v, stopped := DescendLeaf(key, node, |pages[node].keys| - 1, v, goOn);
      }
    }
  }

  /** Two children next to each other are leaves that can be merged, also after an entry of
      the left one is gone. */
  lemma NeighboursMerge(t: Tree, par: PID, pos: nat, node: PID, right: PID, slot: nat)
    requires Inv(t) && par in t.pages && !t.pages[par].isLeaf && pos + 1 <= |t.pages[par].keys|
    requires Child(t.pages[par], pos) == node && Child(t.pages[par], pos + 1) == right
    requires node in t.pages && t.pages[node].isLeaf && slot < |t.pages[node].keys|
    ensures right in t.pages && right != node
    ensures CanMerge(PutLeaf(t, node, RemoveAt(t.pages[node], slot)), par, pos, node, right)
  {
    assert Linked(t, par, pos) && Linked(t, par, pos + 1);
    assert t.pages[node].upper == t.pages[par].keys[pos] == t.pages[right].lower && t.pages[par].keys[pos] != [];
    RemoveKeepsWF(t.pages[node], slot);
    PutLeafInv(t, node, RemoveAt(t.pages[node], slot));
  }
}
