/** Space in the tree: every page fits, and entries and fences are short enough for what the page
    operations ask. Both survive every change of the tree. */
module TreeSpace {
  import opened Lex
  import opened Nodes
  import opened Splitting
  import opened Trees
  import opened TreeChanges
  import opened Limits

  ghost predicate Fits(t: Tree, p: PID)
    requires p in t.pages
  {
    Free(t.pages[p]) >= 0
  }

  ghost predicate AllFit(t: Tree) { forall p {:trigger Fits(t, p)} | p in t.pages :: Fits(t, p) }

  ghost predicate BoundedAt(t: Tree, p: PID, b: nat)
    requires p in t.pages
  {
    Bounded(t.pages[p], b)
  }

  ghost predicate AllBounded(t: Tree, b: nat) {
    forall p {:trigger BoundedAt(t, p, b)} | p in t.pages :: BoundedAt(t, p, b)
  }

  /** What insert's first assertion and the space checks keep true of all pages. */
  ghost predicate Spacious(t: Tree) { AllFit(t) && AllBounded(t, MAX_KV_SIZE) }

  // ---------------------------------------------------------------- one leaf

  lemma PutLeafFits(t: Tree, p: PID, n: Node)
    requires AllFit(t) && p in t.pages && Free(n) >= 0
    ensures AllFit(PutLeaf(t, p, n))
  {
    var u := PutLeaf(t, p, n);
    forall q | q in u.pages ensures Fits(u, q) {
      if q != p { assert Fits(t, q); }
    }
  }

  lemma PutLeafBounded(t: Tree, p: PID, n: Node, b: nat)
    requires AllBounded(t, b) && p in t.pages && Bounded(n, b)
    ensures AllBounded(PutLeaf(t, p, n), b)
  {
    var u := PutLeaf(t, p, n);
    forall q | q in u.pages ensures BoundedAt(u, q, b) {
      if q != p { assert BoundedAt(t, q, b); }
    }
  }

  lemma InsertFits(t: Tree, p: PID, k: Key, v: Bytes)
    requires Inv(t) && AllFit(t) && p in t.pages && HasSpaceFor(t.pages[p], |k|, |v|)
    ensures AllFit(PutLeaf(t, p, Insert(t.pages[p], k, v)))
  {
    InsertSpace(t.pages[p], LowerBound(t.pages[p].keys, k), k, v);
    PutLeafFits(t, p, Insert(t.pages[p], k, v));
  }

  lemma InsertBounded(t: Tree, p: PID, k: Key, v: Bytes, b: nat)
    requires Inv(t) && AllBounded(t, b) && p in t.pages && t.pages[p].isLeaf && |k| + |v| <= b
    ensures AllBounded(PutLeaf(t, p, Insert(t.pages[p], k, v)), b)
  {
    var n, m := t.pages[p], Insert(t.pages[p], k, v);
    var i := LowerBound(n.keys, k);
    assert BoundedAt(t, p, b);
    forall j | 0 <= j < |m.keys| ensures |m.keys[j]| + |m.pays[j]| <= b {
      if j != i {
        var o := if j < i then j else j - 1;
        assert m.keys[j] == n.keys[o] && m.pays[j] == n.pays[o];
      }
    }
    PutLeafBounded(t, p, m, b);
  }

  lemma RemoveFits(t: Tree, p: PID, i: nat)
    requires Inv(t) && AllFit(t) && p in t.pages && i < |t.pages[p].keys|
    ensures AllFit(PutLeaf(t, p, RemoveAt(t.pages[p], i)))
  {
    RemoveSpace(t.pages[p], i);
    KeysSharePrefix(t.pages[p]);
    assert Fits(t, p);
    PutLeafFits(t, p, RemoveAt(t.pages[p], i));
  }

  lemma RemoveBounded(t: Tree, p: PID, i: nat, b: nat)
    requires Inv(t) && AllBounded(t, b) && p in t.pages && i < |t.pages[p].keys|
    ensures AllBounded(PutLeaf(t, p, RemoveAt(t.pages[p], i)), b)
  {
    var n, m := t.pages[p], RemoveAt(t.pages[p], i);
    assert BoundedAt(t, p, b);
    forall j | 0 <= j < |m.keys| ensures |m.keys[j]| <= b && (n.isLeaf ==> |m.keys[j]| + |m.pays[j]| <= b) {
      var o := if j < i then j else j + 1;
      assert m.keys[j] == n.keys[o] && m.pays[j] == n.pays[o];
    }
    PutLeafBounded(t, p, m, b);
  }

  // ---------------------------------------------------------------- a new root

  lemma GrowRootFits(t: Tree, newRoot: PID)
    requires AllFit(t) && t.root in t.level && newRoot !in t.pages
    ensures AllFit(GrowRoot(t, newRoot))
  {
    var u := GrowRoot(t, newRoot);
    forall p | p in u.pages ensures Fits(u, p) {
      if p != newRoot { assert Fits(t, p); }
    }
  }

  lemma GrowRootBounded(t: Tree, newRoot: PID, b: nat)
    requires AllBounded(t, b) && t.root in t.level && newRoot !in t.pages
    ensures AllBounded(GrowRoot(t, newRoot), b)
  {
    var u := GrowRoot(t, newRoot);
    forall p | p in u.pages ensures BoundedAt(u, p, b) {
      if p != newRoot { assert BoundedAt(t, p, b); }
    }
  }

  // ---------------------------------------------------------------- splits

  lemma SplitFits(t: Tree, par: PID, i: nat, node: PID, slot: nat, sep: Key, newPid: PID)
    requires CanSplit(t, par, i, node, slot, sep, newPid) && AllFit(t)
    requires Free(SplitLeft(t.pages[node], slot, sep, newPid)) >= 0 && Free(SplitRight(t.pages[node], slot, sep)) >= 0
    requires HasSpaceFor(t.pages[par], |sep|, PID_SIZE)
    ensures AllFit(SplitPage(t, par, node, slot, sep, newPid))
  {
    var u := SplitPage(t, par, node, slot, sep, newPid);
    SplitPageIsSplit(t, par, i, node, slot, sep, newPid);
    SplitParentSpace(t.pages[par], sep, node, newPid);
    assert par != node by { assert Linked(t, par, i); }
    forall q | q in u.pages ensures Fits(u, q) {
      if q != par && q != node && q != newPid { assert Fits(t, q); }
    }
  }

  lemma HalvesBounded(n: Node, slot: nat, sep: Key, newPid: PID, b: nat)
    requires WF(n) && SplitPoint(n, slot, sep) && Bounded(n, b) && |sep| <= b
    ensures Bounded(SplitLeft(n, slot, sep, newPid), b) && Bounded(SplitRight(n, slot, sep), b)
  {}

  lemma ParentBounded(o: Node, q: Node, i: nat, sep: Key, node: PID, newPid: PID, b: nat)
    requires WF(o) && !o.isLeaf && i <= |o.keys| && IsParentOfSplit(o, q, i, sep, node, newPid)
    requires Bounded(o, b) && |sep| <= b
    ensures Bounded(q, b)
  {}

  lemma SplitBounded(t: Tree, par: PID, i: nat, node: PID, slot: nat, sep: Key, newPid: PID, b: nat)
    requires CanSplit(t, par, i, node, slot, sep, newPid) && AllBounded(t, b) && |sep| <= b
    ensures AllBounded(SplitPage(t, par, node, slot, sep, newPid), b)
  {
    var u := SplitPage(t, par, node, slot, sep, newPid);
    SplitPageIsSplit(t, par, i, node, slot, sep, newPid);
    assert BoundedAt(t, node, b) && BoundedAt(t, par, b);
    HalvesBounded(t.pages[node], slot, sep, newPid, b);
    ParentBounded(t.pages[par], u.pages[par], i, sep, node, newPid, b);
    forall q | q in u.pages ensures BoundedAt(u, q, b) {
      if q != par && q != node && q != newPid { assert BoundedAt(t, q, b); }
    }
  }

  lemma SplitStaysSpacious(t: Tree, par: PID, i: nat, node: PID, slot: nat, sep: Key, newPid: PID)
    requires CanSplit(t, par, i, node, slot, sep, newPid) && Spacious(t) && |sep| <= MAX_KV_SIZE
    requires Free(SplitLeft(t.pages[node], slot, sep, newPid)) >= 0 && Free(SplitRight(t.pages[node], slot, sep)) >= 0
    requires HasSpaceFor(t.pages[par], |sep|, PID_SIZE)
    ensures Spacious(SplitPage(t, par, node, slot, sep, newPid))
  {
    hide CanSplit, AllFit, AllBounded;
    SplitFits(t, par, i, node, slot, sep, newPid);
    SplitBounded(t, par, i, node, slot, sep, newPid, MAX_KV_SIZE);
  }

  /** A separator is never longer than the keys of its page. */
  lemma SeparatorBounded(n: Node, ordered: bool, b: nat)
    requires |n.keys| > 1 && Bounded(n, b)
    ensures |Separator(n, ordered)| <= b
  {}

  lemma PageIsSpacious(t: Tree, p: PID, ordered: bool)
    requires Spacious(t) && p in t.pages
    ensures Fits(t, p) && Bounded(t.pages[p], MAX_KV_SIZE)
    ensures |t.pages[p].keys| > 1 ==> |Separator(t.pages[p], ordered)| <= MAX_KV_SIZE
  {
    assert BoundedAt(t, p, MAX_KV_SIZE);
    if |t.pages[p].keys| > 1 { SeparatorBounded(t.pages[p], ordered, MAX_KV_SIZE); }
  }

  // ---------------------------------------------------------------- merges

  lemma MergedParentSpace(par: Node, pos: nat, leftPid: PID)
    requires WF(par) && !par.isLeaf && pos + 1 <= |par.keys|
    ensures Free(MergedParent(par, pos, leftPid)) >= Free(par)
  {
    SetChildSpace(par, pos + 1, leftPid);
    SetChildKeepsWF(par, pos + 1, leftPid);
    RemoveSpace(SetChild(par, pos + 1, leftPid), pos);
    KeysSharePrefix(par);
  }

  lemma MergePagesFit(t: Tree, par: PID, pos: nat, node: PID, right: PID)
    requires AllFit(t) && CanMerge(t, par, pos, node, right)
    requires MergeBound(t.pages[node], t.pages[right]) <= PAGE_SIZE
    ensures AllFit(MergePages(t, par, pos, node, right))
  {
    MergePagesIsMerge(t, par, pos, node, right);
    MergeFits(t.pages[node], t.pages[right]);
    MergedParentSpace(t.pages[par], pos, node);
    var u := MergePages(t, par, pos, node, right);
    assert Fits(t, par);
    forall q | q in u.pages ensures Fits(u, q) {
      if q != par && q != node { assert Fits(t, q); }
    }
  }

  lemma MergedParentBounded(o: Node, q: Node, pos: nat, node: PID, b: nat)
    requires WF(o) && !o.isLeaf && pos + 1 <= |o.keys| && IsParentOfMerge(o, q, pos, node) && Bounded(o, b)
    ensures Bounded(q, b)
  {}

  lemma MergedBounded(l: Node, r: Node, b: nat)
    requires WF(l) && WF(r) && l.isLeaf && r.isLeaf && Bounded(l, b) && Bounded(r, b)
    ensures Bounded(Merged(l, r), b)
  {
    hide Covers, Sorted;
  }

  lemma MergePagesBounded(t: Tree, par: PID, pos: nat, node: PID, right: PID, b: nat)
    requires AllBounded(t, b) && CanMerge(t, par, pos, node, right)
    ensures AllBounded(MergePages(t, par, pos, node, right), b)
  {
    hide Bounded, Merged, MergedParent, LinksOk, LevelsApart, ChainOk, IsParentOfMerge, IsMerged, Sorted;
    MergePagesIsMerge(t, par, pos, node, right);
    var u := MergePages(t, par, pos, node, right);
    assert BoundedAt(t, par, b) && BoundedAt(t, node, b) && BoundedAt(t, right, b);
    MergedParentBounded(t.pages[par], u.pages[par], pos, node, b);
    MergedBounded(t.pages[node], t.pages[right], b);
    forall q | q in u.pages ensures BoundedAt(u, q, b) {
      if q != par && q != node { assert BoundedAt(t, q, b); }
    }
  }

  lemma MergeStaysSpacious(t: Tree, par: PID, pos: nat, node: PID, right: PID)
    requires Spacious(t) && CanMerge(t, par, pos, node, right)
    requires MergeBound(t.pages[node], t.pages[right]) <= PAGE_SIZE
    ensures Spacious(MergePages(t, par, pos, node, right))
  {
    hide AllFit, AllBounded;
    MergePagesFit(t, par, pos, node, right);
    MergePagesBounded(t, par, pos, node, right, MAX_KV_SIZE);
  }
}
