/** Splitting a page and merging two leaves inside the tree: both keep the invariant and
    leave the abstract map as it is. */
module TreeChanges {
  import opened Lex
  import opened Nodes
  import opened Splitting
  import opened Trees

  // ---------------------------------------------------------------- split

  ghost predicate CanSplit(t: Tree, par: PID, i: nat, node: PID, slot: nat, sep: Key, newPid: PID) {
    && Inv(t) && par in t.pages && !t.pages[par].isLeaf && i <= |t.pages[par].keys|
    && Child(t.pages[par], i) == node && node in t.pages
    && SplitPoint(t.pages[node], slot, sep)
    && newPid !in t.pages && newPid != NO_NEIGHBOUR
  }

  function SplitPage(t: Tree, par: PID, node: PID, slot: nat, sep: Key, newPid: PID): Tree
    requires par in t.pages && node in t.pages && node in t.level
    requires |t.pages[par].keys| == |t.pages[par].pays|
    requires |t.pages[node].keys| == |t.pages[node].pays| && slot < |t.pages[node].keys|
    requires !t.pages[node].isLeaf ==> |t.pages[node].pays[slot]| == PID_SIZE
  {
    var n := t.pages[node];
    Tree(t.pages[node := SplitLeft(n, slot, sep, newPid)]
                [newPid := SplitRight(n, slot, sep)]
                [par := SplitParent(t.pages[par], sep, node, newPid)],
         t.root,
         t.level[newPid := t.level[node]])
  }

  /** What a split does, seen from outside: three pages change, and these are their new
      frames and pointers. */
  ghost predicate IsSplit(t: Tree, u: Tree, par: PID, i: nat, node: PID, sep: Key, newPid: PID)
    requires Inv(t)
  {
    && par in t.pages && node in t.pages && newPid !in t.pages && newPid != NO_NEIGHBOUR
    && !t.pages[par].isLeaf && i <= |t.pages[par].keys| && Child(t.pages[par], i) == node
    && u.root == t.root && u.pages.Keys == t.pages.Keys + {newPid} && u.level == t.level[newPid := t.level[node]]
    && (forall q | q in t.pages && q != par && q != node :: u.pages[q] == t.pages[q])
    && StrictlyInside(sep, t.pages[node].lower, t.pages[node].upper)
    && IsParentOfSplit(t.pages[par], u.pages[par], i, sep, node, newPid)
    && AreHalves(t.pages[node], u.pages[node], u.pages[newPid], sep, newPid)
  }

  ghost predicate IsParentOfSplit(o: Node, q: Node, i: nat, sep: Key, node: PID, newPid: PID)
    requires WF(o) && !o.isLeaf && i <= |o.keys|
  {
    && WF(q) && !q.isLeaf && q.lower == o.lower && q.upper == o.upper && |q.keys| == |o.keys| + 1
    && (forall j {:trigger q.keys[j]} | 0 <= j < |q.keys| ::
        q.keys[j] == if j < i then o.keys[j] else if j == i then sep else o.keys[j - 1])
    && SplitKids(o, q, i, node, newPid)
  }

  ghost predicate AreHalves(n: Node, l: Node, r: Node, sep: Key, newPid: PID)
    requires WF(n)
  {
    && WF(l) && WF(r) && l.isLeaf == r.isLeaf == n.isLeaf
    && l.lower == n.lower && l.upper == sep == r.lower && r.upper == n.upper
    && if n.isLeaf then l.ext == newPid && r.ext == n.ext
       else && |l.keys| + 1 + |r.keys| == |n.keys| && n.keys[|l.keys|] == sep
            && (forall j | 0 <= j <= |l.keys| :: SameSlot(l, j, n, j))
            && (forall j | 0 <= j <= |r.keys| :: RightSlot(n, l, r, j))
  }

  /** Slot j of the right half continues after the left half's slots. */
  ghost predicate RightSlot(n: Node, l: Node, r: Node, j: nat)
    requires WF(n) && !n.isLeaf && WF(r) && !r.isLeaf && j <= |r.keys| && |l.keys| + 1 + j <= |n.keys|
  {
    SameSlot(r, j, n, |l.keys| + 1 + j)
  }

  ghost predicate SameSlot(a: Node, i: nat, b: Node, j: nat)
    requires WF(a) && !a.isLeaf && WF(b) && !b.isLeaf && i <= |a.keys| && j <= |b.keys|
  {
    Child(a, i) == Child(b, j) && SlotLower(a, i) == SlotLower(b, j) && SlotUpper(a, i) == SlotUpper(b, j)
  }

  lemma HalvesAreHalves(n: Node, slot: nat, sep: Key, newPid: PID)
    requires WF(n) && SplitPoint(n, slot, sep)
    ensures AreHalves(n, SplitLeft(n, slot, sep, newPid), SplitRight(n, slot, sep), sep, newPid)
    ensures StrictlyInside(sep, n.lower, n.upper)
  {
    SplitKeepsWF(n, slot, sep, newPid);
    assert StrictlyInside(sep, n.lower, n.upper) by {
      assert Covers(n, n.keys[slot]);
      if n.isLeaf { assert Covers(n, n.keys[slot + 1]); }
    }
    if !n.isLeaf { InnerHalvesSlots(n, slot, newPid); }
  }

  lemma InnerHalvesSlots(n: Node, slot: nat, newPid: PID)
    requires WF(n) && !n.isLeaf && slot < |n.keys|
    requires WF(SplitLeft(n, slot, n.keys[slot], newPid)) && WF(SplitRight(n, slot, n.keys[slot]))
    ensures var l, r := SplitLeft(n, slot, n.keys[slot], newPid), SplitRight(n, slot, n.keys[slot]);
            && (forall j | 0 <= j <= |l.keys| :: SameSlot(l, j, n, j))
            && (forall j | 0 <= j <= |r.keys| :: RightSlot(n, l, r, j))
  {}

  lemma SplitPageIsSplit(t: Tree, par: PID, i: nat, node: PID, slot: nat, sep: Key, newPid: PID)
    requires CanSplit(t, par, i, node, slot, sep, newPid)
    ensures IsSplit(t, SplitPage(t, par, node, slot, sep, newPid), par, i, node, sep, newPid)
  {
    var n, u := t.pages[node], SplitPage(t, par, node, slot, sep, newPid);
    SplitParticipants(t, par, i, node, slot, sep, newPid);
    ThreeUpdates(t.pages, node, SplitLeft(n, slot, sep, newPid), newPid, SplitRight(n, slot, sep),
                 par, SplitParent(t.pages[par], sep, node, newPid));
  }

  lemma SplitParticipants(t: Tree, par: PID, i: nat, node: PID, slot: nat, sep: Key, newPid: PID)
    requires CanSplit(t, par, i, node, slot, sep, newPid)
    ensures par != node && StrictlyInside(sep, t.pages[node].lower, t.pages[node].upper)
    ensures AreHalves(t.pages[node], SplitLeft(t.pages[node], slot, sep, newPid), SplitRight(t.pages[node], slot, sep),
            sep, newPid)
    ensures IsParentOfSplit(t.pages[par], SplitParent(t.pages[par], sep, node, newPid), i, sep, node, newPid)
  {
    assert Linked(t, par, i);
    HalvesAreHalves(t.pages[node], slot, sep, newPid);
    ParentOfSplitHolds(t.pages[par], i, sep, node, newPid);
  }

  lemma ThreeUpdates(m: map<PID, Node>, a: PID, x: Node, b: PID, y: Node, c: PID, z: Node)
    requires a in m && c in m && a != c && b !in m
    ensures var n := m[a := x][b := y][c := z];
            n.Keys == m.Keys + {b} && n[a] == x && n[b] == y && n[c] == z
            && forall q | q in m && q != a && q != c :: n[q] == m[q]
  {}

  lemma ParentOfSplitHolds(o: Node, i: nat, sep: Key, node: PID, newPid: PID)
    requires WF(o) && !o.isLeaf && i <= |o.keys| && StrictlyInside(sep, SlotLower(o, i), SlotUpper(o, i))
    ensures IsParentOfSplit(o, SplitParent(o, sep, node, newPid), i, sep, node, newPid)
  {
    SplitParentShape(o, i, sep, node, newPid);
    var q := SplitParent(o, sep, node, newPid);
    forall j {:trigger q.keys[j]} | 0 <= j < |q.keys|
      ensures q.keys[j] == if j < i then o.keys[j] else if j == i then sep else o.keys[j - 1] {}
  }

  lemma SplitPagesOk(t: Tree, u: Tree, par: PID, i: nat, node: PID, sep: Key, newPid: PID)
    requires Inv(t) && IsSplit(t, u, par, i, node, sep, newPid)
    ensures PagesOk(u)
    ensures par != node
  {
    hide LevelsApart, ChainOk, Rank, Sorted;
    assert Linked(t, par, i);
  }

  /** A link of another page, or of the parent's other slots, is not disturbed: the
      child it leads to keeps its fences. */
  lemma SplitKeepsFrames(t: Tree, u: Tree, par: PID, i: nat, node: PID, sep: Key, newPid: PID, p: PID, j: nat)
    requires Inv(t) && IsSplit(t, u, par, i, node, sep, newPid) && PagesOk(u)
    requires p in t.pages && !t.pages[p].isLeaf && j <= |t.pages[p].keys| && (p != par || j != i)
    ensures var c := Child(t.pages[p], j);
            c in u.pages && u.level[c] + 1 == u.level[p] == t.level[p]
            && u.pages[c].lower == SlotLower(t.pages[p], j) && u.pages[c].upper == SlotUpper(t.pages[p], j)
  {
    assert Linked(t, p, j);
    if Child(t.pages[p], j) == node {
      OneParent(t, p, j, par, i);
    }
  }

  lemma ParentOfSplitSlots(o: Node, q: Node, i: nat, sep: Key, node: PID, newPid: PID, j: nat)
    requires WF(o) && !o.isLeaf && i <= |o.keys| && IsParentOfSplit(o, q, i, sep, node, newPid) && j <= |q.keys|
    ensures Child(q, j) == if j < i then Child(o, j) else if j == i then node else if j == i + 1 then newPid
            else Child(o, j - 1)
    ensures SlotLower(q, j) == if j <= i then SlotLower(o, j) else if j == i + 1 then sep else SlotLower(o, j - 1)
    ensures SlotUpper(q, j) == if j < i then SlotUpper(o, j) else if j == i then sep else SlotUpper(o, j - 1)
  {
    assert SplitKids(o, q, i, node, newPid);
  }

  lemma SplitLinksParent(t: Tree, u: Tree, par: PID, i: nat, node: PID, sep: Key, newPid: PID, j: nat)
    requires Inv(t) && IsSplit(t, u, par, i, node, sep, newPid) && PagesOk(u)
    requires j <= |u.pages[par].keys|
    ensures Linked(u, par, j)
  {
    ParentOfSplitSlots(t.pages[par], u.pages[par], i, sep, node, newPid, j);
    if j < i || j > i + 1 {
      SplitKeepsFrames(t, u, par, i, node, sep, newPid, par, if j < i then j else j - 1);
    } else {
      assert Linked(t, par, i);
    }
  }

  lemma SplitLinksHalves(t: Tree, u: Tree, par: PID, i: nat, node: PID, sep: Key, newPid: PID, p: PID, j: nat)
    requires Inv(t) && IsSplit(t, u, par, i, node, sep, newPid) && PagesOk(u)
    requires (p == node || p == newPid) && !t.pages[node].isLeaf
    requires j <= |u.pages[p].keys|
    ensures Linked(u, p, j)
  {
    if p == newPid { assert RightSlot(t.pages[node], u.pages[node], u.pages[p], j); }
    var o := if p == node then j else |u.pages[node].keys| + 1 + j;
    assert SameSlot(u.pages[p], j, t.pages[node], o);
    assert Linked(t, par, i);
    SplitKeepsFrames(t, u, par, i, node, sep, newPid, node, o);
  }

  lemma SplitLinksOk(t: Tree, u: Tree, par: PID, i: nat, node: PID, sep: Key, newPid: PID)
    requires Inv(t) && IsSplit(t, u, par, i, node, sep, newPid) && PagesOk(u)
    ensures LinksOk(u)
  {
    forall p, j | p in u.pages && !u.pages[p].isLeaf && 0 <= j <= |u.pages[p].keys| ensures Linked(u, p, j) {
      if p == par {
        SplitLinksParent(t, u, par, i, node, sep, newPid, j);
      } else if p == node || p == newPid {
        SplitLinksHalves(t, u, par, i, node, sep, newPid, p, j);
      } else {
        SplitKeepsFrames(t, u, par, i, node, sep, newPid, p, j);
      }
    }
  }

  lemma SplitApart(t: Tree, u: Tree, par: PID, i: nat, node: PID, sep: Key, newPid: PID)
    requires Inv(t) && IsSplit(t, u, par, i, node, sep, newPid) && PagesOk(u) && par != node
    ensures LevelsApart(u)
  {
    forall p, q | p in u.pages && q in u.pages && p != q && u.level[p] == u.level[q]
      ensures Apart(u.pages[p], u.pages[q])
    {
      var p0, q0 := if p == newPid then node else p, if q == newPid then node else q;
      if p0 != q0 {
        assert Apart(t.pages[p0], t.pages[q0]);
        WithinOldFences(t, u, par, i, node, sep, newPid, p);
        WithinOldFences(t, u, par, i, node, sep, newPid, q);
      }
    }
  }

  lemma WithinOldFences(t: Tree, u: Tree, par: PID, i: nat, node: PID, sep: Key, newPid: PID, p: PID)
    requires Inv(t) && IsSplit(t, u, par, i, node, sep, newPid) && p in u.pages
    ensures var o := t.pages[if p == newPid then node else p];
            AtMost(o.lower, u.pages[p].lower)
            && (o.upper != [] ==> u.pages[p].upper != [] && AtMost(u.pages[p].upper, o.upper))
  {}

  lemma SplitChainOk(t: Tree, u: Tree, par: PID, i: nat, node: PID, sep: Key, newPid: PID)
    requires Inv(t) && IsSplit(t, u, par, i, node, sep, newPid) && PagesOk(u) && par != node
    ensures ChainOk(u)
  {
    forall p | p in u.pages && u.pages[p].isLeaf ensures Chained(u, p) {
      var o := if p == newPid then node else p;
      assert o in t.pages && t.pages[o].isLeaf;
      assert Chained(t, o);
    }
  }

  lemma SplitInv(t: Tree, u: Tree, par: PID, i: nat, node: PID, sep: Key, newPid: PID)
    requires Inv(t) && IsSplit(t, u, par, i, node, sep, newPid)
    ensures Inv(u)
    ensures par != node
  {
    SplitPagesOk(t, u, par, i, node, sep, newPid);
    SplitLinksOk(t, u, par, i, node, sep, newPid);
    SplitApart(t, u, par, i, node, sep, newPid);
    SplitChainOk(t, u, par, i, node, sep, newPid);
  }

  lemma HalvesGet(n: Node, slot: nat, sep: Key, newPid: PID, k: Key)
    requires WF(n) && n.isLeaf && SplitPoint(n, slot, sep)
    ensures LeafGet(n, k) == if AtMost(k, sep) then LeafGet(SplitLeft(n, slot, sep, newPid), k)
            else LeafGet(SplitRight(n, slot, sep), k)
  {
    SplitKeepsWF(n, slot, sep, newPid);
    var l, r := SplitLeft(n, slot, sep, newPid), SplitRight(n, slot, sep);
    var b := LowerBound(n.keys, k);
    if AtMost(k, sep) {
      LowerBoundUnique(l.keys, k, b);
    } else {
      assert forall j | 0 <= j <= slot :: AtMost(n.keys[j], n.keys[slot]);
      forall j | 0 <= j < b - (slot + 1) ensures Less(r.keys[j], k) {
        assert r.keys[j] == n.keys[slot + 1 + j];
      }
      LowerBoundUnique(r.keys, k, b - (slot + 1));
    }
  }

  /** Splitting any page, in any legal place, neither breaks the tree nor moves an entry
      out of reach: the map is the same before and after. */
  lemma SplitKeeps(t: Tree, par: PID, i: nat, node: PID, slot: nat, sep: Key, newPid: PID)
    requires CanSplit(t, par, i, node, slot, sep, newPid)
    ensures Inv(SplitPage(t, par, node, slot, sep, newPid))
    ensures Contents(SplitPage(t, par, node, slot, sep, newPid)) == Contents(t)
  {
    var u := SplitPage(t, par, node, slot, sep, newPid);
    SplitPageIsSplit(t, par, i, node, slot, sep, newPid);
    SplitInv(t, u, par, i, node, sep, newPid);
    forall k ensures MapGet(Contents(u), k) == MapGet(Contents(t), k) {
      SplitGet(t, u, par, i, node, slot, sep, newPid, k);
    }
    MapGetExtensional(Contents(u), Contents(t));
  }

  lemma SplitGet(t: Tree, u: Tree, par: PID, i: nat, node: PID, slot: nat, sep: Key, newPid: PID, k: Key)
    requires Inv(t) && Inv(u) && IsSplit(t, u, par, i, node, sep, newPid) && par != node
    requires SplitPoint(t.pages[node], slot, sep)
    requires u.pages[node] == SplitLeft(t.pages[node], slot, sep, newPid)
    requires u.pages[newPid] == SplitRight(t.pages[node], slot, sep)
    ensures MapGet(Contents(u), k) == MapGet(Contents(t), k)
  {
    var p := FindLeaf(t, t.root, k);
    LeafDecides(t, p, k);
    if p == node {
      HalvesGet(t.pages[node], slot, sep, newPid, k);
      LeafDecides(u, if AtMost(k, sep) then node else newPid, k);
    } else {
      LeafDecides(u, p, k);
    }
  }

  // ---------------------------------------------------------------- merge

  ghost predicate CanMerge(t: Tree, par: PID, pos: nat, node: PID, right: PID) {
    && Inv(t) && par in t.pages && !t.pages[par].isLeaf && pos + 1 <= |t.pages[par].keys|
    && Child(t.pages[par], pos) == node && Child(t.pages[par], pos + 1) == right
    && node in t.pages && t.pages[node].isLeaf && right in t.pages && t.pages[right].isLeaf
  }

  /** The right leaf is no longer part of the tree; its page is not reused. */
  function MergePages(t: Tree, par: PID, pos: nat, node: PID, right: PID): Tree
    requires par in t.pages && node in t.pages && right in t.pages
    requires |t.pages[par].keys| == |t.pages[par].pays| && pos + 1 <= |t.pages[par].keys|
  {
    Tree((t.pages - {right})[node := Merged(t.pages[node], t.pages[right])]
                            [par := MergedParent(t.pages[par], pos, node)],
         t.root,
         t.level - {right})
  }

  ghost predicate IsMerge(t: Tree, u: Tree, par: PID, pos: nat, node: PID, right: PID)
    requires Inv(t)
  {
    && par in t.pages && !t.pages[par].isLeaf && pos + 1 <= |t.pages[par].keys|
    && Child(t.pages[par], pos) == node && Child(t.pages[par], pos + 1) == right
    && node in t.pages && right in t.pages && t.pages[node].isLeaf && t.pages[right].isLeaf
    && u.root == t.root && u.pages.Keys == u.level.Keys
    && (forall q :: q in u.pages <==> q in t.pages && q != right)
    && (forall q | q in u.level :: u.level[q] == t.level[q])
    && (forall q | q in t.pages && q != par && q != node && q != right :: u.pages[q] == t.pages[q])
    && par != node && par != right && node != right
    && IsParentOfMerge(t.pages[par], u.pages[par], pos, node)
    && IsMerged(t.pages[node], t.pages[right], u.pages[node])
  }

  ghost predicate IsParentOfMerge(o: Node, q: Node, pos: nat, node: PID)
    requires WF(o) && !o.isLeaf && pos + 1 <= |o.keys|
  {
    && WF(q) && !q.isLeaf && q.lower == o.lower && q.upper == o.upper && |q.keys| + 1 == |o.keys|
    && (forall j {:trigger q.keys[j]} | 0 <= j < |q.keys| :: q.keys[j] == o.keys[if j < pos then j else j + 1])
    && MergedKids(o, q, pos, node)
  }

  ghost predicate IsMerged(l: Node, r: Node, m: Node)
  {
    WF(m) && m.isLeaf && Adjacent(l, r) && m.lower == l.lower && m.upper == r.upper && m.ext == r.ext
  }

  lemma MergePagesIsMerge(t: Tree, par: PID, pos: nat, node: PID, right: PID)
    requires CanMerge(t, par, pos, node, right)
    ensures IsMerge(t, MergePages(t, par, pos, node, right), par, pos, node, right)
  {
    hide Merged, MergedParent, IsParentOfMerge, IsMerged, LinksOk, LevelsApart, ChainOk, Sorted, Rank, Adjacent;
    MergeParticipants(t, par, pos, node, right);
    MergedIsMerged(t.pages[node], t.pages[right]);
    ParentOfMergeHolds(t.pages[par], pos, node);
  }

  lemma MergeParticipants(t: Tree, par: PID, pos: nat, node: PID, right: PID)
    requires CanMerge(t, par, pos, node, right)
    ensures par != node && par != right && node != right && Adjacent(t.pages[node], t.pages[right])
  {
    hide LevelsApart, ChainOk, Rank;
    assert Linked(t, par, pos) && Linked(t, par, pos + 1);
    assert Covers(t.pages[par], t.pages[par].keys[pos]);
  }

  lemma MergedIsMerged(l: Node, r: Node)
    requires Adjacent(l, r)
    ensures IsMerged(l, r, Merged(l, r))
  {
    MergedWF(l, r);
  }

  lemma ParentOfMergeHolds(o: Node, pos: nat, node: PID)
    requires WF(o) && !o.isLeaf && pos + 1 <= |o.keys|
    ensures IsParentOfMerge(o, MergedParent(o, pos, node), pos, node)
  {
    MergedParentShape(o, pos, node);
  }

  lemma MergePagesOk(t: Tree, u: Tree, par: PID, pos: nat, node: PID, right: PID)
    requires Inv(t) && IsMerge(t, u, par, pos, node, right)
    ensures PagesOk(u)
  {
    assert Linked(t, par, pos) && Linked(t, par, pos + 1);
    assert t.root != right && t.root != node;
  }

  lemma MergeKeepsFrames(t: Tree, u: Tree, par: PID, pos: nat, node: PID, right: PID, p: PID, j: nat)
    requires Inv(t) && IsMerge(t, u, par, pos, node, right) && PagesOk(u)
    requires p in t.pages && !t.pages[p].isLeaf && j <= |t.pages[p].keys| && (p != par || (j != pos && j != pos + 1))
    ensures var c := Child(t.pages[p], j);
            c in u.pages && u.level[c] + 1 == u.level[p] == t.level[p]
            && u.pages[c].lower == SlotLower(t.pages[p], j) && u.pages[c].upper == SlotUpper(t.pages[p], j)
  {
    hide LevelsApart, ChainOk, Rank, Sorted;
    assert Linked(t, p, j);
    if Child(t.pages[p], j) == node {
      OneParent(t, p, j, par, pos);
    }
    if Child(t.pages[p], j) == right {
      OneParent(t, p, j, par, pos + 1);
    }
  }

  lemma ParentOfMergeSlots(o: Node, q: Node, pos: nat, node: PID, j: nat)
    requires WF(o) && !o.isLeaf && pos + 1 <= |o.keys| && IsParentOfMerge(o, q, pos, node) && j <= |q.keys|
    ensures Child(q, j) == if j < pos then Child(o, j) else if j == pos then node else Child(o, j + 1)
    ensures SlotLower(q, j) == if j <= pos then SlotLower(o, j) else SlotLower(o, j + 1)
    ensures SlotUpper(q, j) == if j < pos then SlotUpper(o, j) else SlotUpper(o, j + 1)
  {}

  lemma MergeLinksParent(t: Tree, u: Tree, par: PID, pos: nat, node: PID, right: PID, j: nat)
    requires Inv(t) && IsMerge(t, u, par, pos, node, right) && PagesOk(u)
    requires j <= |u.pages[par].keys|
    ensures Linked(u, par, j)
  {
    hide LevelsApart, ChainOk, Rank, MergedKids, Sorted;
    ParentOfMergeSlots(t.pages[par], u.pages[par], pos, node, j);
    if j < pos {
      MergeKeepsFrames(t, u, par, pos, node, right, par, j);
    } else if j > pos {
      MergeKeepsFrames(t, u, par, pos, node, right, par, j + 1);
    } else {
      assert Linked(t, par, pos) && Linked(t, par, pos + 1);
    }
  }

  lemma MergeLinksOk(t: Tree, u: Tree, par: PID, pos: nat, node: PID, right: PID)
    requires Inv(t) && IsMerge(t, u, par, pos, node, right) && PagesOk(u)
    ensures LinksOk(u)
  {
    forall p, j | p in u.pages && !u.pages[p].isLeaf && 0 <= j <= |u.pages[p].keys| ensures Linked(u, p, j) {
      if p == par {
        MergeLinksParent(t, u, par, pos, node, right, j);
      } else {
        MergeKeepsFrames(t, u, par, pos, node, right, p, j);
      }
    }
  }

  lemma MergeApart(t: Tree, u: Tree, par: PID, pos: nat, node: PID, right: PID)
    requires Inv(t) && IsMerge(t, u, par, pos, node, right) && PagesOk(u)
    ensures LevelsApart(u)
  {
    forall p, q | p in u.pages && q in u.pages && p != q && u.level[p] == u.level[q]
      ensures Apart(u.pages[p], u.pages[q])
    {
      assert Apart(t.pages[p], t.pages[q]);
      if p == node { assert Apart(t.pages[right], t.pages[q]); }
      if q == node { assert Apart(t.pages[right], t.pages[p]); }
    }
  }

  /** Only the left leaf pointed to the right one. */
  lemma MergeChainOk(t: Tree, u: Tree, par: PID, pos: nat, node: PID, right: PID)
    requires Inv(t) && IsMerge(t, u, par, pos, node, right) && PagesOk(u)
    ensures ChainOk(u)
  {
    forall p | p in u.pages && u.pages[p].isLeaf ensures Chained(u, p) {
      assert Chained(t, p) && Chained(t, right);
      assert p != node ==> Apart(t.pages[p], t.pages[node]);
    }
  }

  lemma MergeInv(t: Tree, u: Tree, par: PID, pos: nat, node: PID, right: PID)
    requires Inv(t) && IsMerge(t, u, par, pos, node, right)
    ensures Inv(u)
  {
    MergePagesOk(t, u, par, pos, node, right);
    MergeLinksOk(t, u, par, pos, node, right);
    MergeApart(t, u, par, pos, node, right);
    MergeChainOk(t, u, par, pos, node, right);
  }

  lemma MergedGet(l: Node, r: Node, k: Key)
    requires Adjacent(l, r)
    ensures LeafGet(Merged(l, r), k) == if AtMost(k, l.upper) then LeafGet(l, k) else LeafGet(r, k)
  {
    MergedWF(l, r);
    var m := Merged(l, r);
    if AtMost(k, l.upper) {
      var b := LowerBound(l.keys, k);
      if b == |l.keys| && |r.keys| > 0 { assert Covers(r, r.keys[0]) && m.keys[b] == r.keys[0]; }
      LowerBoundUnique(m.keys, k, b);
    } else {
      var b := LowerBound(r.keys, k);
      forall j | 0 <= j < |l.keys| + b ensures Less(m.keys[j], k) {
        if j < |l.keys| { assert Covers(l, l.keys[j]); }
      }
      LowerBoundUnique(m.keys, k, |l.keys| + b);
    }
  }

  /** Merging two neighbouring leaves keeps the tree and the map; a key of either leaf is
      now found in the left one. */
  lemma MergeKeeps(t: Tree, par: PID, pos: nat, node: PID, right: PID)
    requires CanMerge(t, par, pos, node, right)
    ensures Inv(MergePages(t, par, pos, node, right))
    ensures Contents(MergePages(t, par, pos, node, right)) == Contents(t)
  {
    var u := MergePages(t, par, pos, node, right);
    MergePagesIsMerge(t, par, pos, node, right);
    MergeInv(t, u, par, pos, node, right);
    forall k ensures MapGet(Contents(u), k) == MapGet(Contents(t), k) {
      MergeGet(t, u, par, pos, node, right, k);
    }
    MapGetExtensional(Contents(u), Contents(t));
  }

  lemma MergeGet(t: Tree, u: Tree, par: PID, pos: nat, node: PID, right: PID, k: Key)
    requires Inv(t) && Inv(u) && IsMerge(t, u, par, pos, node, right)
    requires u.pages[node] == Merged(t.pages[node], t.pages[right])
    ensures MapGet(Contents(u), k) == MapGet(Contents(t), k)
  {
    var p := FindLeaf(t, t.root, k);
    LeafDecides(t, p, k);
    if p == node || p == right {
      MergedGet(t.pages[node], t.pages[right], k);
      LeafDecides(u, node, k);
    } else {
      LeafDecides(u, p, k);
    }
  }
}
