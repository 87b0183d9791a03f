/** Why the restarts of an insert come to an end: every split shrinks a page on the key's
    path, the path's entries can only wander upwards, and a new root starts small. */
module TreeGrowth {
  import opened Lex
  import opened Nodes
  import opened Trees
  import opened TreeChanges

  function Surplus(n: Node): nat { if |n.keys| == 0 then 0 else |n.keys| - 1 }

  /** How many splits the pages on k's path from p down can still hand to p's parent. */
  ghost function Spare(t: Tree, p: PID, k: Key): nat
    requires Inv(t) && p in t.pages && Covers(t.pages[p], k)
    decreases if p in t.level then t.level[p] else 0
  {
    if t.pages[p].isLeaf then Surplus(t.pages[p]) else
      HopCovers(t, p, k);
      Surplus(t.pages[p]) + Spare(t, Next(t.pages[p], k), k)
  }

  /** How many splits can still happen on that part of the path. */
  ghost function Pending(t: Tree, p: PID, k: Key): nat
    requires Inv(t) && p in t.pages && Covers(t.pages[p], k)
    decreases if p in t.level then t.level[p] else 0
  {
    if t.pages[p].isLeaf then Spare(t, p, k) else
      HopCovers(t, p, k);
      Spare(t, p, k) + Pending(t, Next(t.pages[p], k), k)
  }

  function Triangle(n: nat): nat { if n == 0 then 0 else n + Triangle(n - 1) }

  /** The measure also counts the splits of roots that do not exist yet. */
  ghost function Measure(t: Tree, k: Key): nat
    requires Inv(t)
  {
    Weigh(Spare(t, t.root, k), Pending(t, t.root, k))
  }

  function Weigh(spare: nat, pending: nat): nat {
    pending + (if spare == 0 then 0 else Triangle(spare - 1))
  }

  /** On a path, the page of each level is the only one there that covers the key. */
  lemma PathPage(t: Tree, p: PID, k: Key, q: PID)
    requires Inv(t) && p in t.pages && Covers(t.pages[p], k) && !t.pages[p].isLeaf
    requires q in t.pages && Covers(t.pages[q], k) && t.level[q] + 1 == t.level[p]
    ensures Next(t.pages[p], k) == q
  {
    HopCovers(t, p, k);
    OnePagePerLevel(t, Next(t.pages[p], k), q, k);
  }

  /** Below the split page nothing changes. */
  lemma {:induction false} BelowSplit(t: Tree, u: Tree, par: PID, i: nat, node: PID, sep: Key, newPid: PID, p: PID,
        k: Key)
    requires Inv(t) && Inv(u) && IsSplit(t, u, par, i, node, sep, newPid)
    requires p in t.pages && Covers(t.pages[p], k) && t.level[p] < t.level[node] < t.level[par]
    ensures p in u.pages && u.pages[p] == t.pages[p]
    ensures Spare(u, p, k) == Spare(t, p, k) && Pending(u, p, k) == Pending(t, p, k)
    decreases t.level[p]
  {
    if !t.pages[p].isLeaf {
      HopCovers(t, p, k);
      BelowSplit(t, u, par, i, node, sep, newPid, Next(t.pages[p], k), k);
    }
  }

  /** The half that covers k. */
  function HalfFor(node: PID, newPid: PID, sep: Key, k: Key): PID {
    LessIsLexicographic(sep, k);
    if LexLess(sep, k) then newPid else node
  }

  ghost predicate Shrunk(n: Node, h: Node) { |h.keys| < |n.keys| }

  /** At the split page: its half on the path has fewer entries and leads on as before. */
  lemma AtSplit(t: Tree, u: Tree, par: PID, i: nat, node: PID, sep: Key, newPid: PID, k: Key)
    requires Inv(t) && Inv(u) && IsSplit(t, u, par, i, node, sep, newPid) && t.level[node] < t.level[par]
    requires Covers(t.pages[node], k) && |t.pages[node].keys| > 1
    requires Shrunk(t.pages[node], u.pages[node]) && Shrunk(t.pages[node], u.pages[newPid])
    ensures var h := HalfFor(node, newPid, sep, k);
            Covers(u.pages[h], k) && Spare(u, h, k) < Spare(t, node, k) && Pending(u, h, k) < Pending(t, node, k)
  {
    var h := HalfFor(node, newPid, sep, k);
    LessIsLexicographic(sep, k);
    if !t.pages[node].isLeaf {
      HopCovers(t, node, k);
      HopCovers(u, h, k);
      HalfRoutes(t.pages[node], u.pages[node], u.pages[newPid], sep, newPid, k);
      BelowSplit(t, u, par, i, node, sep, newPid, Next(t.pages[node], k), k);
    }
  }

  lemma HalfRoutes(n: Node, l: Node, r: Node, sep: Key, newPid: PID, k: Key)
    requires WF(n) && !n.isLeaf && AreHalves(n, l, r, sep, newPid) && Covers(n, k)
    ensures Next(n, k) == if Less(sep, k) then Next(r, k) else Next(l, k)
  {
    if Less(sep, k) {
      var b := LowerBound(r.keys, k);
      assert RightSlot(n, l, r, b);
      RoutedUnique(n, |l.keys| + 1 + b, k);
    } else {
      var b := LowerBound(l.keys, k);
      assert SameSlot(l, b, n, b);
      RoutedUnique(n, b, k);
    }
  }

  lemma RoutedUnique(n: Node, i: nat, k: Key)
    requires WF(n) && !n.isLeaf && i <= |n.keys|
    requires i > 0 ==> Less(SlotLower(n, i), k)
    requires i < |n.keys| ==> AtMost(k, SlotUpper(n, i))
    ensures LowerBound(n.keys, k) == i
  {
    forall j | 0 <= j < i ensures Less(n.keys[j], k) {
      if j < i - 1 { assert Less(n.keys[j], n.keys[i - 1]); }
    }
    LowerBoundUnique(n.keys, k, i);
  }

  /** At the parent: one more entry here, one split less to receive. */
  lemma AtParent(t: Tree, u: Tree, par: PID, i: nat, node: PID, sep: Key, newPid: PID, k: Key)
    requires Inv(t) && Inv(u) && IsSplit(t, u, par, i, node, sep, newPid) && t.level[node] + 1 == t.level[par]
    requires Covers(t.pages[node], k) && Covers(t.pages[par], k) && |t.pages[node].keys| > 1
    requires Shrunk(t.pages[node], u.pages[node]) && Shrunk(t.pages[node], u.pages[newPid])
    ensures Spare(u, par, k) <= Spare(t, par, k) && Pending(u, par, k) < Pending(t, par, k)
    ensures |t.pages[par].keys| == 0 ==> Spare(u, par, k) < Spare(t, par, k)
  {
    AtSplit(t, u, par, i, node, sep, newPid, k);
    PathPage(t, par, k, node);
    PathPage(u, par, k, HalfFor(node, newPid, sep, k));
  }

  /** Above the parent nothing changes but what comes from below. */
  lemma {:induction false} AboveParent(t: Tree, u: Tree, par: PID, i: nat, node: PID, sep: Key, newPid: PID, p: PID,
        k: Key)
    requires Inv(t) && Inv(u) && IsSplit(t, u, par, i, node, sep, newPid) && t.level[node] + 1 == t.level[par]
    requires Covers(t.pages[node], k) && Covers(t.pages[par], k) && |t.pages[node].keys| > 1
    requires Shrunk(t.pages[node], u.pages[node]) && Shrunk(t.pages[node], u.pages[newPid])
    requires p in t.pages && Covers(t.pages[p], k) && t.level[par] <= t.level[p]
    ensures p in u.pages && Covers(u.pages[p], k)
    ensures Spare(u, p, k) <= Spare(t, p, k) && Pending(u, p, k) < Pending(t, p, k)
    decreases t.level[p]
  {
    if t.level[p] == t.level[par] {
      OnePagePerLevel(t, p, par, k);
      AtParent(t, u, par, i, node, sep, newPid, k);
    } else {
      HopCovers(t, p, k);
      AboveParent(t, u, par, i, node, sep, newPid, Next(t.pages[p], k), k);
    }
  }

  lemma {:induction false} TriangleMonotone(a: nat, b: nat)
    requires a <= b
    ensures Triangle(a) <= Triangle(b)
  {
    if a < b { TriangleMonotone(a, b - 1); }
  }

  lemma ParentCovers(t: Tree, par: PID, i: nat, node: PID, k: Key)
    requires Inv(t) && par in t.pages && !t.pages[par].isLeaf && i <= |t.pages[par].keys|
    requires Child(t.pages[par], i) == node && node in t.pages && Covers(t.pages[node], k)
    ensures t.level[node] + 1 == t.level[par] && Covers(t.pages[par], k)
  {
    assert Linked(t, par, i);
    SlotWithin(t.pages[par], i);
  }

  lemma MeasureFromParts(s: nat, s': nat, p: nat, p': nat)
    requires s' <= s && p' < p
    ensures Weigh(s', p') < Weigh(s, p)
  {
    if s' > 0 { TriangleMonotone(s' - 1, s - 1); }
  }

  /** Splitting a page on k's path below an existing parent lowers the measure. */
  lemma SplitLowersMeasure(t: Tree, u: Tree, par: PID, i: nat, node: PID, sep: Key, newPid: PID, k: Key)
    requires Inv(t) && Inv(u) && IsSplit(t, u, par, i, node, sep, newPid)
    requires Covers(t.pages[node], k) && |t.pages[node].keys| > 1
    requires Shrunk(t.pages[node], u.pages[node]) && Shrunk(t.pages[node], u.pages[newPid])
    ensures Measure(u, k) < Measure(t, k)
  {
    assert Spare(u, u.root, k) <= Spare(t, t.root, k) && Pending(u, u.root, k) < Pending(t, t.root, k) by {
      ParentCovers(t, par, i, node, k);
      AboveParent(t, u, par, i, node, sep, newPid, t.root, k);
    }
    MeasureFromParts(Spare(t, t.root, k), Spare(u, u.root, k), Pending(t, t.root, k), Pending(u, u.root, k));
  }

  lemma UnderNewRoot(g: Tree, u: Tree, newRoot: PID, node: PID, sep: Key, newPid: PID, k: Key)
    requires Inv(g) && Inv(u) && IsSplit(g, u, newRoot, 0, node, sep, newPid)
    requires g.root == newRoot && |g.pages[newRoot].keys| == 0 && |g.pages[node].keys| > 1
    requires Shrunk(g.pages[node], u.pages[node]) && Shrunk(g.pages[node], u.pages[newPid])
    requires Covers(g.pages[node], k)
    ensures var h := HalfFor(node, newPid, sep, k);
            && h in u.pages && Covers(u.pages[h], k)
            && Spare(u, newRoot, k) == Spare(u, h, k) < Spare(g, node, k)
            && Pending(u, newRoot, k) == Spare(u, h, k) + Pending(u, h, k)
            && Pending(u, h, k) < Pending(g, node, k)
  {
    ParentCovers(g, newRoot, 0, node, k);
    AtSplit(g, u, newRoot, 0, node, sep, newPid, k);
    PathPage(u, newRoot, k, HalfFor(node, newPid, sep, k));
  }

  /** So does splitting the root below a new one, although the tree gets higher. */
  lemma RootSplitLowersMeasure(t: Tree, newRoot: PID, u: Tree, sep: Key, newPid: PID, k: Key)
    requires Inv(t) && newRoot !in t.pages && newRoot != NO_NEIGHBOUR
    requires Inv(GrowRoot(t, newRoot)) && Inv(u) && IsSplit(GrowRoot(t, newRoot), u, newRoot, 0, t.root, sep, newPid)
    requires |t.pages[t.root].keys| > 1
    requires Shrunk(t.pages[t.root], u.pages[t.root]) && Shrunk(t.pages[t.root], u.pages[newPid])
    ensures Measure(u, k) < Measure(t, k)
  {
    var g := GrowRoot(t, newRoot);
    var s, p := Spare(t, t.root, k), Pending(t, t.root, k);
    var s', p' := Spare(u, newRoot, k), Pending(u, newRoot, k);
    assert s' < s && p' < s' + p by {
      SameBelowNewRoot(t, newRoot, t.root, k);
      UnderNewRoot(g, u, newRoot, t.root, sep, newPid, k);
    }
    NewRootWeighs(s, s', p, p');
  }

  lemma NewRootWeighs(s: nat, s': nat, p: nat, p': nat)
    requires s' < s && p' < s' + p
    ensures Weigh(s', p') < Weigh(s, p)
  {
    if s' > 0 { TriangleMonotone(s', s - 1); }
  }

  lemma {:induction false} SameBelowNewRoot(t: Tree, newRoot: PID, p: PID, k: Key)
    requires Inv(t) && newRoot !in t.pages && newRoot != NO_NEIGHBOUR && Inv(GrowRoot(t, newRoot))
    requires p in t.pages && Covers(t.pages[p], k)
    ensures Spare(GrowRoot(t, newRoot), p, k) == Spare(t, p, k)
    ensures Pending(GrowRoot(t, newRoot), p, k) == Pending(t, p, k)
    decreases t.level[p]
  {
    if !t.pages[p].isLeaf {
      HopCovers(t, p, k);
      SameBelowNewRoot(t, newRoot, Next(t.pages[p], k), k);
    }
  }
}
