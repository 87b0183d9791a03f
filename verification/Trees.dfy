module Options {
  datatype Option<+T> = None | Some(value: T)
}

/** The B+-tree as a collection of pages. Its invariant is local: every child pointer
    leads to a page of the next lower level whose fences are the pointer's two
    neighbouring separators, and pages of one level cover disjoint ranges. Descents,
    changes and the proofs about them therefore look at the pages involved only. */
module Trees {
  import opened Options
  import opened Lex
  import opened Nodes

  datatype Tree = Tree(pages: map<PID, Node>, root: PID, level: map<PID, nat>)

  ghost predicate Apart(a: Node, b: Node) {
    (a.upper != [] && AtMost(a.upper, b.lower)) || (b.upper != [] && AtMost(b.upper, a.lower))
  }

  /** Child i of page p is a page one level down that covers exactly slot i's range. */
  ghost predicate Linked(t: Tree, p: PID, i: nat)
    requires t.pages.Keys == t.level.Keys && p in t.pages && WF(t.pages[p]) && !t.pages[p].isLeaf
    requires i <= |t.pages[p].keys|
  {
    var n := t.pages[p];
    var c := Child(n, i);
    c in t.pages && t.level[c] + 1 == t.level[p]
    && t.pages[c].lower == SlotLower(n, i) && t.pages[c].upper == SlotUpper(n, i)
  }

  /** A leaf's neighbour pointer leads to the leaf that continues where it ends. */
  ghost predicate Chained(t: Tree, p: PID)
    requires p in t.pages
  {
    var n := t.pages[p];
    if n.upper == [] then n.ext == NO_NEIGHBOUR
    else n.ext in t.pages && t.pages[n.ext].isLeaf && t.pages[n.ext].lower == n.upper
  }

  ghost predicate PagesOk(t: Tree) {
    && t.pages.Keys == t.level.Keys
    && NO_NEIGHBOUR !in t.pages
    && t.root in t.pages && t.pages[t.root].lower == [] && t.pages[t.root].upper == []
    && (forall p | p in t.pages :: WF(t.pages[p]) && (t.pages[p].isLeaf <==> t.level[p] == 0))
    && (forall p | p in t.pages :: t.level[p] <= t.level[t.root])
  }

  ghost predicate LinksOk(t: Tree)
    requires PagesOk(t)
  {
    forall p, i {:trigger Linked(t, p, i)} | p in t.pages && !t.pages[p].isLeaf && 0 <= i <= |t.pages[p].keys| ::
        Linked(t, p, i)
  }

  ghost predicate LevelsApart(t: Tree)
    requires PagesOk(t)
  {
    forall p, q {:trigger Apart(t.pages[p], t.pages[q])} |
      p in t.pages && q in t.pages && p != q && t.level[p] == t.level[q] :: Apart(t.pages[p], t.pages[q])
  }

  ghost predicate ChainOk(t: Tree)
    requires PagesOk(t)
  {
    forall p {:trigger Chained(t, p)} | p in t.pages && t.pages[p].isLeaf :: Chained(t, p)
  }

  ghost predicate Inv(t: Tree) {
    PagesOk(t) && LinksOk(t) && LevelsApart(t) && ChainOk(t)
  }

  // ---------------------------------------------------------------- descents

  /** One hop of a descent stays with the key and goes down one level. */
  lemma HopCovers(t: Tree, p: PID, k: Key)
    requires Inv(t) && p in t.pages && !t.pages[p].isLeaf && Covers(t.pages[p], k)
    ensures var c := Next(t.pages[p], k);
            c in t.pages && t.level[c] + 1 == t.level[p] && Covers(t.pages[c], k)
            && Linked(t, p, LowerBound(t.pages[p].keys, k))
  {
    var i := LowerBound(t.pages[p].keys, k);
    assert Linked(t, p, i);
    RoutedInRange(t.pages[p], k);
  }

  /** Where a descent for k from page p ends. */
  ghost function FindLeaf(t: Tree, p: PID, k: Key): (leaf: PID)
    requires Inv(t) && p in t.pages && Covers(t.pages[p], k)
    ensures leaf in t.pages && t.pages[leaf].isLeaf && Covers(t.pages[leaf], k)
    decreases if p in t.level then t.level[p] else 0
  {
    if t.pages[p].isLeaf then p else
      HopCovers(t, p, k);
      FindLeaf(t, Next(t.pages[p], k), k)
  }

  /** On one level only one page covers a key. */
  lemma OnePagePerLevel(t: Tree, p: PID, q: PID, k: Key)
    requires Inv(t) && p in t.pages && q in t.pages && t.level[p] == t.level[q]
    requires Covers(t.pages[p], k) && Covers(t.pages[q], k)
    ensures p == q
  {
    assert p != q ==> Apart(t.pages[p], t.pages[q]);
  }

  /** A page is the child of one slot only. */
  lemma OneParent(t: Tree, p: PID, i: nat, q: PID, j: nat)
    requires Inv(t) && p in t.pages && q in t.pages && !t.pages[p].isLeaf && !t.pages[q].isLeaf
    requires i <= |t.pages[p].keys| && j <= |t.pages[q].keys|
    requires Child(t.pages[p], i) == Child(t.pages[q], j)
    ensures p == q && i == j
  {
    assert Linked(t, p, i) && Linked(t, q, j);
    var c := t.pages[Child(t.pages[p], i)];
    assert c.upper != [] ==> Less(c.lower, c.upper);
    if p != q {
      assert Apart(t.pages[p], t.pages[q]);
      SlotWithin(t.pages[p], i);
      SlotWithin(t.pages[q], j);
    } else if i < j {
      SlotsOrdered(t.pages[p], i, j);
    } else if j < i {
      SlotsOrdered(t.pages[p], j, i);
    }
  }

  lemma SlotWithin(n: Node, i: nat)
    requires WF(n) && !n.isLeaf && i <= |n.keys|
    ensures AtMost(n.lower, SlotLower(n, i))
    ensures n.upper != [] ==> SlotUpper(n, i) != [] && AtMost(SlotUpper(n, i), n.upper)
    ensures SlotUpper(n, i) != [] ==> Less(SlotLower(n, i), SlotUpper(n, i))
  {
    if i > 0 { assert Covers(n, n.keys[i - 1]); }
    if i < |n.keys| { assert Covers(n, n.keys[i]); }
  }

  lemma SlotsOrdered(n: Node, i: nat, j: nat)
    requires WF(n) && !n.isLeaf && i < j <= |n.keys|
    ensures SlotUpper(n, i) != [] && AtMost(SlotUpper(n, i), SlotLower(n, j))
  {
    assert i < j - 1 ==> Less(n.keys[i], n.keys[j - 1]);
  }

  // ---------------------------------------------------------------- the abstract map

  function LeafGet(n: Node, k: Key): Option<Bytes>
    requires |n.keys| == |n.pays|
  {
    if Has(n, k) then Some(n.pays[LowerBound(n.keys, k)]) else None
  }

  function MapGet(m: map<Key, Bytes>, k: Key): Option<Bytes> {
    if k in m then Some(m[k]) else None
  }

  lemma MapGetExtensional(m: map<Key, Bytes>, n: map<Key, Bytes>)
    requires forall k :: MapGet(m, k) == MapGet(n, k)
    ensures m == n
  {
    forall k ensures k in m <==> k in n {
      assert MapGet(m, k) == MapGet(n, k);
    }
    forall k | k in m ensures m[k] == n[k] {
      assert MapGet(m, k) == MapGet(n, k);
    }
  }

  ghost function AllKeys(t: Tree): set<Key> {
    set p, i | p in t.pages && t.pages[p].isLeaf && 0 <= i < |t.pages[p].keys| :: t.pages[p].keys[i]
  }

  /** The map that the tree stands for: all leaf entries together. */
  ghost function Contents(t: Tree): map<Key, Bytes>
    requires Inv(t)
  {
    map k | k in AllKeys(t) :: EntryOf(t, k)
  }

  ghost function EntryOf(t: Tree, k: Key): Bytes
    requires Inv(t) && k in AllKeys(t)
  {
    var p, i :| p in t.pages && t.pages[p].isLeaf && 0 <= i < |t.pages[p].keys| && t.pages[p].keys[i] == k;
    t.pages[p].pays[i]
  }

  lemma GetAtIndex(n: Node, i: nat)
    requires WF(n) && i < |n.keys|
    ensures LeafGet(n, n.keys[i]) == Some(n.pays[i])
  {
    LowerBoundUnique(n.keys, n.keys[i], i);
  }

  /** The leaf that covers a key decides whether and how the map contains it. */
  lemma LeafDecides(t: Tree, p: PID, k: Key)
    requires Inv(t) && p in t.pages && t.pages[p].isLeaf && Covers(t.pages[p], k)
    ensures MapGet(Contents(t), k) == LeafGet(t.pages[p], k)
  {
    if k in AllKeys(t) {
      var q, i :| q in t.pages && t.pages[q].isLeaf && 0 <= i < |t.pages[q].keys| && t.pages[q].keys[i] == k
                  && EntryOf(t, k) == t.pages[q].pays[i];
      assert Covers(t.pages[q], t.pages[q].keys[i]);
      OnePagePerLevel(t, p, q, k);
      GetAtIndex(t.pages[p], i);
    } else {
      HasIsMembership(t.pages[p], k);
    }
  }

  /** Following child pointers from the root finds what the map holds. */
  lemma LookupMeetsContents(t: Tree, k: Key)
    requires Inv(t)
    ensures MapGet(Contents(t), k) == LeafGet(t.pages[FindLeaf(t, t.root, k)], k)
  {
    LeafDecides(t, FindLeaf(t, t.root, k), k);
  }

  // ---------------------------------------------------------------- changing one leaf

  function PutLeaf(t: Tree, p: PID, n: Node): Tree {
    t.(pages := t.pages[p := n])
  }

  ghost predicate SameLeafFrame(a: Node, b: Node) {
    a.isLeaf && b.isLeaf && a.lower == b.lower && a.upper == b.upper && a.ext == b.ext
  }

  lemma PutLeafInv(t: Tree, p: PID, n: Node)
    requires Inv(t) && p in t.pages && WF(n) && SameLeafFrame(t.pages[p], n)
    ensures Inv(PutLeaf(t, p, n))
  {
    var u := PutLeaf(t, p, n);
    SameFramesPagesOk(t, u);
    SameFramesLinksOk(t, u);
    SameFramesRest(t, u);
  }

  /** u differs from t only in the entries of leaves. */
  ghost predicate SameFrames(t: Tree, u: Tree) {
    && u.root == t.root && u.level == t.level && u.pages.Keys == t.pages.Keys
    && (forall q | q in u.pages ::
        if u.pages[q].isLeaf then SameLeafFrame(t.pages[q], u.pages[q]) else u.pages[q] == t.pages[q])
    && (forall q | q in u.pages :: WF(u.pages[q]))
  }

  lemma SameFramesPagesOk(t: Tree, u: Tree)
    requires Inv(t) && SameFrames(t, u)
    ensures PagesOk(u)
  {}

  lemma SameFramesLinksOk(t: Tree, u: Tree)
    requires Inv(t) && SameFrames(t, u) && PagesOk(u)
    ensures LinksOk(u)
  {
    forall q, i | q in u.pages && !u.pages[q].isLeaf && 0 <= i <= |u.pages[q].keys| ensures Linked(u, q, i) {
      assert Linked(t, q, i);
    }
  }

  lemma SameFramesRest(t: Tree, u: Tree)
    requires Inv(t) && SameFrames(t, u) && PagesOk(u)
    ensures LevelsApart(u) && ChainOk(u)
  {
    forall p, q | p in u.pages && q in u.pages && p != q && u.level[p] == u.level[q]
      ensures Apart(u.pages[p], u.pages[q])
    {
      assert Apart(t.pages[p], t.pages[q]);
    }
    forall q | q in u.pages && u.pages[q].isLeaf ensures Chained(u, q) {
      assert Chained(t, q);
    }
  }

  lemma PutLeafGet(t: Tree, p: PID, n: Node, k: Key)
    requires Inv(t) && p in t.pages && WF(n) && SameLeafFrame(t.pages[p], n) && Inv(PutLeaf(t, p, n))
    ensures MapGet(Contents(PutLeaf(t, p, n)), k)
         == if Covers(n, k) then LeafGet(n, k) else MapGet(Contents(t), k)
  {
    var u := PutLeaf(t, p, n);
    if Covers(n, k) {
      LeafDecides(u, p, k);
    } else {
      var q := FindLeaf(t, t.root, k);
      LeafDecides(t, q, k);
      LeafDecides(u, q, k);
    }
  }

  /** Inserting an absent key into the leaf that covers it adds exactly that pair. */
  lemma InsertLeafContents(t: Tree, p: PID, k: Key, v: Bytes)
    requires Inv(t) && p in t.pages && t.pages[p].isLeaf && Covers(t.pages[p], k)
    requires k !in Contents(t)
    ensures var u := PutLeaf(t, p, Insert(t.pages[p], k, v));
            Inv(u) && Contents(u) == Contents(t)[k := v]
  {
    var n := t.pages[p];
    var m := Insert(n, k, v);
    LeafDecides(t, p, k);
    HasIsMembership(n, k);
    InsertKeepsWF(n, k, v);
    var u := PutLeaf(t, p, m);
    PutLeafInv(t, p, m);
    forall x ensures MapGet(Contents(u), x) == MapGet(Contents(t)[k := v], x) {
      PutLeafGet(t, p, m, x);
      if Covers(n, x) {
        LeafDecides(t, p, x);
        InsertGet(n, k, v, x);
      }
    }
    MapGetExtensional(Contents(u), Contents(t)[k := v]);
  }

  lemma InsertGet(n: Node, k: Key, v: Bytes, x: Key)
    requires WF(n) && k !in n.keys && WF(Insert(n, k, v))
    ensures LeafGet(Insert(n, k, v), x) == if x == k then Some(v) else LeafGet(n, x)
  {
    var i, m := LowerBound(n.keys, k), Insert(n, k, v);
    GetAtIndex(m, i);
    if x != k {
      OtherEntriesStay(n, m, i, x);
    }
  }

  /** m is n with one more entry, at i. */
  ghost predicate OneMoreEntry(n: Node, m: Node, i: nat) {
    && |n.keys| == |n.pays| && |m.keys| == |m.pays| == |n.keys| + 1 && i <= |n.keys|
    && (forall j | 0 <= j < i :: m.keys[j] == n.keys[j] && m.pays[j] == n.pays[j])
    && (forall j | i < j < |m.keys| :: m.keys[j] == n.keys[j - 1] && m.pays[j] == n.pays[j - 1])
  }

  lemma OtherEntriesStay(n: Node, m: Node, i: nat, x: Key)
    requires WF(n) && WF(m) && OneMoreEntry(n, m, i) && x != m.keys[i]
    ensures LeafGet(m, x) == LeafGet(n, x)
  {
    var j := LowerBound(m.keys, x);
    var o := if j <= i then j else j - 1;
    forall a | 0 <= a < o ensures Less(n.keys[a], x) {
      assert n.keys[a] == m.keys[if a < i then a else a + 1];
    }
    if j == i && i < |n.keys| { assert n.keys[i] == m.keys[i + 1] && Less(m.keys[i], m.keys[i + 1]); }
    LowerBoundUnique(n.keys, x, o);
  }

  /** Removing a leaf entry deletes exactly its key. */
  lemma RemoveLeafContents(t: Tree, p: PID, i: nat)
    requires Inv(t) && p in t.pages && t.pages[p].isLeaf && i < |t.pages[p].keys|
    ensures var u := PutLeaf(t, p, RemoveAt(t.pages[p], i));
            Inv(u) && Contents(u) == Contents(t) - {t.pages[p].keys[i]}
  {
    var n := t.pages[p];
    RemoveKeepsWF(n, i);
    PutLeafInv(t, p, RemoveAt(n, i));
    var u := PutLeaf(t, p, RemoveAt(n, i));
    forall x ensures MapGet(Contents(u), x) == if x == n.keys[i] then None else MapGet(Contents(t), x) {
      RemoveLeafGet(t, p, i, x);
    }
    MinusFromGets(Contents(t), Contents(u), n.keys[i]);
  }

  lemma MinusFromGets(m: map<Key, Bytes>, n: map<Key, Bytes>, k: Key)
    requires forall x :: MapGet(n, x) == if x == k then None else MapGet(m, x)
    ensures n == m - {k}
  {
    forall x ensures MapGet(n, x) == MapGet(m - {k}, x) {}
    MapGetExtensional(n, m - {k});
  }

  lemma RemoveLeafGet(t: Tree, p: PID, i: nat, x: Key)
    requires Inv(t) && p in t.pages && t.pages[p].isLeaf && i < |t.pages[p].keys|
    requires WF(RemoveAt(t.pages[p], i)) && Inv(PutLeaf(t, p, RemoveAt(t.pages[p], i)))
    ensures MapGet(Contents(PutLeaf(t, p, RemoveAt(t.pages[p], i))), x)
         == if x == t.pages[p].keys[i] then None else MapGet(Contents(t), x)
  {
    var n := t.pages[p];
    PutLeafGet(t, p, RemoveAt(n, i), x);
    assert Covers(n, n.keys[i]);
    if Covers(n, x) {
      LeafDecides(t, p, x);
      RemoveGet(n, i, x);
    }
  }

  lemma RemoveGet(n: Node, i: nat, x: Key)
    requires WF(n) && i < |n.keys| && WF(RemoveAt(n, i))
    ensures LeafGet(RemoveAt(n, i), x) == if x == n.keys[i] then None else LeafGet(n, x)
  {
    var m := RemoveAt(n, i);
    if x == n.keys[i] {
      RemoveSorted(n.keys, i);
      HasIsMembership(m, x);
    } else {
      OtherEntriesStay(m, n, i, x);
    }
  }

  // ---------------------------------------------------------------- a new root

  function GrowRoot(t: Tree, newRoot: PID): Tree
    requires t.root in t.level
  {
    Tree(t.pages[newRoot := Node(false, [], [], [], [], t.root)], newRoot, t.level[newRoot := t.level[t.root] + 1])
  }

  /** Putting an empty inner page above the root changes nothing but the height. */
  lemma GrowRootKeeps(t: Tree, newRoot: PID)
    requires Inv(t) && newRoot !in t.pages && newRoot != NO_NEIGHBOUR
    ensures Inv(GrowRoot(t, newRoot)) && Contents(GrowRoot(t, newRoot)) == Contents(t)
  {
    var u := GrowRoot(t, newRoot);
    GrowRootInv(t, newRoot);
    forall k ensures MapGet(Contents(u), k) == MapGet(Contents(t), k) {
      var p := FindLeaf(t, t.root, k);
      LeafDecides(t, p, k);
      LeafDecides(u, p, k);
    }
    MapGetExtensional(Contents(u), Contents(t));
  }

  lemma GrowRootInv(t: Tree, newRoot: PID)
    requires Inv(t) && newRoot !in t.pages && newRoot != NO_NEIGHBOUR
    ensures Inv(GrowRoot(t, newRoot))
  {
    var u := GrowRoot(t, newRoot);
    GrowRootPagesOk(t, newRoot);
    forall q, i | q in u.pages && !u.pages[q].isLeaf && 0 <= i <= |u.pages[q].keys| ensures Linked(u, q, i) {
      if q != newRoot { assert Linked(t, q, i); }
    }
    assert ChainOk(u) by {
      forall q | q in u.pages && u.pages[q].isLeaf ensures Chained(u, q) {
        assert Chained(t, q);
      }
    }
  }

  lemma GrowRootPagesOk(t: Tree, newRoot: PID)
    requires Inv(t) && newRoot !in t.pages && newRoot != NO_NEIGHBOUR
    ensures PagesOk(GrowRoot(t, newRoot))
  {}
}
