/** What range scans visit: positions in the leaf chain and what lies before them. */
module Scans {
  import opened Options
  import opened Lex
  import opened Nodes
  import opened Trees

  type Visits = seq<(Key, Bytes)>

  ghost predicate InMap(v: Visits, m: map<Key, Bytes>) {
    forall i | 0 <= i < |v| :: v[i].0 in m && m[v[i].0] == v[i].1
  }

  ghost predicate Visited(v: Visits, k: Key) { exists i :: 0 <= i < |v| && v[i].0 == k }

  ghost predicate Ascending(v: Visits) { forall i, j | 0 <= i < j < |v| :: Less(v[i].0, v[j].0) }

  ghost predicate Descending(v: Visits) { forall i, j | 0 <= i < j < |v| :: Less(v[j].0, v[i].0) }

  /** The callback's reply to every visit but the last was to go on; stopped: so not to the last. */
  ghost predicate Replies(v: Visits, goOn: nat -> bool, stopped: bool) {
    && (forall i | 0 <= i < |v| - 1 :: goOn(i))
    && (if stopped then |v| > 0 && !goOn(|v| - 1) else |v| > 0 ==> goOn(|v| - 1))
  }

  lemma EntryInMap(t: Tree, p: PID, i: nat)
    requires Inv(t) && p in t.pages && t.pages[p].isLeaf && i < |t.pages[p].keys|
    ensures MapGet(Contents(t), t.pages[p].keys[i]) == Some(t.pages[p].pays[i])
  {
    assert Covers(t.pages[p], t.pages[p].keys[i]);
    LeafDecides(t, p, t.pages[p].keys[i]);
    GetAtIndex(t.pages[p], i);
  }

  lemma MappedInLeaf(t: Tree, p: PID, k: Key) returns (i: nat)
    requires Inv(t) && p in t.pages && t.pages[p].isLeaf && Covers(t.pages[p], k) && k in Contents(t)
    ensures i < |t.pages[p].keys| && t.pages[p].keys[i] == k
  {
    LeafDecides(t, p, k);
    i := LowerBound(t.pages[p].keys, k);
  }

  // ---------------------------------------------------------------- ascending

  /** k lies before slot pos of the leaf, in key order over all leaves. */
  ghost predicate Before(n: Node, pos: nat, k: Key) {
    (n.lower != [] && AtMost(k, n.lower)) || exists j :: 0 <= j < pos && j < |n.keys| && n.keys[j] == k
  }

  ghost predicate AscState(t: Tree, start: Key, p: PID, pos: nat, v: Visits) {
    && Inv(t) && p in t.pages && t.pages[p].isLeaf && pos <= |t.pages[p].keys|
    && (t.pages[p].upper != [] ==> AtMost(start, t.pages[p].upper))
    && (forall j | pos <= j < |t.pages[p].keys| :: AtMost(start, t.pages[p].keys[j]))
    && Ascending(v) && InMap(v, Contents(t))
    && (forall i | 0 <= i < |v| :: AtMost(start, v[i].0) && Before(t.pages[p], pos, v[i].0))
    && (forall k | k in Contents(t) && AtMost(start, k) && Before(t.pages[p], pos, k) :: Visited(v, k))
  }

  /** All entries from start on, in ascending order; whatever is missing lies above what was
      visited, and the callback stopped the scan. */
  ghost predicate AscResult(m: map<Key, Bytes>, start: Key, v: Visits, stopped: bool) {
    && Ascending(v) && InMap(v, m) && (forall i | 0 <= i < |v| :: AtMost(start, v[i].0))
    && (forall k | k in m && AtMost(start, k) && !Visited(v, k) :: stopped && forall i | 0 <= i < |v| ::
        Less(v[i].0, k))
  }

  lemma AscBegin(t: Tree, start: Key)
    requires Inv(t)
    ensures var p := FindLeaf(t, t.root, start); AscState(t, start, p, LowerBound(t.pages[p].keys, start), [])
  {
    var p := FindLeaf(t, t.root, start);
    var n, pos := t.pages[p], LowerBound(t.pages[p].keys, start);
    forall j | pos <= j < |n.keys| ensures AtMost(start, n.keys[j]) {
      if pos < j { assert Less(n.keys[pos], n.keys[j]); }
    }
  }

  lemma AscVisit(t: Tree, start: Key, p: PID, pos: nat, v: Visits)
    requires AscState(t, start, p, pos, v) && pos < |t.pages[p].keys|
    ensures AscState(t, start, p, pos + 1, v + [(t.pages[p].keys[pos], t.pages[p].pays[pos])])
  {
    hide Inv, Contents, Common;
    AscFacts(t, start, p, pos, v);
    var n := t.pages[p];
    var w := v + [(n.keys[pos], n.pays[pos])];
    EntryInMap(t, p, pos);
    forall i | 0 <= i < |v| ensures Less(v[i].0, n.keys[pos]) && Before(n, pos + 1, v[i].0) {
      assert Before(n, pos, v[i].0);
      assert Covers(n, n.keys[pos]);
    }
    forall k | k in Contents(t) && AtMost(start, k) && Before(n, pos + 1, k) ensures Visited(w, k) {
      if Before(n, pos, k) {
        var i :| 0 <= i < |v| && v[i].0 == k;
        assert w[i].0 == k;
      } else {
        assert w[|v|].0 == k;
      }
    }
    assert Before(n, pos + 1, n.keys[pos]);
  }

  lemma AscFacts(t: Tree, start: Key, p: PID, pos: nat, v: Visits)
    requires AscState(t, start, p, pos, v)
    ensures p in t.pages && t.pages[p].isLeaf && pos <= |t.pages[p].keys| == |t.pages[p].pays| && Inv(t)
    ensures Chained(t, p) && WF(t.pages[p])
  {}

  lemma AscHop(t: Tree, start: Key, p: PID, v: Visits)
    requires p in t.pages && AscState(t, start, p, |t.pages[p].keys|, v) && t.pages[p].upper != []
    ensures t.pages[p].ext in t.pages && AscState(t, start, t.pages[p].ext, 0, v)
    ensures LeavesFrom(t, t.pages[p].ext) < LeavesFrom(t, p)
  {
    var n := t.pages[p];
    assert Chained(t, p);
    var q := n.ext;
    forall i | 0 <= i < |v| ensures Before(t.pages[q], 0, v[i].0) {
      assert Before(n, |n.keys|, v[i].0);
      if !AtMost(v[i].0, n.lower) {
        var j :| 0 <= j < |n.keys| && n.keys[j] == v[i].0;
        assert Covers(n, n.keys[j]);
      }
    }
    forall k | k in Contents(t) && AtMost(start, k) && Before(t.pages[q], 0, k) ensures Visited(v, k) {
      if !(n.lower != [] && AtMost(k, n.lower)) {
        var j := MappedInLeaf(t, p, k);
      }
      assert Before(n, |n.keys|, k);
    }
    forall j | 0 <= j < |t.pages[q].keys| ensures AtMost(start, t.pages[q].keys[j]) {
      assert Covers(t.pages[q], t.pages[q].keys[j]);
    }
    assert p in LeavesFrom(t, p) && p !in LeavesFrom(t, q);
  }

  /** The leaves that a scan has still to come by. */
  ghost function LeavesFrom(t: Tree, p: PID): set<PID>
    requires p in t.pages
  {
    set q | q in t.pages && t.pages[q].isLeaf && AtMost(t.pages[p].lower, t.pages[q].lower)
  }

  lemma AscEnd(t: Tree, start: Key, p: PID, v: Visits)
    requires p in t.pages && AscState(t, start, p, |t.pages[p].keys|, v) && t.pages[p].upper == []
    ensures AscResult(Contents(t), start, v, false)
  {
    var n := t.pages[p];
    forall k | k in Contents(t) && AtMost(start, k) ensures Visited(v, k) {
      if !(n.lower != [] && AtMost(k, n.lower)) {
        var j := MappedInLeaf(t, p, k);
      }
      assert Before(n, |n.keys|, k);
    }
  }

  lemma AscStop(t: Tree, start: Key, p: PID, pos: nat, v: Visits)
    requires AscState(t, start, p, pos, v)
    ensures AscResult(Contents(t), start, v, true)
  {
    var n := t.pages[p];
    forall k, i | k in Contents(t) && AtMost(start, k) && !Visited(v, k) && 0 <= i < |v| ensures Less(v[i].0, k) {
      assert Before(n, pos, v[i].0) && !Before(n, pos, k);
      if Covers(n, k) {
        var j := MappedInLeaf(t, p, k);
        assert Covers(n, n.keys[j]);
      } else if !AtMost(v[i].0, n.lower) {
        var j :| 0 <= j < |n.keys| && n.keys[j] == v[i].0;
        assert Covers(n, n.keys[j]);
      }
    }
  }

  // ---------------------------------------------------------------- descending

  /** k lies after slot pos of the leaf. */
  ghost predicate After(n: Node, pos: int, k: Key) {
    (n.upper != [] && Less(n.upper, k)) || exists j :: pos < j < |n.keys| && 0 <= j && n.keys[j] == k
  }

  ghost predicate DescState(t: Tree, start: Key, p: PID, pos: int, v: Visits) {
    && Inv(t) && p in t.pages && t.pages[p].isLeaf && -1 <= pos < |t.pages[p].keys|
    && (t.pages[p].lower != [] ==> Less(t.pages[p].lower, start))
    && (forall j | 0 <= j <= pos ::
        AtMost(t.pages[p].keys[j], start) || (v == [] && j == pos && NextAbove(Contents(t), start, t.pages[p].keys[j])))
    && Descending(v) && InMap(v, Contents(t))
    && (forall i | 0 < i < |v| :: AtMost(v[i].0, start))
    && (v != [] ==> AtMost(v[0].0, start) || NextAbove(Contents(t), start, v[0].0))
    && (forall i | 0 <= i < |v| :: After(t.pages[p], pos, v[i].0))
    && (forall k | k in Contents(t) && AtMost(k, start) && After(t.pages[p], pos, k) :: Visited(v, k))
  }

  /** a is the least key above start. */
  ghost predicate NextAbove(m: map<Key, Bytes>, start: Key, a: Key) {
    Less(start, a) && forall k | k in m && Less(start, k) :: AtMost(a, k)
  }

  /** At most the first visit is above start, and then it is the next key there; after it
      come all entries up to start in descending order, unless the callback stopped. */
  ghost predicate DescResult(m: map<Key, Bytes>, start: Key, v: Visits, stopped: bool) {
    && Descending(v) && InMap(v, m)
    && (forall i | 0 < i < |v| :: AtMost(v[i].0, start))
    && (v != [] ==> AtMost(v[0].0, start) || NextAbove(m, start, v[0].0))
    && (forall k | k in m && AtMost(k, start) && !Visited(v, k) :: stopped && forall i | 0 <= i < |v| ::
        Less(k, v[i].0))
  }

  lemma DescFacts(t: Tree, start: Key, p: PID, pos: int, v: Visits)
    requires DescState(t, start, p, pos, v)
    ensures p in t.pages && t.pages[p].isLeaf && -1 <= pos < |t.pages[p].keys| == |t.pages[p].pays| && Inv(t)
    ensures WF(t.pages[p])
  {}

  lemma DescBegin(t: Tree, start: Key)
    requires Inv(t)
    ensures var p := FindLeaf(t, t.root, start);
            var b := LowerBound(t.pages[p].keys, start);
            DescState(t, start, p, if b == |t.pages[p].keys| then b - 1 else b, [])
  {
    hide Contents, LinksOk, LevelsApart, ChainOk;
    var p := FindLeaf(t, t.root, start);
    var n, b := t.pages[p], LowerBound(t.pages[p].keys, start);
    if b < |n.keys| && !AtMost(n.keys[b], start) { FirstAbove(t, start, p); }
    NothingAfter(n, start, if b == |n.keys| then b - 1 else b);
  }

  lemma FirstAbove(t: Tree, start: Key, p: PID)
    requires Inv(t) && p in t.pages && t.pages[p].isLeaf && Covers(t.pages[p], start)
    requires var b := LowerBound(t.pages[p].keys, start); b < |t.pages[p].keys| && Less(start, t.pages[p].keys[b])
    ensures NextAbove(Contents(t), start, t.pages[p].keys[LowerBound(t.pages[p].keys, start)])
  {
    hide Contents, LinksOk, LevelsApart, ChainOk;
    var n, b := t.pages[p], LowerBound(t.pages[p].keys, start);
    forall k | k in Contents(t) && Less(start, k) ensures AtMost(n.keys[b], k) {
      assert Covers(n, n.keys[b]);
      if Covers(n, k) {
        var j := MappedInLeaf(t, p, k);
        if b < j { assert Less(n.keys[b], n.keys[j]); }
      }
    }
  }

  /** Some key of the leaf lies above k. */
  ghost predicate HasAbove(n: Node, k: Key) { exists j :: 0 <= j < |n.keys| && Less(k, n.keys[j]) }

  /** The slot at the start's place in its leaf holds the start if the map does, else the next key above
      it, and is missing exactly if the leaf has neither. */
  lemma FirstVisit(t: Tree, start: Key)
    requires Inv(t)
    ensures var n := t.pages[FindLeaf(t, t.root, start)];
            var b := LowerBound(n.keys, start);
            && (start in Contents(t) <==> b < |n.keys| && n.keys[b] == start)
            && (start !in Contents(t) ==> (b < |n.keys| <==> HasAbove(n, start)))
            && (start !in Contents(t) && b < |n.keys| ==> NextAbove(Contents(t), start, n.keys[b]))
            && (b == |n.keys| && b > 0 ==> Less(n.keys[b - 1], start))
  {
    hide Contents, LinksOk, LevelsApart, ChainOk, Rank;
    var p := FindLeaf(t, t.root, start);
    var n, b := t.pages[p], LowerBound(t.pages[p].keys, start);
    LeafDecides(t, p, start);
    HasIsMembership(n, start);
    if b < |n.keys| && n.keys[b] != start {
      if AtMost(n.keys[b], start) { RankInjective(n.keys[b], start); }
      FirstAbove(t, start, p);
    }
  }

  lemma NothingAfter(n: Node, start: Key, pos: int)
    requires WF(n) && Covers(n, start)
    requires var b := LowerBound(n.keys, start); pos == if b == |n.keys| then b - 1 else b
    ensures forall k | AtMost(k, start) :: !After(n, pos, k)
  {
    var b := LowerBound(n.keys, start);
    forall k | AtMost(k, start) ensures !After(n, pos, k) {
      if b < |n.keys| {
        forall j | b < j < |n.keys| ensures n.keys[j] != k { assert Less(n.keys[b], n.keys[j]); }
      }
    }
  }

  lemma DescVisit(t: Tree, start: Key, p: PID, pos: nat, v: Visits)
    requires DescState(t, start, p, pos, v)
    ensures DescState(t, start, p, pos - 1, v + [(t.pages[p].keys[pos], t.pages[p].pays[pos])])
  {
    hide Inv, Contents, Common, After, Visited, WF;
    DescFacts(t, start, p, pos, v);
    var n := t.pages[p];
    var e := (n.keys[pos], n.pays[pos]);
    var w := v + [e];
    EntryInMap(t, p, pos);
    forall i | 0 <= i < |v| ensures Less(n.keys[pos], v[i].0) && After(n, pos - 1, v[i].0) {
      AfterEarlier(n, pos, v[i].0);
    }
    forall k | k in Contents(t) && AtMost(k, start) && After(n, pos - 1, k) ensures Visited(w, k) {
      AfterOneMore(n, pos, k);
      VisitedMore(v, e, k);
    }
    AfterEarlier(n, pos, n.keys[pos]);
    assert w[0] == if v == [] then e else v[0];
  }

  lemma AfterEarlier(n: Node, pos: nat, k: Key)
    requires WF(n) && pos < |n.keys|
    ensures After(n, pos, k) ==> After(n, pos - 1, k) && Less(n.keys[pos], k)
    ensures After(n, pos - 1, n.keys[pos])
  {
    assert Covers(n, n.keys[pos]);
  }

  lemma AfterOneMore(n: Node, pos: nat, k: Key)
    requires After(n, pos - 1, k) && pos < |n.keys|
    ensures After(n, pos, k) || k == n.keys[pos]
  {}

  lemma VisitedMore(v: Visits, e: (Key, Bytes), k: Key)
    ensures Visited(v, k) || k == e.0 ==> Visited(v + [e], k)
  {
    if Visited(v, k) {
      var i :| 0 <= i < |v| && v[i].0 == k;
      assert (v + [e])[i].0 == k;
    }
    assert (v + [e])[|v|] == e;
  }

  /** The leaf that covers a lower fence ends there: it is the left neighbour. */
  lemma LeftNeighbour(t: Tree, p: PID)
    requires Inv(t) && p in t.pages && t.pages[p].isLeaf && t.pages[p].lower != []
    ensures var q := FindLeaf(t, t.root, t.pages[p].lower);
            q != p && t.pages[q].upper == t.pages[p].lower
  {
    var q := FindLeaf(t, t.root, t.pages[p].lower);
    assert Apart(t.pages[q], t.pages[p]);
    RankInjective(t.pages[q].upper, t.pages[p].lower);
  }

  lemma DescHop(t: Tree, start: Key, p: PID, v: Visits)
    requires DescState(t, start, p, -1, v) && t.pages[p].lower != []
    ensures var q := FindLeaf(t, t.root, t.pages[p].lower);
            && DescState(t, start, q, |t.pages[q].keys| - 1, v) && LeavesUpTo(t, q) < LeavesUpTo(t, p)
            && forall j | 0 <= j < |t.pages[q].keys| :: Less(t.pages[q].keys[j], start)
  {
    hide Contents, LinksOk, LevelsApart, ChainOk, Common;
    var n, q := t.pages[p], FindLeaf(t, t.root, t.pages[p].lower);
    LeftNeighbour(t, p);
    var m := t.pages[q];
    forall i | 0 <= i < |v| ensures After(m, |m.keys| - 1, v[i].0) {
      assert After(n, -1, v[i].0);
      if !(n.upper != [] && Less(n.upper, v[i].0)) {
        var j :| -1 < j < |n.keys| && 0 <= j && n.keys[j] == v[i].0;
        assert Covers(n, n.keys[j]);
      }
    }
    forall k | k in Contents(t) && AtMost(k, start) && After(m, |m.keys| - 1, k) ensures Visited(v, k) {
      if !(n.upper != [] && Less(n.upper, k)) {
        var j := MappedInLeaf(t, p, k);
      }
      assert After(n, -1, k);
    }
    forall j | 0 <= j < |m.keys| ensures AtMost(m.keys[j], start) {
      assert Covers(m, m.keys[j]);
    }
    assert p in LeavesUpTo(t, p) && p !in LeavesUpTo(t, q);
  }

  ghost function LeavesUpTo(t: Tree, p: PID): set<PID>
    requires p in t.pages
  {
    set q | q in t.pages && t.pages[q].isLeaf && AtMost(t.pages[q].lower, t.pages[p].lower)
  }

  lemma DescEnd(t: Tree, start: Key, p: PID, v: Visits)
    requires DescState(t, start, p, -1, v) && t.pages[p].lower == []
    ensures DescResult(Contents(t), start, v, false)
  {
    var n := t.pages[p];
    forall k | k in Contents(t) && AtMost(k, start) ensures Visited(v, k) {
      if !(n.upper != [] && Less(n.upper, k)) {
        var j := MappedInLeaf(t, p, k);
      }
      assert After(n, -1, k);
    }
  }

  lemma DescStop(t: Tree, start: Key, p: PID, pos: int, v: Visits)
    requires DescState(t, start, p, pos, v)
    ensures DescResult(Contents(t), start, v, true)
  {
    var n := t.pages[p];
    forall k, i | k in Contents(t) && AtMost(k, start) && !Visited(v, k) && 0 <= i < |v| ensures Less(k, v[i].0) {
      assert After(n, pos, v[i].0) && !After(n, pos, k);
      if Covers(n, k) {
        var j := MappedInLeaf(t, p, k);
        assert Covers(n, n.keys[j]);
        if !(n.upper != [] && Less(n.upper, v[i].0)) {
          var o :| pos < o < |n.keys| && 0 <= o && n.keys[o] == v[i].0;
          assert Less(n.keys[j], n.keys[o]);
        }
      } else if !(n.upper != [] && Less(n.upper, v[i].0)) {
        var o :| pos < o < |n.keys| && 0 <= o && n.keys[o] == v[i].0;
        assert Covers(n, n.keys[o]);
      }
    }
  }
}
