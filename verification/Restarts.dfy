/** What one attempt of insert does to the tree when the leaf is full: which page it splits, when it
    cannot, and which page ids it takes. */
module Restarts {
  import opened Lex
  import opened Nodes
  import opened Splitting
  import opened Trees
  import opened TreeChanges

  /** The entry that is waiting for room, and the mode in which pages are split meanwhile. */
  datatype Ask = Ask(key: Key, valLen: nat, ordered: bool)

  /** The page on the key's path lacks room: the leaf for the entry, an inner page for the separator
      of its child on the path, which has to be split as well. */
  ghost predicate MustSplit(t: Tree, p: PID, a: Ask)
    requires Inv(t) && p in t.pages && Covers(t.pages[p], a.key)
    decreases if p in t.level then t.level[p] else 0
  {
    var n := t.pages[p];
    if n.isLeaf then !HasSpaceFor(n, |a.key|, a.valLen)
    else
      HopCovers(t, p, a.key);
      var c := Next(n, a.key);
      MustSplit(t, c, a) && |t.pages[c].keys| > 1
      && !HasSpaceFor(n, |Separator(t.pages[c], a.ordered)|, PID_SIZE)
  }

  /** The source asserts when it splits such a page: too few entries, or a left half that cannot hold
      its new fence. */
  ghost predicate CannotSplit(n: Node, ordered: bool)
    requires |n.keys| == |n.pays|
  {
    if n.isLeaf then
      |n.keys| <= 2
      || var slot, sep := FindSeparator(n, ordered).slot, Separator(n, ordered);
         FenceCost(n, slot, sep) > Free(n) + EntryBytes(n, slot + 1)
    else |n.keys| <= 1
  }

  ghost predicate StuckAt(t: Tree, p: PID, a: Ask)
    requires Inv(t)
  {
    p in t.pages && Covers(t.pages[p], a.key) && MustSplit(t, p, a) && CannotSplit(t.pages[p], a.ordered)
  }

  /** Some page on the key's path has to be split and cannot. */
  ghost predicate Stuck(t: Tree, a: Ask)
    requires Inv(t)
  {
    exists p :: StuckAt(t, p, a)
  }

  /** t, or t with the empty root par on top. */
  function Raised(t: Tree, raise: bool, par: PID): Tree
    requires t.root in t.level
  {
    if raise then GrowRoot(t, par) else t
  }

  /** u is t after one page was split: one that has to be, below a page that has room for its
      separator, which is a new root if the page was the root. */
  ghost predicate SplitStep(t: Tree, u: Tree, a: Ask, p: PID, par: PID, newPid: PID)
    requires Inv(t)
  {
    && p in t.pages && Covers(t.pages[p], a.key) && MustSplit(t, p, a) && !CannotSplit(t.pages[p], a.ordered)
    && (p == t.root ==> par !in t.pages)
    && var t1 := Raised(t, p == t.root, par);
       && Inv(t1) && par in t1.pages && !t1.pages[par].isLeaf && Covers(t1.pages[par], a.key)
       && Next(t1.pages[par], a.key) == p && newPid !in t1.pages
       && var slot, sep := FindSeparator(t.pages[p], a.ordered).slot, Separator(t.pages[p], a.ordered);
          HasSpaceFor(t1.pages[par], |sep|, PID_SIZE) && u == SplitPage(t1, par, p, slot, sep, newPid)
  }

  ghost predicate SplitsTo(t: Tree, u: Tree, a: Ask)
    requires Inv(t)
  {
    Inv(u) && exists p, par, newPid :: SplitStep(t, u, a, p, par, newPid)
  }

  /** Attempt after attempt. */
  ghost predicate Attempts(run: seq<Tree>, a: Ask) {
    && |run| > 0 && (forall i | 0 <= i < |run| :: Inv(run[i]))
    && (forall i | 0 < i < |run| :: SplitsTo(run[i - 1], run[i], a))
  }

  lemma OneMoreAttempt(run: seq<Tree>, u: Tree, a: Ask)
    requires Attempts(run, a) && SplitsTo(run[|run| - 1], u, a)
    ensures Attempts(run + [u], a)
  {
    hide SplitsTo, Inv;
    assert (run + [u])[|run| - 1] == run[|run| - 1];
    NextTree(run[|run| - 1], u, a);
  }

  lemma NextTree(t: Tree, u: Tree, a: Ask)
    requires Inv(t) && SplitsTo(t, u, a)
    ensures Inv(u)
  {}

  // ---------------------------------------------------------------- a new root

  /** A new root on top does not change who has to be split. */
  lemma {:induction false} MustSplitStays(t: Tree, u: Tree, p: PID, a: Ask)
    requires Inv(t) && Inv(u) && p in t.pages && Covers(t.pages[p], a.key)
    requires u.level.Keys >= t.level.Keys && forall q | q in t.pages :: q in u.pages && u.pages[q] == t.pages[q]
    ensures MustSplit(u, p, a) <==> MustSplit(t, p, a)
    decreases if p in t.level then t.level[p] else 0
  {
    hide LevelsApart, ChainOk, HasSpaceFor, Separator, Rank;
    if !t.pages[p].isLeaf {
      HopCovers(t, p, a.key);
      HopCovers(u, p, a.key);
      MustSplitStays(t, u, Next(t.pages[p], a.key), a);
    }
  }

  // ---------------------------------------------------------------- stuck for good

  /** Below a page that has to be split, all pages on the path have to be and are not too short, and
      their parents lack room for their separators. */
  lemma {:induction false} ChainBelow(t: Tree, q: PID, p: PID, par: PID, a: Ask)
    requires Inv(t) && q in t.pages && p in t.pages && par in t.pages && t.level[p] < t.level[q]
    requires Covers(t.pages[q], a.key) && Covers(t.pages[p], a.key) && Covers(t.pages[par], a.key)
    requires MustSplit(t, q, a) && !t.pages[par].isLeaf && Next(t.pages[par], a.key) == p
    ensures |t.pages[p].keys| > 1 && !HasSpaceFor(t.pages[par], |Separator(t.pages[p], a.ordered)|, PID_SIZE)
    decreases t.level[q]
  {
    hide HasSpaceFor, Separator, Rank, LinksOk, LevelsApart, ChainOk, LowerBound;
    var c := Next(t.pages[q], a.key);
    HopCovers(t, q, a.key);
    HopCovers(t, par, a.key);
    if t.level[c] == t.level[p] {
      OnePagePerLevel(t, c, p, a.key);
      OnePagePerLevel(t, q, par, a.key);
    } else {
      ChainBelow(t, c, p, par, a);
    }
  }

  /** No attempt gets past an inner page that is stuck, ... */
  lemma InnerStuckEnds(t: Tree, u: Tree, q: PID, a: Ask, p: PID, par: PID, newPid: PID)
    requires Inv(t) && StuckAt(t, q, a) && !t.pages[q].isLeaf
    ensures !SplitStep(t, u, a, p, par, newPid)
  {
    hide HasSpaceFor, Separator, Rank, LinksOk, LevelsApart, ChainOk, LowerBound, SplitPage, MustSplit;
    if SplitStep(t, u, a, p, par, newPid) {
      SplitIsNotShort(t, u, a, p, par, newPid);
      if t.level[p] < t.level[q] {
        ChainBelow(t, q, p, par, a);
      } else if t.level[q] < t.level[p] {
        ShortBelow(t, p, q, a);
      } else {
        OnePagePerLevel(t, p, q, a.key);
      }
    }
  }

  /** What SplitStep says when the page is not the root. */
  lemma SplitIsNotShort(t: Tree, u: Tree, a: Ask, p: PID, par: PID, newPid: PID)
    requires Inv(t) && SplitStep(t, u, a, p, par, newPid)
    ensures |t.pages[p].keys| > 1 && t.level[p] <= t.level[t.root]
    ensures p == t.root ==> forall q | q in t.pages :: t.level[q] <= t.level[p]
    ensures p != t.root ==>
              && par in t.pages && !t.pages[par].isLeaf && Covers(t.pages[par], a.key)
              && Next(t.pages[par], a.key) == p
              && HasSpaceFor(t.pages[par], |Separator(t.pages[p], a.ordered)|, PID_SIZE)
  {
    hide HasSpaceFor, Separator, Rank, LinksOk, LevelsApart, ChainOk, LowerBound, SplitPage, MustSplit;
  }

  lemma {:induction false} ShortBelow(t: Tree, p: PID, q: PID, a: Ask)
    requires Inv(t) && p in t.pages && q in t.pages && t.level[q] < t.level[p]
    requires Covers(t.pages[p], a.key) && Covers(t.pages[q], a.key) && MustSplit(t, p, a)
    ensures |t.pages[q].keys| > 1
    decreases t.level[p]
  {
    hide HasSpaceFor, Separator, Rank, LinksOk, LevelsApart, ChainOk, LowerBound;
    var c := Next(t.pages[p], a.key);
    HopCovers(t, p, a.key);
    if t.level[c] == t.level[q] { OnePagePerLevel(t, c, q, a.key); } else { ShortBelow(t, c, q, a); }
  }

  /** ... and a leaf that is stuck stays as it is. */
  lemma LeafStuckStays(t: Tree, u: Tree, q: PID, a: Ask, p: PID, par: PID, newPid: PID)
    requires Inv(t) && Inv(u) && StuckAt(t, q, a) && t.pages[q].isLeaf && SplitStep(t, u, a, p, par, newPid)
    ensures StuckAt(u, q, a)
  {
    hide Rank, LinksOk, LevelsApart, ChainOk, LowerBound, HasSpaceFor, SplitLeft, SplitRight, SplitParent, Covers;
    assert p != q;
    assert u.pages[q] == t.pages[q];
  }

  lemma StuckStays(t: Tree, u: Tree, a: Ask)
    requires Inv(t) && Stuck(t, a) && SplitsTo(t, u, a)
    ensures Inv(u) && Stuck(u, a)
  {
    hide SplitStep, StuckAt, Inv;
    var q :| StuckAt(t, q, a);
    NextTree(t, u, a);
    var p, par, newPid :| SplitStep(t, u, a, p, par, newPid);
    StuckIsPage(t, q, a);
    if t.pages[q].isLeaf {
      LeafStuckStays(t, u, q, a, p, par, newPid);
    } else {
      InnerStuckEnds(t, u, q, a, p, par, newPid);
    }
  }

  lemma StuckIsPage(t: Tree, q: PID, a: Ask)
    requires Inv(t) && StuckAt(t, q, a)
    ensures q in t.pages
  {}

  /** While some page is stuck the leaf has no room. */
  lemma StuckLeafIsFull(t: Tree, a: Ask)
    requires Inv(t) && Stuck(t, a)
    ensures !HasSpaceFor(t.pages[FindLeaf(t, t.root, a.key)], |a.key|, a.valLen)
  {
    hide HasSpaceFor, LinksOk, LevelsApart, ChainOk, CannotSplit;
    var q :| StuckAt(t, q, a);
    FullBelow(t, q, a);
    OnePagePerLevel(t, FindLeaf(t, q, a.key), FindLeaf(t, t.root, a.key), a.key);
  }

  lemma {:induction false} FullBelow(t: Tree, q: PID, a: Ask)
    requires Inv(t) && q in t.pages && Covers(t.pages[q], a.key) && MustSplit(t, q, a)
    ensures !HasSpaceFor(t.pages[FindLeaf(t, q, a.key)], |a.key|, a.valLen)
    decreases t.level[q]
  {
    hide HasSpaceFor, LinksOk, LevelsApart, ChainOk, Separator;
    if !t.pages[q].isLeaf {
      HopCovers(t, q, a.key);
      FullBelow(t, Next(t.pages[q], a.key), a);
    }
  }

  /** Once a page is stuck, the entry never gets room, whatever is split in the meantime. */
  lemma {:induction false} StuckForGood(run: seq<Tree>, a: Ask, i: nat)
    requires Attempts(run, a) && i < |run| && Stuck(run[0], a)
    ensures Stuck(run[i], a) && !HasSpaceFor(run[i].pages[FindLeaf(run[i], run[i].root, a.key)], |a.key|, a.valLen)
  {
    hide Stuck, SplitsTo, HasSpaceFor, LinksOk, LevelsApart, ChainOk, PagesOk;
    if i > 0 {
      StuckForGood(run, a, i - 1);
      StuckStays(run[i - 1], run[i], a);
    }
    StuckLeafIsFull(run[i], a);
  }

  // ---------------------------------------------------------------- page ids

  /** The tree's new pages are those whose ids have been handed out meanwhile, all of them. */
  ghost predicate Gained(before: Tree, after: Tree, first: nat, next: nat) {
    first <= next && forall p: PID :: p in after.pages <==> p in before.pages || first <= p < next
  }

  /** The counter goes up by exactly the number of pages that the tree gains. */
  lemma GainedCount(before: Tree, after: Tree, first: nat, next: nat)
    requires Gained(before, after, first, next) && next <= NO_NEIGHBOUR && forall p | p in before.pages :: p < first
    ensures |after.pages.Keys| == |before.pages.Keys| + (next - first)
  {
    IdsCount(before.pages.Keys, after.pages.Keys, first, next);
  }

  lemma {:induction false} IdsCount(a: set<PID>, b: set<PID>, first: nat, next: nat)
    requires first <= next <= NO_NEIGHBOUR && forall p | p in a :: p < first
    requires forall p: PID :: p in b <==> p in a || first <= p < next
    ensures |b| == |a| + (next - first)
    decreases next
  {
    if first != next {
      var last: PID := next - 1;
      IdsCount(a, b - {last}, first, last);
      assert b == b - {last} + {last};
    } else {
      assert a == b;
    }
  }
}
