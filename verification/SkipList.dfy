/** The skip list as a structure on the heap, used by one thread: nodes with one link per level. */
module SkipLists {
  import opened Lex
  import opened Options
  import opened Randoms
  import Steps = SkipSteps

  const MAX_HEIGHT: nat := Steps.MAX_HEIGHT
  const BRANCHING: nat := 4

  class Node {
    const key: Key
    const next: array<Node?>

    constructor (key: Key, height: nat)
      ensures this.key == key && fresh(next) && next.Length == height && forall l | 0 <= l < height :: next[l] == null
    {
      this.key := key;
      next := new Node?[height](_ => null);
    }
  }

  // ---------------------------------------------------------------- one level

  /** Key order as numbers, the head below every key. */
  ghost function Place(head: Node, n: Node): real { if n == head then -1.0 else Rank(n.key) }

  /** The nodes of one level, and where the links of that level lead. */
  datatype Level = Level(on: set<Node>, next: map<Node, Node?>)

  ghost predicate LeadsRight(head: Node, lv: Level, n: Node)
    requires n in lv.next
  {
    var m := lv.next[n];
    if m == null then forall k | k in lv.on :: Place(head, k) <= Place(head, n)
    else m in lv.on && Place(head, n) < Place(head, m)
         && forall k | k in lv.on :: Place(head, k) <= Place(head, n) || Place(head, m) <= Place(head, k)
  }

  /** Every link leads to the next greater key of the level: a strictly sorted list. */
  ghost predicate Sorted(head: Node, lv: Level) {
    && lv.next.Keys == lv.on + {head} && head !in lv.on
    && (forall n | n in lv.next :: LeadsRight(head, lv, n))
    && (forall a, b | a in lv.on && b in lv.on && Place(head, a) == Place(head, b) :: a == b)
  }

  /** The key belongs right behind p: p is before it, and p's successor is not. */
  ghost predicate Behind(head: Node, lv: Level, p: Node, key: Key) {
    p in lv.next && Place(head, p) < Rank(key) && var m := lv.next[p]; m != null ==> Rank(key) <= Place(head, m)
  }

  function Link(lv: Level, p: Node, x: Node): Level
    requires p in lv.next
  {
    Level(lv.on + {x}, lv.next[x := lv.next[p]][p := x])
  }

  /** No other link jumps over the place behind p. */
  lemma NotJumpedOver(head: Node, lv: Level, p: Node, key: Key, n: Node)
    requires Sorted(head, lv) && Behind(head, lv, p, key) && n in lv.next && n != p
    ensures var m := lv.next[n];
            if m == null then Rank(key) <= Place(head, n) else Rank(key) <= Place(head, n) || Place(head, m) < Rank(key)
  {
    hide Rank;
    assert LeadsRight(head, lv, p) && LeadsRight(head, lv, n);
  }

  lemma LinkedLeadsRight(head: Node, lv: Level, p: Node, x: Node, n: Node)
    requires Sorted(head, lv) && Behind(head, lv, p, x.key) && x !in lv.next && n in Link(lv, p, x).next
    requires lv.next[p] != null ==> Rank(x.key) != Place(head, lv.next[p])
    ensures LeadsRight(head, Link(lv, p, x), n)
  {
    hide Rank, LexLess;
    if n == x || n == p {
      assert LeadsRight(head, lv, p);
    } else {
      OthersLeadRight(head, lv, p, x, n);
    }
  }

  lemma OthersLeadRight(head: Node, lv: Level, p: Node, x: Node, n: Node)
    requires Sorted(head, lv) && Behind(head, lv, p, x.key) && x !in lv.next && n in lv.next && n != p
    ensures LeadsRight(head, Link(lv, p, x), n)
  {
    hide Rank, LexLess;
    assert LeadsRight(head, lv, n);
    NotJumpedOver(head, lv, p, x.key, n);
  }

  lemma LinkKeepsSorted(head: Node, lv: Level, p: Node, x: Node)
    requires Sorted(head, lv) && p in lv.next && Behind(head, lv, p, x.key) && x !in lv.next
    requires lv.next[p] != null ==> Rank(x.key) != Place(head, lv.next[p])
    ensures Sorted(head, Link(lv, p, x))
  {
    hide Rank, LeadsRight, Behind;
    var u := Link(lv, p, x);
    forall n | n in u.next ensures LeadsRight(head, u, n) { LinkedLeadsRight(head, lv, p, x, n); }
    forall k | k in lv.on ensures Place(head, k) != Place(head, x) { PlaceIsNew(head, lv, p, x, k); }
  }

  lemma PlaceIsNew(head: Node, lv: Level, p: Node, x: Node, k: Node)
    requires Sorted(head, lv) && Behind(head, lv, p, x.key) && x !in lv.next && k in lv.on
    requires lv.next[p] != null ==> Rank(x.key) != Place(head, lv.next[p])
    ensures Place(head, k) != Place(head, x)
  {
    hide Rank;
    assert LeadsRight(head, lv, p);
  }

  ghost function Ahead(head: Node, lv: Level, n: Node): set<Node> {
    set m | m in lv.on && Place(head, n) < Place(head, m)
  }

  lemma FewerAhead(head: Node, lv: Level, n: Node)
    requires Sorted(head, lv) && n in lv.next && lv.next[n] != null
    ensures lv.next[n] in lv.next && |Ahead(head, lv, lv.next[n])| < |Ahead(head, lv, n)|
  {
    assert LeadsRight(head, lv, n);
    var m := lv.next[n];
    assert Ahead(head, lv, m) <= Ahead(head, lv, n) - {m};
    SubsetSmaller(Ahead(head, lv, m), Ahead(head, lv, n), m);
  }

  lemma SubsetSmaller(a: set<Node>, b: set<Node>, x: Node)
    requires a <= b - {x} && x in b
    ensures |a| < |b|
  {
    var rest := b - {x} - a;
    assert b == a + rest + {x};
  }

  function KeysOf(on: set<Node>): set<Key> { set n | n in on :: n.key }

  lemma OneMoreKey(on: set<Node>, x: Node)
    ensures KeysOf(on + {x}) == KeysOf(on) + {x.key}
  {}

  function KeyOfNode(n: Node?): Option<Key> { if n == null then None else Some(n.key) }

  /** The smallest key above k. */
  ghost predicate LeastAbove(keys: set<Key>, k: Key, res: Option<Key>) {
    match res
    case None => forall x | x in keys :: AtMost(x, k)
    case Some(a) => a in keys && Less(k, a) && forall x | x in keys && Less(k, x) :: AtMost(a, x)
  }

  /** On the lowest level the place behind a key's predecessor answers every search. */
  lemma BehindIsLeast(head: Node, lv: Level, p: Node, key: Key)
    requires Sorted(head, lv) && Behind(head, lv, p, key)
    ensures Steps.Least(KeysOf(lv.on), key, KeyOfNode(lv.next[p]))
    ensures Steps.Greatest(KeysOf(lv.on), Some(key), if p == head then None else Some(p.key))
  {
    assert LeadsRight(head, lv, p);
  }

  lemma EndIsGreatest(head: Node, lv: Level, p: Node)
    requires Sorted(head, lv) && p in lv.next && lv.next[p] == null
    ensures Steps.Greatest(KeysOf(lv.on), None, if p == head then None else Some(p.key))
  {
    assert LeadsRight(head, lv, p);
  }

  lemma SuccessorIsLeastAbove(head: Node, lv: Level, p: Node)
    requires Sorted(head, lv) && p in lv.on
    ensures LeastAbove(KeysOf(lv.on), p.key, KeyOfNode(lv.next[p]))
  {
    assert LeadsRight(head, lv, p);
  }

  // ---------------------------------------------------------------- heights

  /** From seed s, exactly the first height - 1 numbers drawn are multiples of 4, unless the height is the
      greatest one, for which no further number is drawn; t is the seed afterwards. */
  ghost predicate DrawnHeight(s: nat, t: nat, height: nat) {
    && 1 <= height <= MAX_HEIGHT
    && (forall j | 1 <= j < height :: Iterate(s, j) % BRANCHING == 0)
    && (height < MAX_HEIGHT ==> Iterate(s, height) % BRANCHING != 0)
    && t == Iterate(s, if height < MAX_HEIGHT then height else MAX_HEIGHT - 1)
  }

  // ---------------------------------------------------------------- the list

  class SkipList {
    const head: Node
    var maxHeight: nat
    const rnd: Random
    /** the nodes that are linked on each level */
    ghost var on: seq<set<Node>>

    ghost function Links(): set<object>
      requires |on| > 0
      reads this
    {
      (set n | n in on[0] :: n.next as object) + {head.next}
    }

    /** Sizes of towers, and no two nodes share their links. */
    ghost predicate Frame()
      reads this
    {
      && |on| == MAX_HEIGHT && 1 <= maxHeight <= MAX_HEIGHT && head.next.Length == MAX_HEIGHT
      && (forall l, m | 0 <= l <= m < MAX_HEIGHT :: on[m] <= on[l])
      && (forall l | maxHeight <= l < MAX_HEIGHT :: on[l] == {})
      && (forall l, n | 0 <= l < MAX_HEIGHT && n in on[l] :: l < n.next.Length <= MAX_HEIGHT)
      && (forall n, m | n in on[0] + {head} && m in on[0] + {head} && n != m :: n.next != m.next)
    }

    ghost function LevelAt(l: nat): Level
      requires Frame() && l < MAX_HEIGHT
      reads this, Links()
    {
      Level(on[l], map n | n in on[l] + {head} :: n.next[l])
    }

    ghost predicate AllSorted()
      requires Frame()
      reads this, Links()
    {
      forall l | 0 <= l < MAX_HEIGHT :: Sorted(head, LevelAt(l))
    }

    ghost predicate Valid()
      reads this, rnd, if |on| > 0 then Links() else {}
    {
      && Frame() && AllSorted() && rnd.Valid()
      && (forall n, l | n in on[0] && 0 <= l < n.next.Length :: n in on[l])
    }

    ghost function Keys(): set<Key>
      requires |on| > 0
      reads this
    {
      KeysOf(on[0])
    }

    constructor ()
      ensures Valid() && Keys() == {} && fresh(rnd) && fresh(Links())
    {
      head := new Node([], MAX_HEIGHT);
      maxHeight := 1;
      rnd := new Random(0xdeadbeef);
      on := seq(MAX_HEIGHT, _ => {});
      new;
      forall l | 0 <= l < MAX_HEIGHT ensures Sorted(head, LevelAt(l)) {
        assert LevelAt(l).next.Keys == {head};
      }
    }

    /** Null counts as infinite. */
    predicate KeyIsAfterNode(key: Key, n: Node?) { n != null && LexLess(n.key, key) }

    /** One load of a search on level l. */
    lemma Onwards(l: nat, x: Node, key: Key)
      requires Frame() && AllSorted() && l < MAX_HEIGHT && x in LevelAt(l).next && Place(head, x) < Rank(key)
      ensures var m := x.next[l];
              if KeyIsAfterNode(key, m)
              then m in LevelAt(l).next && m != head && Place(head, m) < Rank(key)
                   && |Ahead(head, LevelAt(l), m)| < |Ahead(head, LevelAt(l), x)|
              else Behind(head, LevelAt(l), x, key)
    {
      assert LeadsRight(head, LevelAt(l), x);
      var m := x.next[l];
      if m != null { LessIsLexicographic(m.key, key); }
      if KeyIsAfterNode(key, m) { FewerAhead(head, LevelAt(l), x); }
    }

    lemma HeadFirst(key: Key)
      ensures Place(head, head) < Rank(key)
    {}

    /** Notes the place of the key on a level, for callers that ask for it. */
    method Remember(prev: array?<Node>, level: nat, x: Node, ghost key: Key)
      requires Frame() && AllSorted() && level < maxHeight && Behind(head, LevelAt(level), x, key)
      requires prev != null ==> prev.Length == MAX_HEIGHT && prev as object !in Links() && prev as object != this
      requires prev != null ==> forall l | level < l < maxHeight :: Behind(head, LevelAt(l), prev[l], key)
      modifies if prev != null then {prev} else {}
      ensures AllSorted() && forall l | 0 <= l < MAX_HEIGHT :: LevelAt(l) == old(LevelAt(l))
      ensures prev != null ==> forall l | level <= l < maxHeight :: Behind(head, LevelAt(l), prev[l], key)
    {
      hide LeadsRight, Rank, Sorted, Behind;
      if prev != null {
        prev[level] := x;
        forall l | 0 <= l < MAX_HEIGHT ensures LevelAt(l) == old(LevelAt(l)) {}
      }
    }

    /** The first node at or above the key; prev, if given, gets the place of the key on every level. */
    method FindGreaterOrEqual(key: Key, prev: array?<Node>) returns (r: Node?)
      requires Frame() && AllSorted()
      requires prev != null ==> prev.Length == MAX_HEIGHT && prev as object !in Links() && prev as object != this
      modifies if prev != null then {prev} else {}
      ensures r == null || r in on[0]
      ensures Steps.Least(Keys(), key, KeyOfNode(r))
      ensures prev != null ==> forall l | 0 <= l < maxHeight :: Behind(head, LevelAt(l), prev[l], key)
    {
      hide LeadsRight, Rank, Sorted, Behind, KeyIsAfterNode, LexLess, KeysOf, Place, Ahead;
      HeadFirst(key);
      var x := head;
      var level := maxHeight - 1;
      while true
        invariant AllSorted()
        invariant 0 <= level < maxHeight && x in LevelAt(level).next && Place(head, x) < Rank(key)
        invariant prev != null ==> forall l | level < l < maxHeight :: Behind(head, LevelAt(l), prev[l], key)
        decreases level, |Ahead(head, LevelAt(level), x)|
      {
        Onwards(level, x, key);
        var next := x.next[level];
        if KeyIsAfterNode(key, next) {
          x := next;
        } else {
          Remember(prev, level, x, key);
          if level == 0 {
            BehindIsLeast(head, LevelAt(0), x, key);
            FirstIsLinked(x);
            return next;
          }
          level := level - 1;
        }
      }
    }

    lemma FirstIsLinked(x: Node)
      requires Frame() && AllSorted() && x in LevelAt(0).next
      ensures x.next[0] == null || x.next[0] in on[0]
    {
      assert Sorted(head, LevelAt(0)) && LeadsRight(head, LevelAt(0), x);
    }

    lemma AfterNode(x: Node)
      requires Frame() && AllSorted() && x in on[0]
      ensures LeastAbove(Keys(), x.key, KeyOfNode(x.next[0]))
    {
      SuccessorIsLeastAbove(head, LevelAt(0), x);
    }

    lemma AfterHead()
      requires Frame() && AllSorted()
      ensures Steps.Least(Keys(), [], KeyOfNode(head.next[0]))
    {
      assert Sorted(head, LevelAt(0)) && LeadsRight(head, LevelAt(0), head);
      BehindIsLeast(head, LevelAt(0), head, []);
    }

    /** The last node below the key, or the head. */
    method FindLessThan(key: Key) returns (x: Node)
      requires Frame() && AllSorted()
      ensures x == head || x in on[0]
      ensures Steps.Greatest(Keys(), Some(key), if x == head then None else Some(x.key))
    {
      hide LeadsRight, Rank;
      x := head;
      var level := maxHeight - 1;
      while true
        invariant AllSorted()
        invariant 0 <= level < maxHeight && x in LevelAt(level).next && Place(head, x) < Rank(key)
        decreases level, |Ahead(head, LevelAt(level), x)|
      {
        Onwards(level, x, key);
        var next := x.next[level];
        if next == null || !LexLess(next.key, key) {
          if level == 0 {
            BehindIsLeast(head, LevelAt(0), x, key);
            return;
          }
          level := level - 1;
        } else {
          x := next;
        }
      }
    }

    /** The last node of the list, or the head. */
    method FindLast() returns (x: Node)
      requires Frame() && AllSorted()
      ensures x == head || x in on[0]
      ensures Steps.Greatest(Keys(), None, if x == head then None else Some(x.key))
    {
      hide LeadsRight, Rank;
      x := head;
      var level := maxHeight - 1;
      while true
        invariant AllSorted()
        invariant 0 <= level < maxHeight && x in LevelAt(level).next
        decreases level, |Ahead(head, LevelAt(level), x)|
      {
        var next := x.next[level];
        if next == null {
          if level == 0 {
            EndIsGreatest(head, LevelAt(0), x);
            return;
          }
          level := level - 1;
        } else {
          FewerAhead(head, LevelAt(level), x);
          x := next;
        }
      }
    }

    /** True exactly if the key is in the list. */
    method Contains(key: Key) returns (b: bool)
      requires Frame() && AllSorted()
      ensures b <==> key in Keys()
    {
      var x := FindGreaterOrEqual(key, null);
      if key in Keys() { RankInjective(key, x.key); }
      b := x != null && x.key == key;
    }

    /** One level, then another one with probability a quarter, up to the limit. */
    method RandomHeight() returns (height: nat)
      requires rnd.Valid()
      modifies rnd
      ensures rnd.Valid() && 1 <= height <= MAX_HEIGHT && DrawnHeight(old(rnd.seed), rnd.seed, height)
    {
      hide Step;
      height := 1;
      while height < MAX_HEIGHT
        invariant 1 <= height <= MAX_HEIGHT && rnd.Valid() && rnd.seed == Iterate(old(rnd.seed), height - 1)
        invariant forall j | 1 <= j < height :: Iterate(old(rnd.seed), j) % BRANCHING == 0
      {
        var more := rnd.OneIn(BRANCHING);
        if !more { break; }
        height := height + 1;
      }
    }

    /** p is before the key and p's successor on the level behind it. */
    ghost predicate Gap(l: nat, p: Node, key: Key)
      requires Frame() && l < MAX_HEIGHT
      reads this, Links()
    {
      Behind(head, LevelAt(l), p, key) && var m := LevelAt(l).next[p]; m != null ==> Rank(key) != Place(head, m)
    }

    lemma AbsentKeyLeavesGap(l: nat, p: Node, key: Key)
      requires Frame() && AllSorted() && l < MAX_HEIGHT && key !in Keys() && Behind(head, LevelAt(l), p, key)
      ensures Gap(l, p, key)
    {
      assert Sorted(head, LevelAt(l)) && LeadsRight(head, LevelAt(l), p);
      var m := LevelAt(l).next[p];
      if m != null && Rank(key) == Place(head, m) {
        assert m in on[0];
        RankInjective(key, m.key);
      }
    }

    lemma EmptyLevelHasGap(l: nat, key: Key)
      requires Frame() && AllSorted() && l < MAX_HEIGHT && on[l] == {}
      ensures Gap(l, head, key)
    {
      assert Sorted(head, LevelAt(l)) && LeadsRight(head, LevelAt(l), head);
    }

    /** One pointer store; on a node that is not linked on the level it changes no list. */
    method SetNext(n: Node, i: nat, to: Node?)
      requires Frame() && i < MAX_HEIGHT && i < n.next.Length
      requires forall m | m in on[0] + {head} && m != n :: m.next != n.next
      modifies n.next
      ensures Frame() && n.next[i] == to
      ensures forall l | 0 <= l < MAX_HEIGHT && l != i :: LevelAt(l) == old(LevelAt(l))
      ensures n in old(LevelAt(i)).next ==> LevelAt(i) == Level(on[i], old(LevelAt(i)).next[n := to])
      ensures n !in old(LevelAt(i)).next ==> LevelAt(i) == old(LevelAt(i))
    {
      n.next[i] := to;
      forall l | 0 <= l < MAX_HEIGHT && l != i ensures LevelAt(l) == old(LevelAt(l)) {}
    }

    /** From now on x counts as linked on level i. */
    ghost method Enlist(i: nat, x: Node)
      requires Frame() && i < maxHeight && x != head && i < x.next.Length <= MAX_HEIGHT
      requires forall l | 0 <= l < MAX_HEIGHT :: x in on[l] <==> l < i
      requires forall n | n in on[0] + {head} && n != x :: n.next != x.next
      modifies this`on
      ensures Frame() && on == old(on)[i := old(on[i]) + {x}]
      ensures LevelAt(i) == Level(old(on[i]) + {x}, old(LevelAt(i)).next[x := x.next[i]])
      ensures forall l | 0 <= l < MAX_HEIGHT && l != i :: LevelAt(l) == old(LevelAt(l))
    {
      on := on[i := on[i] + {x}];
      forall l | 0 <= l < MAX_HEIGHT && l != i ensures LevelAt(l) == old(LevelAt(l)) {}
    }

    /** Links x behind p on level i: first x's own link, then the one that makes x visible. */
    method Publish(i: nat, p: Node, x: Node)
      requires Frame() && i < maxHeight && p in LevelAt(i).next && x != head && i < x.next.Length <= MAX_HEIGHT
      requires forall l | 0 <= l < MAX_HEIGHT :: x in on[l] <==> l < i
      requires forall n | n in on[0] + {head} && n != x :: n.next != x.next
      modifies this`on, x.next, p.next
      ensures Frame() && forall l | 0 <= l < MAX_HEIGHT :: x in on[l] <==> l <= i
      ensures LevelAt(i) == Link(old(LevelAt(i)), p, x)
      ensures forall l | 0 <= l < MAX_HEIGHT && l != i :: LevelAt(l) == old(LevelAt(l))
      ensures on == old(on)[i := old(on[i]) + {x}]
    {
      hide Rank, Sorted, Behind, Place, LeadsRight, LexLess;
      SetNext(x, i, p.next[i]);
      SetNext(p, i, x);
      Enlist(i, x);
    }

    /** x is linked on the levels below i, and has its place on the others. */
    ghost predicate Linking(x: Node, i: nat, prev: seq<Node>)
      requires Frame()
      reads this, Links()
    {
      && x != head && i <= x.next.Length <= maxHeight && |prev| == MAX_HEIGHT
      && (forall l | 0 <= l < MAX_HEIGHT :: x in on[l] <==> l < i)
      && (forall n | n in on[0] + {head} && n != x :: n.next != x.next)
      && (forall l | i <= l < x.next.Length :: Gap(l, prev[l], x.key))
    }

    lemma PublishedStaysLegal(before: Level, l: nat, p: Node, x: Node)
      requires Frame() && l < MAX_HEIGHT && Sorted(head, before) && Behind(head, before, p, x.key) && x !in before.next
      requires before.next[p] != null ==> Rank(x.key) != Place(head, before.next[p])
      requires LevelAt(l) == Link(before, p, x)
      ensures Sorted(head, LevelAt(l))
    {
      LinkKeepsSorted(head, before, p, x);
    }

    /** One pointer store per level, from the bottom up. */
    method LinkAll(x: Node, prev: array<Node>)
      requires Frame() && AllSorted() && prev.Length == MAX_HEIGHT && Linking(x, 0, prev[..])
      requires x.next.Length > 0 && prev as object !in Links() + {this, x.next}
      modifies this`on, Links(), x.next
      ensures Frame() && AllSorted() && on[0] == old(on[0]) + {x} && Links() == old(Links()) + {x.next}
      ensures forall l | 0 <= l < MAX_HEIGHT :: x in on[l] <==> l < x.next.Length
      ensures forall l | 0 <= l < MAX_HEIGHT :: old(on[l]) <= on[l] <= old(on[l]) + {x}
    {
      hide Rank, Sorted, Behind, Place;
      ghost var ps, links := prev[..], Links();
      for i := 0 to x.next.Length
        invariant Frame() && AllSorted() && prev[..] == ps && Linking(x, i, ps)
        invariant on[0] == old(on[0]) + if i > 0 then {x} else {}
        invariant Links() == links + if i > 0 then {x.next} else {}
        invariant forall l | 0 <= l < MAX_HEIGHT :: old(on[l]) <= on[l] <= old(on[l]) + {x}
      {
        LinkNext(x, i, prev[i], ps);
      }
    }

    method LinkNext(x: Node, i: nat, p: Node, ghost ps: seq<Node>)
      requires Frame() && AllSorted() && Linking(x, i, ps) && i < x.next.Length && p == ps[i]
      modifies this`on, Links(), x.next
      ensures Frame() && AllSorted() && Linking(x, i + 1, ps)
      ensures on[0] == old(on[0]) + {x} && Links() == old(Links()) + {x.next}
      ensures forall l | 0 <= l < MAX_HEIGHT :: old(on[l]) <= on[l] <= old(on[l]) + {x}
    {
      hide Rank, Sorted, Place, LeadsRight, Link;
      ghost var before := LevelAt(i);
      assert Gap(i, p, x.key) && Sorted(head, before);
      Publish(i, p, x);
      PublishedStaysLegal(before, i, p, x);
    }

    /** Finds the new key's place on every level that its node will have. */
    method FindPlaces(key: Key, prev: array<Node>) returns (height: nat)
      requires Frame() && AllSorted() && rnd.Valid() && key !in Keys()
      requires prev.Length == MAX_HEIGHT && prev as object !in Links() + {this, rnd}
      modifies this`maxHeight, rnd, prev
      ensures Frame() && AllSorted() && rnd.Valid() && 1 <= height <= maxHeight
      ensures DrawnHeight(old(rnd.seed), rnd.seed, height)
      ensures maxHeight == if height > old(maxHeight) then height else old(maxHeight)
      ensures forall l | 0 <= l < height :: Gap(l, prev[l], key)
    {
      hide Rank, Sorted, Behind, Place, KeysOf, LevelAt, AllSorted, Gap, LexLess, DrawnHeight;
      var x := FindGreaterOrEqual(key, prev);
      forall l | 0 <= l < maxHeight ensures Gap(l, prev[l], key) { AbsentKeyLeavesGap(l, prev[l], key); }
      height := RandomHeight();
      if height > maxHeight {
        HeadsForNewLevels(prev, height, key);
        Raise(height, prev[..], key);
      }
    }

    method NewTower(key: Key, height: nat, ghost prev: seq<Node>) returns (x: Node)
      requires Frame() && AllSorted() && 1 <= height <= maxHeight && |prev| == MAX_HEIGHT
      requires forall l | 0 <= l < height :: Gap(l, prev[l], key)
      ensures fresh(x) && fresh(x.next) && x.key == key && x.next.Length == height
      ensures AllSorted() && Linking(x, 0, prev)
    {
      hide Rank, Sorted, Behind, Place, LeadsRight, LexLess;
      x := new Node(key, height);
      forall l | 0 <= l < MAX_HEIGHT ensures LevelAt(l) == old(LevelAt(l)) {}
    }

    /** Adds a key that is not in the list. */
    method Insert(key: Key) returns (ghost node: Node)
      requires Valid() && key !in Keys()
      modifies this, rnd, Links()
      ensures Valid() && Keys() == old(Keys()) + {key}
      ensures fresh(Links() - old(Links()))
      ensures fresh(node) && node.key == key && DrawnHeight(old(rnd.seed), rnd.seed, node.next.Length)
      ensures maxHeight == if node.next.Length > old(maxHeight) then node.next.Length else old(maxHeight)
      ensures forall l | 0 <= l < MAX_HEIGHT :: on[l] == old(on[l]) + if l < node.next.Length then {node} else {}
    {
      hide Rank, Sorted, Behind, Place, LeadsRight, LexLess, KeysOf, LevelAt, AllSorted, Linking, Gap, DrawnHeight;
      ghost var before := on[0];
      var prev := new Node[MAX_HEIGHT](_ => head);
      var height := FindPlaces(key, prev);
      var x := NewTower(key, height, prev[..]);
      LinkAll(x, prev);
      OneMoreKey(before, x);
      node := x;
    }

    method Raise(height: nat, ghost prev: seq<Node>, ghost key: Key)
      requires Frame() && AllSorted() && maxHeight < height <= MAX_HEIGHT && |prev| == MAX_HEIGHT
      requires forall l | 0 <= l < height :: Gap(l, prev[l], key)
      modifies this`maxHeight
      ensures Frame() && AllSorted() && maxHeight == height && forall l | 0 <= l < height :: Gap(l, prev[l], key)
    {
      hide Rank, Sorted, Behind, Place;
      maxHeight := height;
      forall l | 0 <= l < MAX_HEIGHT ensures LevelAt(l) == old(LevelAt(l)) {}
    }

    /** On levels that the list did not have before, the new node goes right behind the head. */
    method HeadsForNewLevels(prev: array<Node>, height: nat, ghost key: Key)
      requires Frame() && AllSorted() && maxHeight < height <= MAX_HEIGHT && prev.Length == MAX_HEIGHT
      requires prev as object !in Links() && prev as object != this
      requires forall l | 0 <= l < maxHeight :: Gap(l, prev[l], key)
      modifies prev
      ensures forall l | 0 <= l < height :: Gap(l, prev[l], key)
    {
      hide Rank, Sorted, Behind, Place;
      for i := maxHeight to height
        invariant AllSorted() && forall l | 0 <= l < i :: Gap(l, prev[l], key)
      {
        EmptyLevelHasGap(i, key);
        prev[i] := head;
      }
    }
  }

  /** A position in a list, or past its end. */
  class Iterator {
    const list: SkipList
    var node: Node?

    ghost predicate InList()
      reads this, list
    {
      |list.on| > 0 && (node == null || node in list.on[0])
    }

    constructor (list: SkipList)
      ensures this.list == list && node == null
    {
      this.list := list;
      node := null;
    }

    predicate Valid()
      reads this
    {
      node != null
    }

    ghost function At(): Option<Key>
      reads this
    {
      KeyOfNode(node)
    }

    /** To the next greater key, if there is one. */
    method Next()
      requires list.Valid() && InList() && Valid()
      modifies this`node
      ensures InList() && LeastAbove(list.Keys(), old(node).key, At())
    {
      list.FirstIsLinked(node);
      list.AfterNode(node);
      node := node.next[0];
    }

    /** To the next smaller key, by a search for it. */
    method Prev()
      requires list.Valid() && InList() && Valid()
      modifies this`node
      ensures InList() && Steps.Greatest(list.Keys(), Some(old(node).key), At())
    {
      node := list.FindLessThan(node.key);
      if node == list.head { node := null; }
    }

    method Seek(target: Key)
      requires list.Valid()
      modifies this`node
      ensures InList() && Steps.Least(list.Keys(), target, At())
    {
      node := list.FindGreaterOrEqual(target, null);
    }

    method SeekToFirst()
      requires list.Valid()
      modifies this`node
      ensures InList() && Steps.Least(list.Keys(), [], At())
    {
      list.FirstIsLinked(list.head);
      list.AfterHead();
      node := list.head.next[0];
    }

    method SeekToLast()
      requires list.Valid()
      modifies this`node
      ensures InList() && Steps.Greatest(list.Keys(), None, At())
    {
      node := list.FindLast();
      if node == list.head { node := null; }
    }
  }
}
