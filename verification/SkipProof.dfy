/** What every step of the skip list keeps, and what follows for whole runs. */
module SkipProof {
  import opened Options
  import opened Lex
  import opened SkipSteps

  // ---------------------------------------------------------------- keys and nodes

  ghost function Now(s: Sys): set<Key>
    requires |s.hist| > 0
  {
    s.hist[|s.hist| - 1]
  }

  lemma NodeOf(s: Sys, k: Key) returns (n: Nid)
    requires Frame(s) && HistoryOk(s) && k in Now(s)
    ensures n in s.on[0] && n in s.nodes && n != HEAD && s.nodes[n].key == k && Pos(s, n) == Rank(k)
  {
    n :| n in s.on[0] && n in s.nodes && s.nodes[n].key == k;
  }

  lemma KeyOfNode(s: Sys, n: Nid)
    requires Frame(s) && HistoryOk(s) && n in s.on[0]
    ensures n in s.nodes && n != HEAD && s.nodes[n].key in Now(s) && Pos(s, n) == Rank(s.nodes[n].key)
  {}

  /** Comparing a node's key is comparing positions. */
  lemma AfterNode(s: Sys, l: nat, target: Key, n: Nid)
    requires Frame(s) && l < MAX_HEIGHT && Linked(s, l, n)
    ensures Succ(s, l, n) ==>
              var p := Link(s.nodes, n, l);
              (KeyIsAfterNode(s.nodes, target, p) <==> p.Some? && p.value in s.nodes && Pos(s, p.value) < Rank(target))
  {
    var p := Link(s.nodes, n, l);
    if p.Some? && p.value in s.nodes { LessIsLexicographic(s.nodes[p.value].key, target); }
  }

  // ---------------------------------------------------------------- reading

  /** At its last load a search sees exactly what the list holds at that moment. */
  lemma LastLoadIsRight(s: Sys, q: Query, x: Nid)
    requires Frame(s) && Levels(s) && HistoryOk(s) && Linked(s, 0, x) && Ahead(q, Pos(s, x))
    requires !GoesOn(s.nodes, q, Link(s.nodes, x, 0))
    ensures Right(q, Answer(s.nodes, q, x, Link(s.nodes, x, 0)), Now(s))
  {
    assert Succ(s, 0, x);
    if !q.Last? { AfterNode(s, 0, q.target, x); }
    forall k | k in Now(s) ensures exists n :: n in s.on[0] && Pos(s, n) == Rank(k) {
      var n := NodeOf(s, k);
    }
    if x != HEAD { KeyOfNode(s, x); }
    var next := Link(s.nodes, x, 0);
    if next.Some? { KeyOfNode(s, next.value); }
  }

  /** A search that goes on stays on linked nodes before its target. */
  lemma LoadGoesOn(s: Sys, q: Query, l: nat, x: Nid)
    requires Frame(s) && Levels(s) && l < MAX_HEIGHT && Linked(s, l, x) && GoesOn(s.nodes, q, Link(s.nodes, x, l))
    ensures var m := Link(s.nodes, x, l).value;
            Linked(s, l, m) && m in s.nodes && Ahead(q, Pos(s, m)) && Pos(s, x) < Pos(s, m)
  {
    assert Succ(s, l, x);
    if !q.Last? { AfterNode(s, l, q.target, x); }
  }

  lemma LoadKeepsReader(s: Sys, s': Sys, r: Rid)
    requires SysInv(s) && r in s.readers && s.readers[r].Searching? && Does(s, ReaderLoads(r), s')
    ensures ReaderOk(s', r)
  {
    var d := s.readers[r];
    assert ReaderOk(s, r);
    if GoesOn(s.nodes, d.q, Link(s.nodes, d.x, d.level)) {
      LoadGoesOn(s, d.q, d.level, d.x);
    } else if d.level == 0 {
      LastLoadIsRight(s, d.q, d.x);
    }
  }

  lemma NextKeepsReader(s: Sys, s': Sys, r: Rid)
    requires SysInv(s) && r in s.readers && s.readers[r].Walking? && Does(s, ReaderLoads(r), s')
    ensures ReaderOk(s', r)
  {
    hide Rank, WriterOk, Towers;
    var d := s.readers[r];
    assert ReaderOk(s, r);
    assert Succ(s, 0, d.x);
    var next := Link(s.nodes, d.x, 0);
    if next.Some? {
      KeyOfNode(s, next.value);
      if d.x != HEAD { KeyOfNode(s, d.x); }
    }
    forall k | k in d.base && (next.None? || Rank(k) <= Pos(s, next.value))
      ensures k in d.seen || (next.Some? && k == s.nodes[next.value].key)
    {
      var n := NodeOf(s, k);
      if next.Some? && Rank(k) > Pos(s, d.x) { RankInjective(k, s.nodes[next.value].key); }
    }
  }

  lemma ReaderMoves(s: Sys, s': Sys, r: Rid)
    requires SysInv(s) && r in s.readers && r in s'.readers && s' == s.(readers := s.readers[r := s'.readers[r]])
    requires Frame(s') && ReaderOk(s', r)
    ensures SysInv(s')
  {
    assert Levels(s') && WriterOk(s') && Towers(s') by { SameLists(s, s'); SameWriter(s, s'); }
    forall u | u in s'.readers ensures ReaderOk(s', u) {
      if u != r { assert ReaderOk(s, u); ReadersStay(s, s', u); }
    }
  }

  // ---------------------------------------------------------------- what stays

  lemma SameLists(s: Sys, s': Sys)
    requires Frame(s) && Levels(s) && s'.nodes == s.nodes && s'.on == s.on && s'.maxHeight == s.maxHeight
    ensures Frame(s') && Levels(s')
  {
    forall l, n | 0 <= l < MAX_HEIGHT && Linked(s', l, n) ensures Succ(s', l, n) {
      assert Linked(s, l, n);
      assert Succ(s, l, n);
    }
  }

  lemma SameWriter(s: Sys, s': Sys)
    requires Frame(s) && |s.hist| > 0 && WriterOk(s) && Towers(s)
    requires s'.nodes == s.nodes && s'.on == s.on && s'.maxHeight == s.maxHeight && s'.hist == s.hist
             && s'.writer == s.writer
    ensures Frame(s') && WriterOk(s') && Towers(s')
  {
    assert forall l: nat, p, k | l < MAX_HEIGHT && Gap(s, l, p, k) :: Gap(s', l, p, k);
  }

  /** Nodes keep key and height, lists and history only grow. */
  ghost predicate Grows(s: Sys, s': Sys) {
    && Frame(s) && Frame(s') && |s.hist| > 0
    && (forall n | n in s.nodes :: n in s'.nodes && s'.nodes[n].key == s.nodes[n].key)
    && (forall l | 0 <= l < MAX_HEIGHT :: s.on[l] <= s'.on[l])
    && |s.hist| <= |s'.hist| && (forall i | 0 <= i < |s.hist| :: s'.hist[i] == s.hist[i])
    && Now(s) <= Now(s')
  }

  lemma ReadersStay(s: Sys, s': Sys, r: Rid)
    requires Grows(s, s') && r in s.readers && r in s'.readers && s'.readers[r] == s.readers[r] && ReaderOk(s, r)
    ensures ReaderOk(s', r)
  {
    match s.readers[r]
    case Searching(q, x, level, born) => assert Linked(s', level, x) && Pos(s', x) == Pos(s, x);
    case Walking(x, seen, base) => assert Linked(s', 0, x) && Pos(s', x) == Pos(s, x);
    case _ =>
  }

  lemma AllReadersStay(s: Sys, s': Sys)
    requires Grows(s, s') && s'.readers == s.readers && forall r | r in s.readers :: ReaderOk(s, r)
    ensures forall r | r in s'.readers :: ReaderOk(s', r)
  {
    forall r | r in s'.readers ensures ReaderOk(s', r) { ReadersStay(s, s', r); }
  }

  lemma WriterMoves(s: Sys, s': Sys)
    requires SysInv(s) && s' == s.(writer := s'.writer) && Frame(s') && WriterOk(s') && Towers(s')
    ensures SysInv(s')
  {
    SameLists(s, s');
    AllReadersStay(s, s');
  }

  // ---------------------------------------------------------------- the writer's search

  lemma SeekGap(s: Sys, key: Key, l: nat, x: Nid)
    requires Frame(s) && Levels(s) && HistoryOk(s) && key !in Now(s) && l < MAX_HEIGHT && Linked(s, l, x)
             && Pos(s, x) < Rank(key)
    requires !KeyIsAfterNode(s.nodes, key, Link(s.nodes, x, l))
    ensures Gap(s, l, x, key)
  {
    assert Succ(s, l, x);
    AfterNode(s, l, key, x);
    var next := Link(s.nodes, x, l);
    if next.Some? {
      assert next.value in s.on[0];
      KeyOfNode(s, next.value);
      if Rank(key) == Pos(s, next.value) { RankInjective(key, s.nodes[next.value].key); }
    }
  }

  lemma WriterLoadKeeps(s: Sys, s': Sys)
    requires SysInv(s) && Does(s, WriterLoads, s')
    ensures SysInv(s')
  {
    var w := s.writer;
    var next := Link(s.nodes, w.x, w.level);
    assert Succ(s, w.level, w.x);
    AfterNode(s, w.level, w.key, w.x);
    if !KeyIsAfterNode(s.nodes, w.key, next) { SeekGap(s, w.key, w.level, w.x); }
    forall l: nat, p, k | l < MAX_HEIGHT && Gap(s, l, p, k) ensures Gap(s', l, p, k) {}
    assert WriterOk(s');
    WriterMoves(s, s');
  }

  lemma InsertBeginKeeps(s: Sys, s': Sys, key: Key)
    requires SysInv(s) && Does(s, InsertBegins(key), s')
    ensures SysInv(s')
  {
    WriterMoves(s, s');
  }

  lemma InsertEndKeeps(s: Sys, s': Sys)
    requires SysInv(s) && Does(s, InsertEnds, s')
    ensures SysInv(s')
  {
    var w := s.writer;
    forall n, l | n in s'.on[0] && 0 <= l < |s'.nodes[n].next| ensures n in s'.on[l] {
      if n != w.x { assert n in s.on[0]; }
    }
    WriterMoves(s, s');
  }

  // ---------------------------------------------------------------- the writer's stores

  /** Nodes keep their keys. */
  ghost predicate KeysStay(s: Sys, s': Sys) {
    forall n | n in s.nodes :: n in s'.nodes && s'.nodes[n].key == s.nodes[n].key
  }

  lemma SuccStays(s: Sys, s': Sys, l: nat, n: Nid)
    requires Frame(s) && Frame(s') && l < MAX_HEIGHT && KeysStay(s, s') && s'.on[l] == s.on[l]
    requires Linked(s, l, n) && Succ(s, l, n) && Link(s'.nodes, n, l) == Link(s.nodes, n, l)
    ensures Linked(s', l, n) && Succ(s', l, n)
  {
    assert forall m | m in s.nodes :: Pos(s', m) == Pos(s, m);
  }

  lemma GapStays(s: Sys, s': Sys, l: nat, p: Nid, key: Key)
    requires Frame(s) && Frame(s') && l < MAX_HEIGHT && KeysStay(s, s') && s.on[l] <= s'.on[l]
    requires Gap(s, l, p, key) && Link(s'.nodes, p, l) == Link(s.nodes, p, l)
    ensures Gap(s', l, p, key)
  {}

  lemma KeysOnStay(s: Sys, s': Sys)
    requires Frame(s) && Frame(s') && KeysStay(s, s') && s'.on[0] == s.on[0]
    ensures KeysOn(s'.nodes, s'.on[0]) == KeysOn(s.nodes, s.on[0])
  {}

  /** A step that links nothing new on any level. */
  lemma LevelsStay(s: Sys, s': Sys)
    requires Frame(s) && Frame(s') && Levels(s) && KeysStay(s, s') && s'.on == s.on && s'.maxHeight >= s.maxHeight
    requires forall l, n {:trigger Linked(s, l, n)} | 0 <= l < MAX_HEIGHT && Linked(s, l, n) ::
             Link(s'.nodes, n, l) == Link(s.nodes, n, l)
    ensures Levels(s')
  {
    forall l, n | 0 <= l < MAX_HEIGHT && Linked(s', l, n) ensures Succ(s', l, n) {
      assert Linked(s, l, n);
      SuccStays(s, s', l, n);
    }
  }

  lemma HeightChosenKeeps(s: Sys, s': Sys, height: nat, x: Nid)
    requires SysInv(s) && Does(s, HeightChosen(height, x), s')
    ensures SysInv(s')
  {
    hide Succ, KeysOn, Rank;
    var w := s.writer;
    assert Frame(s') && KeysStay(s, s');
    LevelsStay(s, s');
    forall l | 0 <= l < height ensures Gap(s', l, s'.writer.prev[l], w.key) {
      if l < s.maxHeight {
        GapStays(s, s', l, w.prev[l], w.key);
      } else {
        assert Linked(s, l, HEAD);
        HeadGap(s, l, w.key);
        GapStays(s, s', l, HEAD, w.key);
      }
    }
    KeysOnStay(s, s');
    AllReadersStay(s, s');
  }

  /** On a level without nodes every key belongs right behind the head. */
  lemma HeadGap(s: Sys, l: nat, key: Key)
    requires Frame(s) && l < MAX_HEIGHT && s.on[l] == {} && Succ(s, l, HEAD)
    ensures Gap(s, l, HEAD, key)
  {}

  lemma OwnLinkKeeps(s: Sys, s': Sys)
    requires SysInv(s) && Does(s, OwnLinkStored, s')
    ensures SysInv(s')
  {
    hide Succ, KeysOn, Rank;
    var w := s.writer;
    assert Frame(s') && KeysStay(s, s');
    LevelsStay(s, s');
    forall l | w.i <= l < |s.nodes[w.x].next| ensures Gap(s', l, w.prev[l], w.key) {
      assert Gap(s, l, w.prev[l], w.key);
      GapStays(s, s', l, w.prev[l], w.key);
    }
    KeysOnStay(s, s');
    AllReadersStay(s, s');
  }

  // ---------------------------------------------------------------- publication

  /** x is linked behind p on a level: on paper, without the rest of the system. */
  lemma LinkedBehind(s: Sys, i: nat, p: Nid, x: Nid, n: Nid)
    requires Frame(s) && i < MAX_HEIGHT && x in s.nodes && x != HEAD && Linked(s, i, p) && Succ(s, i, p)
    requires Gap(s, i, p, s.nodes[x].key) && Linked(s, i, n) && Succ(s, i, n) && n != p
    requires forall a, b | a in s.on[i] && b in s.on[i] && Pos(s, a) == Pos(s, b) :: a == b
    ensures match Link(s.nodes, n, i)
            case None => Pos(s, x) <= Pos(s, n)
            case Some(m) => Pos(s, x) <= Pos(s, n) || Pos(s, m) <= Pos(s, x)
  {
    hide Rank;
  }

  lemma LinkedSucc(s: Sys, i: nat, n: Nid)
    requires Frame(s) && Levels(s) && i < MAX_HEIGHT && Linked(s, i, n)
    ensures Succ(s, i, n)
    ensures forall a, b | a in s.on[i] && b in s.on[i] && Pos(s, a) == Pos(s, b) :: a == b
  {
    hide Succ;
  }

  /** The one store that links x on a level keeps the level sorted. */
  lemma PublishedSucc(s: Sys, s': Sys, n: Nid)
    requires SysInv(s) && Does(s, Published, s') && Frame(s') && Linked(s', s.writer.i, n)
    ensures Succ(s', s.writer.i, n)
  {
    hide Rank, KeysOn, HistoryOk, Towers, ReaderOk, Levels, Succ;
    var w := s.writer;
    var i, p := w.i, w.prev[w.i];
    assert Gap(s, i, p, w.key) && Linked(s, i, p);
    LinkedSucc(s, i, p);
    if n != w.x { LinkedSucc(s, i, n); }
    PutBehind(s, s', i, p, w.x, n);
  }

  /** s' is s with x linked behind p on level i. */
  ghost predicate LinksIn(s: Sys, s': Sys, i: nat, p: Nid, x: Nid)
    requires i < |s.on|
  {
    && HasLink(s.nodes, p, i) && HasLink(s.nodes, x, i) && x != p && Link(s.nodes, x, i) == Link(s.nodes, p, i)
    && s'.nodes == SetLink(s.nodes, p, i, Some(x)) && s'.on == s.on[i := s.on[i] + {x}]
  }

  lemma PutBehind(s: Sys, s': Sys, i: nat, p: Nid, x: Nid, n: Nid)
    requires Frame(s) && Frame(s') && i < MAX_HEIGHT && LinksIn(s, s', i, p, x) && x != HEAD && x !in s.on[i]
    requires Gap(s, i, p, s.nodes[x].key) && Succ(s, i, p)
    requires forall a, b | a in s.on[i] && b in s.on[i] && Pos(s, a) == Pos(s, b) :: a == b
    requires n == x || (Linked(s, i, n) && Succ(s, i, n))
    ensures Succ(s', i, n)
  {
    hide Rank;
    assert forall m | m in s.nodes :: Pos(s', m) == Pos(s, m);
    if n != x && n != p { LinkedBehind(s, i, p, x, n); }
  }

  lemma PublishedFrame(s: Sys, s': Sys)
    requires SysInv(s) && Does(s, Published, s')
    ensures Frame(s') && KeysStay(s, s') && s.writer.i < |s.nodes[s.writer.x].next|
  {
    hide Succ, Rank, KeysOn, HistoryOk, Towers, ReaderOk;
    var w := s.writer;
    forall l, n | 0 <= l < MAX_HEIGHT && n in s'.on[l] ensures l < |s'.nodes[n].next| {
      if n in s.on[l] { assert l < |s.nodes[n].next|; }
    }
  }

  lemma PublishedLevels(s: Sys, s': Sys)
    requires SysInv(s) && Does(s, Published, s') && Frame(s') && KeysStay(s, s')
    ensures Levels(s')
  {
    hide Succ, Rank, KeysOn, HistoryOk, Towers, ReaderOk;
    var w := s.writer;
    forall l, n | 0 <= l < MAX_HEIGHT && Linked(s', l, n) ensures Succ(s', l, n) {
      if l == w.i {
        PublishedSucc(s, s', n);
      } else {
        assert Linked(s, l, n);
        SuccStays(s, s', l, n);
      }
    }
    forall n, m | n in s'.on[0] && m in s'.on[0] && Pos(s', n) == Pos(s', m) ensures n == m {
      if w.i == 0 {
        KeyIsNew(s, n);
        KeyIsNew(s, m);
      }
    }
  }

  lemma KeyIsNew(s: Sys, n: Nid)
    requires SysInv(s) && s.writer.Linking? && s.writer.i == 0
    ensures n in s.on[0] ==> n in s.nodes && Pos(s, n) != Rank(s.writer.key)
  {
    hide Levels, Towers, ReaderOk;
    if n in s.on[0] {
      KeyOfNode(s, n);
      if Pos(s, n) == Rank(s.writer.key) { RankInjective(s.nodes[n].key, s.writer.key); }
    }
  }

  lemma PublishedHistory(s: Sys, s': Sys)
    requires SysInv(s) && Does(s, Published, s') && Frame(s') && KeysStay(s, s')
    ensures HistoryOk(s') && |s'.hist| > 0 && Grows(s, s')
  {
    hide Levels, Towers, ReaderOk, Rank;
    var w := s.writer;
    if w.i == 0 {
      assert KeysOn(s'.nodes, s'.on[0]) == KeysOn(s.nodes, s.on[0]) + {w.key};
    } else {
      KeysOnStay(s, s');
    }
  }

  lemma PublishedWriter(s: Sys, s': Sys)
    requires SysInv(s) && Does(s, Published, s') && Frame(s') && KeysStay(s, s') && |s'.hist| > 0
    ensures WriterOk(s') && Towers(s')
  {
    hide Levels, ReaderOk, Rank, KeysOn, HistoryOk;
    var w := s.writer;
    forall l | w.i + 1 <= l < |s.nodes[w.x].next| ensures Gap(s', l, w.prev[l], w.key) {
      assert Gap(s, l, w.prev[l], w.key);
      GapStays(s, s', l, w.prev[l], w.key);
    }
    forall n, l | n in s'.on[0] && 0 <= l < |s'.nodes[n].next| && n != w.x ensures n in s'.on[l] {
      assert n in s.on[0];
    }
  }

  lemma PublishedKeeps(s: Sys, s': Sys)
    requires SysInv(s) && Does(s, Published, s')
    ensures SysInv(s')
  {
    hide Levels, ReaderOk, HistoryOk, WriterOk, Towers, Grows, Frame;
    PublishedFrame(s, s');
    PublishedLevels(s, s');
    PublishedHistory(s, s');
    PublishedWriter(s, s');
    AllReadersStay(s, s');
  }

  // ---------------------------------------------------------------- runs

  lemma InitHolds(s: Sys)
    requires Init(s)
    ensures SysInv(s)
  {
    assert Frame(s);
    forall l, n | 0 <= l < MAX_HEIGHT && Linked(s, l, n) ensures Succ(s, l, n) {}
  }

  lemma StepKeeps(s: Sys, l: Label, s': Sys)
    requires SysInv(s) && Does(s, l, s')
    ensures SysInv(s')
  {
    hide SysInv, Levels, WriterOk, Towers, HistoryOk;
    match l
    case InsertBegins(key) => InsertBeginKeeps(s, s', key);
    case WriterLoads => WriterLoadKeeps(s, s');
    case HeightChosen(height, x) => HeightChosenKeeps(s, s', height, x);
    case OwnLinkStored => OwnLinkKeeps(s, s');
    case Published => PublishedKeeps(s, s');
    case InsertEnds => InsertEndKeeps(s, s');
    case SearchBegins(r, q) => ReaderStepKeeps(s, l, s', r);
    case ReaderLoads(r) => ReaderStepKeeps(s, l, s', r);
    case WalkBegins(r) => ReaderStepKeeps(s, l, s', r);
  }

  lemma ReaderStepKeeps(s: Sys, l: Label, s': Sys, r: Rid)
    requires SysInv(s) && Does(s, l, s') && (l.SearchBegins? || l.ReaderLoads? || l.WalkBegins?) && l.r == r
    ensures SysInv(s')
  {
    assert Frame(s');
    if l.ReaderLoads? {
      if s.readers[r].Searching? { LoadKeepsReader(s, s', r); } else { NextKeepsReader(s, s', r); }
    }
    assert ReaderOk(s', r);
    ReaderMoves(s, s', r);
  }

  ghost predicate StepsTo(s: Sys, s': Sys) { exists l :: Does(s, l, s') }

  ghost predicate Run(run: seq<Sys>) {
    |run| > 0 && Init(run[0]) && forall i | 0 < i < |run| :: StepsTo(run[i - 1], run[i])
  }

  /** Every reachable state, also in the middle of an insertion, is legal. */
  lemma {:induction false} RunsKeep(run: seq<Sys>, i: nat)
    requires Run(run) && i < |run|
    ensures SysInv(run[i])
  {
    if i == 0 {
      InitHolds(run[0]);
    } else {
      RunsKeep(run, i - 1);
      assert StepsTo(run[i - 1], run[i]);
      var l :| Does(run[i - 1], l, run[i]);
      StepKeeps(run[i - 1], l, run[i]);
    }
  }

  // ---------------------------------------------------------------- the lists

  ghost function Above(s: Sys, l: nat, n: Nid): set<Nid>
    requires Frame(s) && l < MAX_HEIGHT && n in s.nodes
  {
    set m | m in s.on[l] && Pos(s, n) < Pos(s, m)
  }

  lemma NextLeavesFewer(s: Sys, l: nat, n: Nid)
    requires Frame(s) && Levels(s) && l < MAX_HEIGHT && Linked(s, l, n) && Link(s.nodes, n, l).Some?
    ensures var m := Link(s.nodes, n, l).value;
            Linked(s, l, m) && m in Above(s, l, n) && Above(s, l, n) == Above(s, l, m) + {m}
    ensures |Above(s, l, Link(s.nodes, n, l).value)| < |Above(s, l, n)|
  {
    assert Succ(s, l, n);
    var m := Link(s.nodes, n, l).value;
    forall k | k in Above(s, l, n) ensures k in Above(s, l, m) + {m} {
      if k != m { assert k in s.on[0] && m in s.on[0] && Pos(s, k) != Pos(s, m); }
    }
    assert Above(s, l, n) == Above(s, l, m) + {m};
    assert m !in Above(s, l, m);
  }

  /** The nodes that one comes by when following the links of level l from n. */
  ghost function Chain(s: Sys, l: nat, n: Nid): (c: seq<Nid>)
    requires Frame(s) && Levels(s) && l < MAX_HEIGHT && Linked(s, l, n)
    ensures forall i | 0 <= i < |c| :: c[i] in s.on[l] && c[i] in s.nodes && c[i] != HEAD
    decreases |Above(s, l, n)|
  {
    match Link(s.nodes, n, l)
    case None => []
    case Some(m) => NextLeavesFewer(s, l, n); [m] + Chain(s, l, m)
  }

  ghost predicate Rising(s: Sys, c: seq<Nid>)
    requires forall i | 0 <= i < |c| :: c[i] in s.nodes
  {
    forall i, j | 0 <= i < j < |c| :: Pos(s, c[i]) < Pos(s, c[j])
  }

  lemma RisingMore(s: Sys, m: Nid, c: seq<Nid>)
    requires m in s.nodes && (forall i | 0 <= i < |c| :: c[i] in s.nodes && Pos(s, m) < Pos(s, c[i])) && Rising(s, c)
    ensures forall i | 0 <= i < |[m] + c| :: ([m] + c)[i] in s.nodes
    ensures Rising(s, [m] + c)
  {}

  lemma {:induction false} ChainIsSorted(s: Sys, l: nat, n: Nid)
    requires Frame(s) && Levels(s) && l < MAX_HEIGHT && Linked(s, l, n)
    ensures forall k :: k in Chain(s, l, n) <==> k in Above(s, l, n)
    ensures Rising(s, Chain(s, l, n))
    decreases |Above(s, l, n)|
  {
    hide Levels, Rank;
    NextOf(s, l, n);
    match Link(s.nodes, n, l)
    case None =>
    case Some(m) =>
      ChainIsSorted(s, l, m);
      var c := Chain(s, l, m);
      assert Chain(s, l, n) == [m] + c;
      forall i | 0 <= i < |c| ensures Pos(s, m) < Pos(s, c[i]) { assert c[i] in c; }
      RisingMore(s, m, c);
      forall k ensures k in Chain(s, l, n) <==> k in Above(s, l, n) { assert k in [m] + c <==> k == m || k in c; }
  }

  lemma NextOf(s: Sys, l: nat, n: Nid)
    requires Frame(s) && Levels(s) && l < MAX_HEIGHT && Linked(s, l, n)
    ensures var p := Link(s.nodes, n, l);
            if p.None? then Above(s, l, n) == {}
            else Linked(s, l, p.value) && Above(s, l, n) == Above(s, l, p.value) + {p.value}
                 && |Above(s, l, p.value)| < |Above(s, l, n)|
  {
    assert Succ(s, l, n);
    if Link(s.nodes, n, l).Some? { NextLeavesFewer(s, l, n); }
  }

  /** In every state of every run, also after each single store of an insertion, every level
      is a strictly sorted list and part of the list below it. */
  lemma LevelsAlwaysSorted(run: seq<Sys>, i: nat, l: nat)
    requires Run(run) && i < |run| && l < MAX_HEIGHT
    ensures var s := run[i];
            && Frame(s) && Levels(s) && |s.hist| > 0
            && (var c := Chain(s, l, HEAD);
                forall a, b | 0 <= a < b < |c| :: Less(s.nodes[c[a]].key, s.nodes[c[b]].key))
            && (l + 1 < MAX_HEIGHT ==> forall n | n in Chain(s, l + 1, HEAD) :: n in Chain(s, l, HEAD))
            && (forall k :: k in Now(s) <==> exists n :: n in Chain(s, 0, HEAD) && s.nodes[n].key == k)
  {
    RunsKeep(run, i);
    var s := run[i];
    ChainIsSorted(s, l, HEAD);
    ChainIsSorted(s, 0, HEAD);
    if l + 1 < MAX_HEIGHT { ChainIsSorted(s, l + 1, HEAD); }
    var c := Chain(s, l, HEAD);
    forall a, b | 0 <= a < b < |c| ensures Less(s.nodes[c[a]].key, s.nodes[c[b]].key) {
      assert c[a] in s.on[0] && c[b] in s.on[0] && Pos(s, c[a]) < Pos(s, c[b]);
    }
    forall k | k in Now(s) ensures exists n :: n in Chain(s, 0, HEAD) && s.nodes[n].key == k {
      var n := NodeOf(s, k);
      assert n in Above(s, 0, HEAD);
    }
  }

  /** Alone, a search ends: every load goes down a level or leaves fewer nodes ahead on it. */
  lemma SearchProgress(s: Sys, s': Sys, r: Rid)
    requires SysInv(s) && r in s.readers && s.readers[r].Searching? && Does(s, ReaderLoads(r), s')
    requires s'.readers[r].Searching?
    ensures var d, d' := s.readers[r], s'.readers[r];
            && d.level < MAX_HEIGHT && d'.level < MAX_HEIGHT && d.x in s.nodes && d'.x in s.nodes
            && (d'.level < d.level || (d'.level == d.level && |Above(s, d'.level, d'.x)| < |Above(s, d.level, d.x)|))
  {
    var d := s.readers[r];
    assert ReaderOk(s, r);
    if GoesOn(s.nodes, d.q, Link(s.nodes, d.x, d.level)) { NextLeavesFewer(s, d.level, d.x); }
  }

  // ---------------------------------------------------------------- what readers learn

  ghost predicate Recorded(run: seq<Sys>, i: nat, j: nat, keys: set<Key>)
    requires i < |run|
  {
    exists n :: 0 <= n <= i && |run[n].hist| == j + 1 && Now(run[n]) == keys
  }

  lemma HistoryStep(s: Sys, l: Label, s': Sys)
    requires SysInv(s) && Does(s, l, s')
    ensures s'.hist == s.hist
            || (l.Published? && s.writer.Linking? && s'.hist == s.hist + [Now(s) + {s.writer.key}]
                && s.writer.key !in Now(s))
  {}

  /** Entry j of the history is what the list held in some state of the run. */
  lemma {:induction false} HistoryIsReal(run: seq<Sys>, i: nat, j: nat)
    requires Run(run) && i < |run| && j < |run[i].hist|
    ensures Recorded(run, i, j, run[i].hist[j])
  {
    RunsKeep(run, i);
    if j + 1 == |run[i].hist| {
      assert Now(run[i]) == run[i].hist[j];
    } else if i > 0 {
      RunsKeep(run, i - 1);
      assert StepsTo(run[i - 1], run[i]);
      var l :| Does(run[i - 1], l, run[i]);
      HistoryStep(run[i - 1], l, run[i]);
      HistoryIsReal(run, i - 1, j);
      var n :| 0 <= n <= i - 1 && |run[n].hist| == j + 1 && Now(run[n]) == run[i - 1].hist[j];
      assert run[i].hist[j] == run[i - 1].hist[j];
    }
  }

  /** Every finished search reports what the list held at a moment between its start and its end:
      the smallest key at or above the target, the greatest below it, or the greatest of all. */
  lemma SearchesAreRight(run: seq<Sys>, i: nat, r: Rid)
    requires Run(run) && i < |run| && r in run[i].readers && run[i].readers[r].Answered?
    ensures var d := run[i].readers[r];
            d.born <= d.at < |run[i].hist| && Right(d.q, d.res, run[i].hist[d.at])
                && Recorded(run, i, d.at, run[i].hist[d.at])
  {
    RunsKeep(run, i);
    assert ReaderOk(run[i], r);
    HistoryIsReal(run, i, run[i].readers[r].at);
  }

  /** Contains compares FindGreaterOrEqual's key with its own. It never misses a key that was
      there when it began, and never reports one that was not there at its last load. */
  lemma ContainsIsRight(run: seq<Sys>, i: nat, r: Rid)
    requires Run(run) && i < |run| && r in run[i].readers && run[i].readers[r].Answered?
             && run[i].readers[r].q.AtOrAbove?
    ensures var d := run[i].readers[r];
            && d.born <= d.at < |run[i].hist|
            && (d.res == Some(d.q.target) <==> d.q.target in run[i].hist[d.at])
            && (d.q.target in run[i].hist[d.born] ==> d.res == Some(d.q.target))
  {
    RunsKeep(run, i);
    assert ReaderOk(run[i], r);
    var d := run[i].readers[r];
    if d.q.target in run[i].hist[d.at] { RankInjective(d.q.target, d.res.value); }
  }

  /** An iteration visits keys in strictly ascending order and misses none that was there when
      it began, whatever is inserted meanwhile. */
  lemma IterationMissesNothing(run: seq<Sys>, i: nat, r: Rid)
    requires Run(run) && i < |run| && r in run[i].readers && run[i].readers[r].Walked?
    ensures var d := run[i].readers[r];
            && |run[i].hist| > 0 && Ascending(d.seen)
            && (forall k | k in d.base :: k in d.seen) && (forall k | k in d.seen :: k in Now(run[i]))
  {
    RunsKeep(run, i);
    assert ReaderOk(run[i], r);
  }

  // ---------------------------------------------------------------- what an insertion does

  ghost function Added(w: Writer): set<Key> { if w.Linking? && w.i > 0 then {w.key} else {} }

  /** From its beginning to its end an insertion adds its key, at the first publication, and nothing else. */
  lemma {:induction false} InsertAddsItsKey(run: seq<Sys>, a: nat, b: nat, key: Key)
    requires Run(run) && a < b < |run| && Does(run[a], InsertBegins(key), run[a + 1])
    requires forall t | a < t <= b :: !run[t].writer.Idle?
    ensures |run[a].hist| > 0 && |run[b].hist| > 0 && key !in Now(run[a])
    ensures run[b].writer.key == key && Now(run[b]) == Now(run[a]) + Added(run[b].writer)
  {
    hide SysInv, Run;
    Started(run, a, key);
    if a + 1 < b {
      InsertAddsItsKey(run, a, b - 1, key);
      RunsKeep(run, b - 1);
      var l := StepOf(run, b);
      HistoryStep(run[b - 1], l, run[b]);
      PublishedOnce(run[b - 1], l, run[b]);
    }
  }

  lemma Started(run: seq<Sys>, a: nat, key: Key)
    requires Run(run) && a + 1 < |run| && Does(run[a], InsertBegins(key), run[a + 1])
    ensures |run[a].hist| > 0 && |run[a + 1].hist| > 0 && key !in Now(run[a]) && Now(run[a + 1]) == Now(run[a])
    ensures run[a + 1].writer.Seeking? && run[a + 1].writer.key == key
  {}

  lemma StepOf(run: seq<Sys>, i: nat) returns (l: Label)
    requires Run(run) && 0 < i < |run|
    ensures Does(run[i - 1], l, run[i])
  {
    assert StepsTo(run[i - 1], run[i]);
    l :| Does(run[i - 1], l, run[i]);
  }

  lemma PublishedOnce(s: Sys, l: Label, s': Sys)
    requires SysInv(s) && Does(s, l, s') && !s.writer.Idle? && !s'.writer.Idle? && |s'.hist| > 0
    ensures s'.writer.key == s.writer.key
    ensures if l.Published? && s.writer.i == 0 then Now(s') == Now(s) + {s.writer.key}
            else Now(s') == Now(s) && Added(s'.writer) == Added(s.writer)
    ensures l.Published? && s.writer.i == 0 ==> Added(s.writer) == {} && Added(s'.writer) == {s.writer.key}
  {}

  /** When an insertion ends, its key is in the list and its node is linked on all its levels. */
  lemma InsertEndsComplete(s: Sys, s': Sys)
    requires SysInv(s) && Does(s, InsertEnds, s')
    ensures var w := s.writer;
            && w.key in Now(s') && Added(w) == {w.key}
            && s'.nodes[w.x].key == w.key && forall l | 0 <= l < |s'.nodes[w.x].next| :: w.x in s'.on[l]
  {
    var w := s.writer;
    assert w.x in s.on[0];
    KeyOfNode(s, w.x);
  }
}
