/** The skip list under one inserting thread and any number of lock-free readers. Every load
    of a link by a reader and every store by the writer is a step of its own. */
module SkipSteps {
  import opened Options
  import opened Lex

  type Nid = nat
  type Rid = nat
  type Ptr = Option<Nid>

  const HEAD: Nid := 0
  const MAX_HEIGHT: nat := 12

  /** next has one link per level; the number of levels is the node's height. */
  datatype SNode = SNode(key: Key, next: seq<Ptr>)

  /** Linking: level i is next; own: the new node's own link on that level is set. */
  datatype Writer =
    | Idle
    | Seeking(key: Key, x: Nid, level: nat, prev: seq<Nid>)
    | Found(key: Key, prev: seq<Nid>)
    | Linking(key: Key, x: Nid, prev: seq<Nid>, i: nat, own: bool)

  datatype Query = AtOrAbove(target: Key) | Below(target: Key) | Last

  /** born and at: positions in the history when the search began and at its last load.
      seen and base: what an iteration has visited, and what the list held when it began. */
  datatype Reader =
    | Resting
    | Searching(q: Query, x: Nid, level: nat, born: nat)
    | Answered(q: Query, res: Option<Key>, born: nat, at: nat)
    | Walking(x: Nid, seen: seq<Key>, base: set<Key>)
    | Walked(seen: seq<Key>, base: set<Key>)

  /** on and hist record the run: the nodes linked on each level, and every set of keys that
      the list has held, in order. */
  datatype Sys = Sys(nodes: map<Nid, SNode>, maxHeight: nat, writer: Writer, readers: map<Rid, Reader>,
                     on: seq<set<Nid>>, hist: seq<set<Key>>)

  datatype Label =
    | InsertBegins(key: Key)
    | WriterLoads
    | HeightChosen(height: nat, x: Nid)
    | OwnLinkStored
    | Published
    | InsertEnds
    | SearchBegins(r: Rid, q: Query)
    | ReaderLoads(r: Rid)
    | WalkBegins(r: Rid)

  // ---------------------------------------------------------------- steps

  ghost function KeysOn(nodes: map<Nid, SNode>, on: set<Nid>): set<Key> {
    set n | n in on && n in nodes :: nodes[n].key
  }

  /** Null counts as infinite. */
  predicate KeyIsAfterNode(nodes: map<Nid, SNode>, target: Key, p: Ptr) {
    p.Some? && p.value in nodes && LexLess(nodes[p.value].key, target)
  }

  predicate GoesOn(nodes: map<Nid, SNode>, q: Query, p: Ptr) {
    match q
    case AtOrAbove(k) => KeyIsAfterNode(nodes, k, p)
    case Below(k) => KeyIsAfterNode(nodes, k, p)
    case Last => p.Some?
  }

  predicate HasLink(nodes: map<Nid, SNode>, n: Nid, level: nat) { n in nodes && level < |nodes[n].next| }

  function Link(nodes: map<Nid, SNode>, n: Nid, level: nat): Ptr
    requires HasLink(nodes, n, level)
  {
    nodes[n].next[level]
  }

  function SetLink(nodes: map<Nid, SNode>, n: Nid, level: nat, p: Ptr): map<Nid, SNode>
    requires HasLink(nodes, n, level)
  {
    nodes[n := SNode(nodes[n].key, nodes[n].next[level := p])]
  }

  function KeyOf(nodes: map<Nid, SNode>, n: Nid): Option<Key> {
    if n == HEAD || n !in nodes then None else Some(nodes[n].key)
  }

  /** What a search reports: the node it came to, or for AtOrAbove the one behind it. */
  function Answer(nodes: map<Nid, SNode>, q: Query, x: Nid, next: Ptr): Option<Key> {
    if q.AtOrAbove? then (if next.Some? then KeyOf(nodes, next.value) else None) else KeyOf(nodes, x)
  }

  /** One load of a search, and what the searcher makes of it. */
  function AfterLoad(s: Sys, r: Reader): Reader
    requires r.Searching? && HasLink(s.nodes, r.x, r.level) && |s.hist| > 0
  {
    var next := Link(s.nodes, r.x, r.level);
    if GoesOn(s.nodes, r.q, next) then Searching(r.q, next.value, r.level, r.born)
    else if r.level > 0 then Searching(r.q, r.x, r.level - 1, r.born)
    else Answered(r.q, Answer(s.nodes, r.q, r.x, next), r.born, |s.hist| - 1)
  }

  /** Iterator::Next, or SeekToFirst while x is the head. */
  function AfterNext(s: Sys, r: Reader): Reader
    requires r.Walking? && HasLink(s.nodes, r.x, 0)
  {
    var next := Link(s.nodes, r.x, 0);
    if next.Some? && next.value in s.nodes then Walking(next.value, r.seen + [s.nodes[next.value].key], r.base)
    else Walked(r.seen, r.base)
  }

  /** FindGreaterOrEqual as the writer runs it: it also notes where it left each level. */
  function WriterAfterLoad(s: Sys, w: Writer): Writer
    requires w.Seeking? && HasLink(s.nodes, w.x, w.level) && w.level < |w.prev|
  {
    var next := Link(s.nodes, w.x, w.level);
    if KeyIsAfterNode(s.nodes, w.key, next) then Seeking(w.key, next.value, w.level, w.prev)
    else if w.level > 0 then Seeking(w.key, w.x, w.level - 1, w.prev[w.level := w.x])
    else Found(w.key, w.prev[0 := w.x])
  }

  /** prev for the levels that the list did not have before. */
  function WithHeads(prev: seq<Nid>, from: nat): (r: seq<Nid>)
    ensures |r| == |prev|
  {
    seq(|prev|, l requires 0 <= l < |prev| => if l < from then prev[l] else HEAD)
  }

  ghost predicate Does(s: Sys, l: Label, s': Sys) {
    match l
    case InsertBegins(key) =>
      && s.writer.Idle? && |s.hist| > 0 && key !in s.hist[|s.hist| - 1] && s.maxHeight > 0
      && s' == s.(writer := Seeking(key, HEAD, s.maxHeight - 1, seq(MAX_HEIGHT, _ => HEAD)))
    case WriterLoads =>
      && s.writer.Seeking? && HasLink(s.nodes, s.writer.x, s.writer.level) && s.writer.level < |s.writer.prev|
      && s' == s.(writer := WriterAfterLoad(s, s.writer))
    case HeightChosen(height, x) =>
      && s.writer.Found? && 1 <= height <= MAX_HEIGHT && x !in s.nodes
      && var w := s.writer;
         s' == s.(nodes := s.nodes[x := SNode(w.key, seq(height, _ => None))],
                  maxHeight := if height > s.maxHeight then height else s.maxHeight,
                  writer := Linking(w.key, x, WithHeads(w.prev, s.maxHeight), 0, false))
    case OwnLinkStored =>
      && s.writer.Linking? && !s.writer.own && s.writer.i < |s.writer.prev|
      && var w := s.writer;
         && HasLink(s.nodes, w.x, w.i) && HasLink(s.nodes, w.prev[w.i], w.i)
         && s' == s.(nodes := SetLink(s.nodes, w.x, w.i, Link(s.nodes, w.prev[w.i], w.i)),
                     writer := Linking(w.key, w.x, w.prev, w.i, true))
    case Published =>
      && s.writer.Linking? && s.writer.own && s.writer.i < |s.writer.prev| && s.writer.i < |s.on|
      && var w := s.writer;
         && HasLink(s.nodes, w.prev[w.i], w.i)
         && s' == s.(nodes := SetLink(s.nodes, w.prev[w.i], w.i, Some(w.x)),
                     on := s.on[w.i := s.on[w.i] + {w.x}],
                     hist := if w.i == 0 && |s.hist| > 0 then s.hist + [s.hist[|s.hist| - 1] + {w.key}] else s.hist,
                     writer := Linking(w.key, w.x, w.prev, w.i + 1, false))
    case InsertEnds =>
      && s.writer.Linking? && s.writer.x in s.nodes && s.writer.i == |s.nodes[s.writer.x].next|
      && s' == s.(writer := Idle)
    case SearchBegins(r, q) =>
      && r in s.readers && !s.readers[r].Searching? && |s.hist| > 0 && s.maxHeight > 0
      && s' == s.(readers := s.readers[r := Searching(q, HEAD, s.maxHeight - 1, |s.hist| - 1)])
    case ReaderLoads(r) =>
      && r in s.readers && |s.hist| > 0
      && (if s.readers[r].Searching? then HasLink(s.nodes, s.readers[r].x, s.readers[r].level)
          else s.readers[r].Walking? && HasLink(s.nodes, s.readers[r].x, 0))
      && s' == s.(readers := s.readers[r := if s.readers[r].Searching? then AfterLoad(s, s.readers[r])
          else AfterNext(s, s.readers[r])])
    case WalkBegins(r) =>
      && r in s.readers && |s.hist| > 0
      && s' == s.(readers := s.readers[r := Walking(HEAD, [], s.hist[|s.hist| - 1])])
  }

  ghost predicate Init(s: Sys) {
    && s.nodes == map[HEAD := SNode([], seq(MAX_HEIGHT, _ => None))]
    && s.maxHeight == 1 && s.writer.Idle?
    && (forall r | r in s.readers :: s.readers[r].Resting?)
    && s.on == seq(MAX_HEIGHT, _ => {}) && s.hist == [{}]
  }

  // ---------------------------------------------------------------- what always holds

  /** Key order as numbers, the head below every key. */
  ghost function Pos(s: Sys, n: Nid): real
    requires n in s.nodes
  {
    if n == HEAD then -1.0 else Rank(s.nodes[n].key)
  }

  ghost predicate Linked(s: Sys, l: nat, n: Nid)
    requires |s.on| == MAX_HEIGHT && l < MAX_HEIGHT
  {
    n == HEAD || n in s.on[l]
  }

  /** On level l, n's link leads to the next greater key of that level, or to none if there is none. */
  ghost predicate Succ(s: Sys, l: nat, n: Nid)
    requires |s.on| == MAX_HEIGHT && l < MAX_HEIGHT && HasLink(s.nodes, n, l) && s.on[l] <= s.nodes.Keys
  {
    match Link(s.nodes, n, l)
    case None => forall m | m in s.on[l] :: Pos(s, m) <= Pos(s, n)
    case Some(m) => m in s.on[l] && Pos(s, n) < Pos(s, m) && forall k | k in s.on[l] ::
        Pos(s, k) <= Pos(s, n) || Pos(s, m) <= Pos(s, k)
  }

  ghost predicate Frame(s: Sys) {
    && |s.on| == MAX_HEIGHT && 1 <= s.maxHeight <= MAX_HEIGHT
    && HEAD in s.nodes && |s.nodes[HEAD].next| == MAX_HEIGHT
    && (forall n | n in s.nodes :: 1 <= |s.nodes[n].next| <= MAX_HEIGHT)
    && (forall l | 0 <= l < MAX_HEIGHT :: HEAD !in s.on[l] && s.on[l] <= s.nodes.Keys)
    && (forall l, n | 0 <= l < MAX_HEIGHT && n in s.on[l] :: l < |s.nodes[n].next|)
  }

  /** A list on every level: sorted, part of the list below, and empty above the list's height. */
  ghost predicate Levels(s: Sys)
    requires Frame(s)
  {
    && (forall l, m | 0 <= l < m < MAX_HEIGHT :: s.on[m] <= s.on[l])
    && (forall l | s.maxHeight <= l < MAX_HEIGHT :: s.on[l] == {})
    && (forall n, m | n in s.on[0] && m in s.on[0] && Pos(s, n) == Pos(s, m) :: n == m)
    && (forall l, n {:trigger Succ(s, l, n)} | 0 <= l < MAX_HEIGHT && Linked(s, l, n) :: Succ(s, l, n))
  }

  /** On level l the new key belongs right behind p. */
  ghost predicate Gap(s: Sys, l: nat, p: Nid, key: Key)
    requires Frame(s) && l < MAX_HEIGHT
  {
    && Linked(s, l, p) && Pos(s, p) < Rank(key)
    && var next := Link(s.nodes, p, l);
       next.Some? ==> next.value in s.nodes && next.value != HEAD && Rank(key) < Pos(s, next.value)
  }

  ghost predicate WriterOk(s: Sys)
    requires Frame(s) && |s.hist| > 0
  {
    match s.writer
    case Idle => true
    case Seeking(key, x, level, prev) =>
      && key !in s.hist[|s.hist| - 1] && |prev| == MAX_HEIGHT && level < s.maxHeight
      && Linked(s, level, x) && Pos(s, x) < Rank(key)
      && (forall l | level < l < s.maxHeight :: Gap(s, l, prev[l], key))
    case Found(key, prev) =>
      && key !in s.hist[|s.hist| - 1] && |prev| == MAX_HEIGHT
      && (forall l | 0 <= l < s.maxHeight :: Gap(s, l, prev[l], key))
    case Linking(key, x, prev, i, own) =>
      && |prev| == MAX_HEIGHT && x in s.nodes && x != HEAD && s.nodes[x].key == key
      && i <= |s.nodes[x].next| <= s.maxHeight && (own ==> i < |s.nodes[x].next|)
      && (i == 0 ==> key !in s.hist[|s.hist| - 1])
      && (forall l | 0 <= l < MAX_HEIGHT :: x in s.on[l] <==> l < i)
      && (forall l | i <= l < |s.nodes[x].next| :: Gap(s, l, prev[l], key))
      && (own ==> Link(s.nodes, x, i) == Link(s.nodes, prev[i], i))
  }

  /** Only the node that is being inserted is missing on some of its levels. */
  ghost predicate Towers(s: Sys)
    requires Frame(s)
  {
    forall n, l | n in s.on[0] && 0 <= l < |s.nodes[n].next| && !(s.writer.Linking? && s.writer.x == n) :: n in s.on[l]
  }

  ghost predicate HistoryOk(s: Sys) {
    && |s.hist| > 0 && |s.on| > 0
    && s.hist[|s.hist| - 1] == KeysOn(s.nodes, s.on[0])
    && (forall i, j | 0 <= i <= j < |s.hist| :: s.hist[i] <= s.hist[j])
  }

  ghost predicate Ahead(q: Query, pos: real) {
    match q
    case AtOrAbove(k) => pos < Rank(k)
    case Below(k) => pos < Rank(k)
    case Last => true
  }

  ghost predicate Least(keys: set<Key>, from: Key, res: Option<Key>) {
    match res
    case None => forall k | k in keys :: Less(k, from)
    case Some(a) => a in keys && AtMost(from, a) && forall k | k in keys && AtMost(from, k) :: AtMost(a, k)
  }

  ghost predicate Greatest(keys: set<Key>, below: Option<Key>, res: Option<Key>) {
    match res
    case None => forall k | k in keys :: below.Some? && AtMost(below.value, k)
    case Some(a) => a in keys && (below.Some? ==> Less(a, below.value)) && forall k | k in keys
        && (below.Some? ==> Less(k, below.value)) :: AtMost(k, a)
  }

  /** The answer is the one that the set of keys calls for. */
  ghost predicate Right(q: Query, res: Option<Key>, keys: set<Key>) {
    match q
    case AtOrAbove(k) => Least(keys, k, res)
    case Below(k) => Greatest(keys, Some(k), res)
    case Last => Greatest(keys, None, res)
  }

  ghost predicate Ascending(seen: seq<Key>) { forall i, j | 0 <= i < j < |seen| :: Less(seen[i], seen[j]) }

  ghost predicate ReaderOk(s: Sys, r: Rid)
    requires Frame(s) && |s.hist| > 0 && r in s.readers
  {
    match s.readers[r]
    case Resting => true
    case Searching(q, x, level, born) => level < MAX_HEIGHT && Linked(s, level, x) && Ahead(q, Pos(s, x))
        && born < |s.hist|
    case Answered(q, res, born, at) => born <= at < |s.hist| && Right(q, res, s.hist[at])
    case Walking(x, seen, base) =>
      && Linked(s, 0, x) && Ascending(seen) && base <= s.hist[|s.hist| - 1]
      && (if x == HEAD then seen == [] else seen != [] && seen[|seen| - 1] == s.nodes[x].key)
      && (forall i | 0 <= i < |seen| :: seen[i] in s.hist[|s.hist| - 1])
      && (forall k | k in base && Rank(k) <= Pos(s, x) :: k in seen)
    case Walked(seen, base) =>
      Ascending(seen) && (forall k | k in base :: k in seen)
          && (forall i | 0 <= i < |seen| :: seen[i] in s.hist[|s.hist| - 1])
  }

  ghost predicate SysInv(s: Sys) {
    && Frame(s) && Levels(s) && HistoryOk(s) && WriterOk(s) && Towers(s)
    && (forall r | r in s.readers :: ReaderOk(s, r))
  }
}
