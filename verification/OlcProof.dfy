/** Every interleaving of the optimistic protocol keeps the tree and answers correctly. */
module OlcProof {
  import opened Options
  import opened Lex
  import opened Nodes
  import opened Splitting
  import opened Trees
  import opened TreeChanges
  import opened TreeSpace
  import opened Olc

  // ---------------------------------------------------------------- the invariant

  /** g can still be validated or upgraded by t: the page has not been in an exclusive
      section since g was captured, except one that t itself has begun. */
  ghost predicate Intact(s: Sys, t: Tid, g: Guard)
    requires t in s.procs
  {
    && g.pid in s.words && s.words[g.pid].ver == g.ver
    && (s.words[g.pid].owner.None? || (s.words[g.pid].owner == Some(t) && s.procs[t].Hold?))
  }

  ghost predicate Bound(s: Sys, g: Guard) {
    g.pid in s.words && g.ver <= s.words[g.pid].ver
  }

  /** The page is part of the tree and its fences enclose k. */
  ghost predicate OnPath(t: Tree, p: PID, k: Key) {
    p in t.pages && Covers(t.pages[p], k)
  }

  /** par is on k's path and sends k to child. */
  ghost predicate LinksTo(t: Tree, par: PID, child: PID, k: Key) {
    if par == META then child == t.root
    else OnPath(t, par, k) && WF(t.pages[par]) && !t.pages[par].isLeaf && child == Next(t.pages[par], k)
  }

  ghost predicate BornOk(s: Sys, c: Ctx) { c.born < |s.hist| && Callable(c.op) }

  /** The operation agrees with the map at moment `at`. */
  ghost predicate Agrees(hist: seq<map<Key, Bytes>>, op: Op, born: nat, res: Option<Bytes>, at: nat) {
    && born <= at < |hist|
    && match op
       case Lookup(k) => res == MapGet(hist[at], k)
       case Insert(k, v) => born < at && k !in hist[at - 1] && hist[at] == hist[at - 1][k := v]
       case Remove(k) =>
         if res.None? then k !in hist[at]
         else born < at && MapGet(hist[at - 1], k) == res && hist[at] == hist[at - 1] - {k}
  }

  ghost predicate GuardsOk(s: Sys, t: Tid, c: Ctx, par: Guard, node: Guard, parOk: bool)
    requires t in s.procs
  {
    && BornOk(s, c) && Bound(s, par) && Bound(s, node) && node.pid != META && node.pid != par.pid
    && (Intact(s, t, par) ==> LinksTo(s.tree, par.pid, node.pid, SeekKey(c)))
    && (parOk && Intact(s, t, node) ==> OnPath(s.tree, node.pid, SeekKey(c)))
  }

  ghost predicate HoldOk(s: Sys, t: Tid, p: Proc)
    requires t in s.procs && p.Hold?
  {
    && GuardsOk(s, t, p.c, p.par, p.node, p.parOk)
    && (p.par.pid in p.held ==> s.words[p.par.pid].ver == p.par.ver)
    && (p.node.pid in p.held ==> s.words[p.node.pid].ver == p.node.ver)
    && (p.right.None? ==> p.held <= {p.par.pid, p.node.pid})
    && (p.right.Some? ==>
          && p.held == {p.par.pid, p.node.pid, p.right.value} && p.par.pid != META
          && SiblingsUnder(s.tree, p.par.pid, SeekKey(p.c), p.node.pid, p.right.value))
  }

  /** right follows node under par, where par sends k to node. */
  ghost predicate SiblingsUnder(t: Tree, par: PID, k: Key, node: PID, right: PID) {
    && LinksTo(t, par, node, k) && par != META
    && (var pos := LowerBound(t.pages[par].keys, k);
        pos + 1 <= |t.pages[par].keys| && Child(t.pages[par], pos + 1) == right)
  }

  ghost predicate MergePlace(t: Tree, par: PID, pos: nat, node: PID, right: PID) {
    && par in t.pages && WF(t.pages[par]) && !t.pages[par].isLeaf && pos + 1 <= |t.pages[par].keys|
    && Child(t.pages[par], pos) == node && Child(t.pages[par], pos + 1) == right
    && node in t.pages && t.pages[node].isLeaf
  }

  ghost predicate NextOk(s: Sys, p: Proc) {
    match p
    case Start(c) => BornOk(s, c)
    case Done(op, born, res, at) => Agrees(s.hist, op, born, res, at)
    case _ => false
  }

  ghost predicate ProcOk(s: Sys, t: Tid)
    requires t in s.procs
  {
    match s.procs[t]
    case Idle => true
    case Start(c) => BornOk(s, c)
    case AtMeta(c, par) => BornOk(s, c) && Bound(s, par) && par.pid == META
    case Fetched(c, par, child, checked) =>
      && BornOk(s, c) && Bound(s, par)
      && (Intact(s, t, par) ==> LinksTo(s.tree, par.pid, child, SeekKey(c)))
      && (checked ==> child != META && child != par.pid && child in s.words)
    case At(c, par, node, parOk) => GuardsOk(s, t, c, par, node, parOk)
    case Read(c, par, node, parOk, res) =>
      && GuardsOk(s, t, c, par, node, parOk) && c.seek.ToLeaf?
      && (Intact(s, t, node) && node.pid in s.tree.pages ==> LeafAnswers(s.tree, node.pid, c.op.key, res))
    case Verdict(c, par, parOk, res, at) =>
      && BornOk(s, c) && Bound(s, par) && c.born <= at < |s.hist|
      && (parOk || Intact(s, t, par) ==> MapGet(s.hist[at], c.op.key) == res)
    case Hold(c, par, node, parOk, right, held) => HoldOk(s, t, s.procs[t])
    case Grown(c, root, node, held) =>
      && BornOk(s, c) && root in held && node in held && root != META && node in s.tree.pages
      && root in s.tree.pages && s.tree.pages[root] == Node(false, [], [], [], [], node)
    case Removed(par, pos, node, right, held, next) =>
      && {par, node, right} <= held && MergePlace(s.tree, par, pos, node, right) && next.Done? && NextOk(s, next)
    case Unlocking(held, next) => NextOk(s, next)
    case Done(op, born, res, at) => Agrees(s.hist, op, born, res, at)
  }

  ghost predicate LeafAnswers(t: Tree, p: PID, k: Key, res: Option<Bytes>)
    requires p in t.pages
  {
    WF(t.pages[p]) && t.pages[p].isLeaf && res == LeafGet(t.pages[p], k)
  }

  ghost predicate TreeOk(s: Sys) {
    && Inv(s.tree) && Spacious(s.tree) && META !in s.tree.pages
    && |s.hist| > 0 && s.hist[|s.hist| - 1] == Contents(s.tree)
  }

  /** Memory agrees with the tree wherever no exclusive lock is held. */
  ghost predicate MemoryOk(s: Sys) {
    && META in s.words && s.tree.pages.Keys <= s.words.Keys
    && (forall p | p in s.tree.pages && s.words[p].owner.None? :: p in s.mem && s.mem[p] == s.tree.pages[p])
    && (s.words[META].owner.None? ==> s.memRoot == s.tree.root)
  }

  /** Exclusive locks and the threads' held pages are the same thing. */
  ghost predicate LocksOk(s: Sys) {
    && (forall p | p in s.words && s.words[p].owner.Some? ::
        s.words[p].owner.value in s.procs && p in Held(s.procs[s.words[p].owner.value]))
    && (forall t, p | t in s.procs && p in Held(s.procs[t]) :: p in s.words && s.words[p].owner == Some(t))
  }

  ghost predicate SysInv(s: Sys) {
    && TreeOk(s) && MemoryOk(s) && LocksOk(s)
    && (forall t | t in s.procs :: ProcOk(s, t))
  }

  // ---------------------------------------------------------------- what others see

  ghost predicate Mine(s: Sys, t: Tid, p: PID) {
    p in s.words && s.words[p].owner == Some(t)
  }

  /** What a step of t leaves alone: pages that t has not locked stay in the tree with
      their content, versions only grow, history is only extended. */
  ghost predicate Frame(s: Sys, s': Sys, t: Tid) {
    && t in s.procs && s'.procs.Keys == s.procs.Keys
    && (forall u | u in s.procs && u != t :: s'.procs[u] == s.procs[u])
    && s.words.Keys <= s'.words.Keys
    && (forall p | p in s.words :: s'.words[p].ver >= s.words[p].ver)
    && (forall p | p in s.words && s'.words[p] != s.words[p] ::
          || (s.words[p].owner.None? && s'.words[p] == Word(s.words[p].ver, Some(t)))
          || (s.words[p].owner == Some(t) && s'.words[p] == Word(s.words[p].ver + 1, None)))
    && (forall p | p in s.words && !Mine(s, t, p) ::
          && (p in s'.tree.pages <==> p in s.tree.pages)
          && (p in s.tree.pages ==> s'.tree.pages[p] == s.tree.pages[p]))
    && (META in s.words && !Mine(s, t, META) ==> s'.tree.root == s.tree.root)
    && |s.hist| <= |s'.hist| && s.hist == s'.hist[..|s.hist|]
  }

  lemma IntactBackward(s: Sys, s': Sys, t: Tid, u: Tid, g: Guard)
    requires Frame(s, s', t) && u in s.procs && u != t && Bound(s, g)
    ensures Bound(s', g)
    ensures Intact(s', u, g) ==> Intact(s, u, g) && !Mine(s, t, g.pid)
  {}

  lemma LinksToStays(s: Sys, s': Sys, t: Tid, par: PID, child: PID, k: Key)
    requires Frame(s, s', t) && par in s.words && !Mine(s, t, par)
    requires LinksTo(s.tree, par, child, k)
    ensures LinksTo(s'.tree, par, child, k)
  {}

  lemma GuardsStay(s: Sys, s': Sys, t: Tid, u: Tid, c: Ctx, par: Guard, node: Guard, parOk: bool)
    requires Frame(s, s', t) && u in s.procs && u != t && GuardsOk(s, u, c, par, node, parOk)
    ensures GuardsOk(s', u, c, par, node, parOk)
  {
    IntactBackward(s, s', t, u, par);
    IntactBackward(s, s', t, u, node);
    if Intact(s', u, par) {
      LinksToStays(s, s', t, par.pid, node.pid, SeekKey(c));
    }
  }

  lemma AgreesStays(h: seq<map<Key, Bytes>>, h': seq<map<Key, Bytes>>, op: Op, born: nat, res: Option<Bytes>, at: nat)
    requires |h| <= |h'| && h == h'[..|h|] && Agrees(h, op, born, res, at)
    ensures Agrees(h', op, born, res, at)
  {
    assert h[at] == h'[at];
    if at > 0 { assert h[at - 1] == h'[at - 1]; }
  }

  lemma NextStays(s: Sys, s': Sys, p: Proc)
    requires |s.hist| <= |s'.hist| && s.hist == s'.hist[..|s.hist|] && NextOk(s, p)
    ensures NextOk(s', p)
  {
    if p.Done? { AgreesStays(s.hist, s'.hist, p.op, p.born, p.res, p.at); }
  }

  /** Pages held by another thread are not t's, hence untouched. */
  lemma HeldStays(s: Sys, s': Sys, t: Tid, u: Tid, p: PID)
    requires LocksOk(s) && Frame(s, s', t) && u in s.procs && u != t && p in Held(s.procs[u])
    ensures p in s.words && !Mine(s, t, p) && s'.words[p] == s.words[p]
    ensures p in s'.tree.pages <==> p in s.tree.pages
    ensures p in s.tree.pages ==> s'.tree.pages[p] == s.tree.pages[p]
  {}

  lemma HoldStays(s: Sys, s': Sys, t: Tid, u: Tid)
    requires LocksOk(s) && Frame(s, s', t) && u in s.procs && u != t && s.procs[u].Hold? && HoldOk(s, u, s.procs[u])
    ensures HoldOk(s', u, s.procs[u])
  {
    var p := s.procs[u];
    GuardsStay(s, s', t, u, p.c, p.par, p.node, p.parOk);
    if p.par.pid in p.held { HeldStays(s, s', t, u, p.par.pid); }
    if p.node.pid in p.held { HeldStays(s, s', t, u, p.node.pid); }
    if p.right.Some? {
      LinksToStays(s, s', t, p.par.pid, p.node.pid, SeekKey(p.c));
    }
  }

  lemma ProcIsOk(s: Sys, u: Tid)
    requires SysInv(s) && u in s.procs
    ensures TreeOk(s) && MemoryOk(s) && LocksOk(s) && ProcOk(s, u)
  {}

  lemma OthersStay(s: Sys, s': Sys, t: Tid, u: Tid)
    requires SysInv(s) && Frame(s, s', t) && u in s.procs && u != t
    ensures ProcOk(s', u)
  {
    hide SysInv, TreeOk, MemoryOk;
    ProcIsOk(s, u);
    match s.procs[u]
    case Fetched(c, par, child, checked) =>
      IntactBackward(s, s', t, u, par);
      if Intact(s', u, par) { LinksToStays(s, s', t, par.pid, child, SeekKey(c)); }
    case At(c, par, node, parOk) =>
      GuardsStay(s, s', t, u, c, par, node, parOk);
    case Read(c, par, node, parOk, res) =>
      GuardsStay(s, s', t, u, c, par, node, parOk);
      IntactBackward(s, s', t, u, node);
    case Verdict(c, par, parOk, res, at) =>
      IntactBackward(s, s', t, u, par);
      assert s.hist[at] == s'.hist[at];
    case Hold(c, par, node, parOk, right, held) =>
      HoldStays(s, s', t, u);
    case Grown(c, root, node, held) =>
      HeldStays(s, s', t, u, root);
      HeldStays(s, s', t, u, node);
    case Removed(par, pos, node, right, held, next) =>
      HeldStays(s, s', t, u, par);
      HeldStays(s, s', t, u, node);
      NextStays(s, s', next);
    case Unlocking(held, next) =>
      NextStays(s, s', next);
    case Done(op, born, res, at) =>
      AgreesStays(s.hist, s'.hist, op, born, res, at);
    case _ =>
  }

  // ---------------------------------------------------------------- steps that only move one thread

  lemma FramedKeeps(s: Sys, s': Sys, t: Tid)
    requires SysInv(s) && Frame(s, s', t)
    requires TreeOk(s') && MemoryOk(s') && LocksOk(s') && ProcOk(s', t)
    ensures SysInv(s')
  {
    forall u | u in s'.procs ensures ProcOk(s', u) {
      if u != t { OthersStay(s, s', t, u); }
    }
  }

  lemma GoesKeeps(s: Sys, s': Sys, t: Tid, p: Proc)
    requires SysInv(s) && t in s.procs && Goes(s, s', t, p) && Held(p) == Held(s.procs[t])
    requires ProcOk(s', t)
    ensures SysInv(s')
  {
    GoesFrame(s, s', t, p);
    GoesLocks(s, s', t, p);
    assert TreeOk(s') && MemoryOk(s');
    FramedKeeps(s, s', t);
  }

  lemma GoesFrame(s: Sys, s': Sys, t: Tid, p: Proc)
    requires t in s.procs && Goes(s, s', t, p)
    ensures Frame(s, s', t)
  {}

  lemma GoesLocks(s: Sys, s': Sys, t: Tid, p: Proc)
    requires LocksOk(s) && t in s.procs && Goes(s, s', t, p) && Held(p) == Held(s.procs[t])
    ensures LocksOk(s')
  {}

  /** A thread without locks holds an intact guard exactly if validation would succeed. */
  lemma IntactIsQuiet(s: Sys, t: Tid, g: Guard)
    requires LocksOk(s) && t in s.procs && Held(s.procs[t]) == {}
    ensures Intact(s, t, g) <==> Quiet(s, g)
  {
  }

  lemma LinkCovers(t: Tree, par: PID, child: PID, k: Key)
    requires Inv(t) && META !in t.pages && LinksTo(t, par, child, k)
    ensures OnPath(t, child, k) && child != META && child != par
  {
    if par != META { HopCovers(t, par, k); }
  }

  lemma LinkCoversNow(s: Sys, par: PID, child: PID, k: Key)
    requires TreeOk(s) && MemoryOk(s) && LinksTo(s.tree, par, child, k)
    ensures OnPath(s.tree, child, k) && child != META && child != par && child in s.words
  {
    LinkCovers(s.tree, par, child, k);
  }

  lemma InvokeKeeps(s: Sys, s': Sys, t: Tid, op: Op)
    requires SysInv(s) && t in s.procs && Invoke(s, s', t, op)
    ensures SysInv(s')
  {
    GoesKeeps(s, s', t, s'.procs[t]);
  }

  lemma CaptureMetaKeeps(s: Sys, s': Sys, t: Tid)
    requires SysInv(s) && t in s.procs && CaptureMeta(s, s', t)
    ensures SysInv(s')
  {
    hide SysInv, TreeOk, MemoryOk, LocksOk, Contents;
    ProcIsOk(s, t);
    GoesKeeps(s, s', t, s'.procs[t]);
  }

  lemma ReadRootKeeps(s: Sys, s': Sys, t: Tid, child: PID)
    requires SysInv(s) && t in s.procs && ReadRoot(s, s', t, child)
    ensures SysInv(s')
  {
    hide SysInv, TreeOk, MemoryOk, LocksOk, Contents;
    ProcIsOk(s, t);
    IntactIsQuiet(s, t, s.procs[t].par);
    GoesKeeps(s, s', t, s'.procs[t]);
  }

  lemma ReadChildKeeps(s: Sys, s': Sys, t: Tid, child: PID)
    requires SysInv(s) && t in s.procs && ReadChild(s, s', t, child)
    ensures SysInv(s')
  {
    assert ProcOk(s, t);
    var p := s.procs[t];
    IntactIsQuiet(s, t, p.node);
    if Quiet(s, p.node) {
      assert OnPath(s.tree, p.node.pid, SeekKey(p.c));
      assert s.mem[p.node.pid] == s.tree.pages[p.node.pid];
      assert WF(s.tree.pages[p.node.pid]);
    }
    GoesKeeps(s, s', t, s'.procs[t]);
  }

  lemma CheckFetchedKeeps(s: Sys, s': Sys, t: Tid)
    requires SysInv(s) && t in s.procs && CheckFetched(s, s', t)
    ensures SysInv(s')
  {
    hide SysInv, TreeOk, LocksOk, MemoryOk;
    ProcIsOk(s, t);
    var p := s.procs[t];
    IntactIsQuiet(s, t, p.par);
    if Quiet(s, p.par) { LinkCoversNow(s, p.par.pid, p.child, SeekKey(p.c)); }
    GoesKeeps(s, s', t, s'.procs[t]);
  }

  lemma CaptureNodeKeeps(s: Sys, s': Sys, t: Tid)
    requires SysInv(s) && t in s.procs && CaptureNode(s, s', t)
    ensures SysInv(s')
  {
    hide SysInv, TreeOk, MemoryOk, LocksOk, Contents;
    ProcIsOk(s, t);
    GoesKeeps(s, s', t, s'.procs[t]);
  }

  lemma CheckParKeeps(s: Sys, s': Sys, t: Tid)
    requires SysInv(s) && t in s.procs && CheckPar(s, s', t)
    ensures SysInv(s')
  {
    hide SysInv, TreeOk, LocksOk, MemoryOk;
    ProcIsOk(s, t);
    var p := s.procs[t];
    IntactIsQuiet(s, t, p.par);
    if Quiet(s, p.par) { LinkCoversNow(s, p.par.pid, p.node.pid, SeekKey(p.c)); }
    GoesKeeps(s, s', t, s'.procs[t]);
  }

  lemma ReadLeafKeeps(s: Sys, s': Sys, t: Tid, res: Option<Bytes>)
    requires SysInv(s) && t in s.procs && ReadLeaf(s, s', t, res)
    ensures SysInv(s')
  {
    assert ProcOk(s, t);
    var p := s.procs[t];
    IntactIsQuiet(s, t, p.node);
    if Quiet(s, p.node) && p.node.pid in s.tree.pages {
      assert s.mem[p.node.pid] == s.tree.pages[p.node.pid];
      assert WF(s.tree.pages[p.node.pid]);
    }
    GoesKeeps(s, s', t, s'.procs[t]);
  }

  lemma AnswerMatches(s: Sys, t: Tid)
    requires SysInv(s) && t in s.procs && s.procs[t].Read?
    requires Intact(s, t, s.procs[t].node) && (s.procs[t].parOk || Intact(s, t, s.procs[t].par))
    ensures MapGet(Contents(s.tree), s.procs[t].c.op.key) == s.procs[t].res
  {
    assert ProcOk(s, t);
    var p := s.procs[t];
    if !p.parOk { LinkCovers(s.tree, p.par.pid, p.node.pid, SeekKey(p.c)); }
    LeafDecides(s.tree, p.node.pid, p.c.op.key);
  }

  lemma ConcludeKeeps(s: Sys, s': Sys, t: Tid)
    requires SysInv(s) && t in s.procs && Conclude(s, s', t)
    ensures SysInv(s')
  {
    hide SysInv, TreeOk, MemoryOk, LocksOk, Contents;
    ProcIsOk(s, t);
    ConcludeAnswer(s, s', t);
    ConcludeProcOk(s, s', t);
    GoesKeeps(s, s', t, s'.procs[t]);
  }

  lemma ConcludeAnswer(s: Sys, s': Sys, t: Tid)
    requires SysInv(s) && t in s.procs && Conclude(s, s', t)
    ensures Quiet(s, s.procs[t].node) && (s.procs[t].parOk || Intact(s', t, s.procs[t].par)) ==>
              MapGet(s.hist[|s.hist| - 1], s.procs[t].c.op.key) == s.procs[t].res
  {
    hide SysInv, ProcOk, Contents, MapGet;
    ProcIsOk(s, t);
    var p := s.procs[t];
    IntactIsQuiet(s, t, p.node);
    if Quiet(s, p.node) && (p.parOk || Intact(s', t, p.par)) { AnswerMatches(s, t); }
  }

  lemma ConcludeProcOk(s: Sys, s': Sys, t: Tid)
    requires t in s.procs && Conclude(s, s', t) && ProcOk(s, t)
    requires Quiet(s, s.procs[t].node) && (s.procs[t].parOk || Intact(s', t, s.procs[t].par)) ==>
               MapGet(s.hist[|s.hist| - 1], s.procs[t].c.op.key) == s.procs[t].res
    ensures ProcOk(s', t)
  {}

  lemma FinishLookupKeeps(s: Sys, s': Sys, t: Tid)
    requires SysInv(s) && t in s.procs && FinishLookup(s, s', t)
    ensures SysInv(s')
  {
    hide SysInv, TreeOk, MemoryOk, LocksOk, Contents;
    ProcIsOk(s, t);
    GoesKeeps(s, s', t, s'.procs[t]);
  }

  lemma FinishAbsentKeeps(s: Sys, s': Sys, t: Tid)
    requires SysInv(s) && t in s.procs && FinishAbsent(s, s', t)
    ensures SysInv(s')
  {
    hide SysInv, TreeOk, MemoryOk, LocksOk, Contents;
    ProcIsOk(s, t);
    IntactIsQuiet(s, t, s.procs[t].par);
    GoesKeeps(s, s', t, s'.procs[t]);
  }

  lemma RestartKeeps(s: Sys, s': Sys, t: Tid, seek: Seek)
    requires SysInv(s) && t in s.procs && Restart(s, s', t, seek)
    ensures SysInv(s')
  {
    hide SysInv, TreeOk, MemoryOk, LocksOk, Contents;
    ProcIsOk(s, t);
    GoesKeeps(s, s', t, s'.procs[t]);
  }

  lemma ReleaseParKeeps(s: Sys, s': Sys, t: Tid)
    requires SysInv(s) && t in s.procs && ReleasePar(s, s', t)
    ensures SysInv(s')
  {
    hide SysInv, TreeOk, LocksOk, MemoryOk;
    ProcIsOk(s, t);
    var p := s.procs[t];
    if Quiet(s, p.par) { LinkCoversNow(s, p.par.pid, p.node.pid, SeekKey(p.c)); }
    GoesKeeps(s, s', t, s'.procs[t]);
  }

  lemma AbortKeeps(s: Sys, s': Sys, t: Tid, seek: Seek)
    requires SysInv(s) && t in s.procs && Abort(s, s', t, seek)
    ensures SysInv(s')
  {
    hide SysInv, TreeOk, MemoryOk, LocksOk, Contents;
    ProcIsOk(s, t);
    GoesKeeps(s, s', t, s'.procs[t]);
  }

  lemma SkipMergeKeeps(s: Sys, s': Sys, t: Tid)
    requires SysInv(s) && t in s.procs && SkipMerge(s, s', t)
    ensures SysInv(s')
  {
    hide SysInv, TreeOk, MemoryOk, LocksOk, Contents;
    ProcIsOk(s, t);
    GoesKeeps(s, s', t, s'.procs[t]);
  }

  lemma UnlockedKeeps(s: Sys, s': Sys, t: Tid)
    requires SysInv(s) && t in s.procs && Unlocked(s, s', t)
    ensures SysInv(s')
  {
    hide SysInv, TreeOk, MemoryOk, LocksOk, Contents;
    ProcIsOk(s, t);
    GoesKeeps(s, s', t, s'.procs[t]);
  }

  lemma ReturnKeeps(s: Sys, s': Sys, t: Tid)
    requires SysInv(s) && t in s.procs && Return(s, s', t)
    ensures SysInv(s')
  {
    GoesKeeps(s, s', t, s'.procs[t]);
  }

  // ---------------------------------------------------------------- locking

  ghost predicate TakesLock(s: Sys, s': Sys, t: Tid, pid: PID, p: Proc) {
    && t in s.procs && pid in s.words && s.words[pid].owner.None?
    && s' == s.(words := s.words[pid := Word(s.words[pid].ver, Some(t))], procs := s.procs[t := p])
    && Held(p) == Held(s.procs[t]) + {pid}
  }

  lemma LockFrame(s: Sys, s': Sys, t: Tid, pid: PID, p: Proc)
    requires TakesLock(s, s', t, pid, p)
    ensures Frame(s, s', t)
  {}

  lemma LockLocks(s: Sys, s': Sys, t: Tid, pid: PID, p: Proc)
    requires LocksOk(s) && TakesLock(s, s', t, pid, p)
    ensures LocksOk(s')
  {}

  lemma LockKeeps(s: Sys, s': Sys, t: Tid, pid: PID, p: Proc)
    requires SysInv(s) && TakesLock(s, s', t, pid, p) && ProcOk(s', t)
    ensures SysInv(s')
  {
    hide SysInv, LocksOk, Frame, ProcOk, TreeOk, MemoryOk, TakesLock;
    TakerIsKnown(s, s', t, pid, p);
    ProcIsOk(s, t);
    LockFrame(s, s', t, pid, p);
    LockLocks(s, s', t, pid, p);
    LockRest(s, s', t, pid, p);
    FramedKeeps(s, s', t);
  }

  lemma TakerIsKnown(s: Sys, s': Sys, t: Tid, pid: PID, p: Proc)
    requires TakesLock(s, s', t, pid, p)
    ensures t in s.procs && t in s'.procs
  {}

  lemma LockRest(s: Sys, s': Sys, t: Tid, pid: PID, p: Proc)
    requires TreeOk(s) && MemoryOk(s) && TakesLock(s, s', t, pid, p)
    ensures TreeOk(s') && MemoryOk(s')
  {
    hide Inv, Spacious, Contents;
  }

  lemma LockFirstKeeps(s: Sys, s': Sys, t: Tid, parent: bool)
    requires SysInv(s) && t in s.procs && LockFirst(s, s', t, parent)
    ensures SysInv(s')
  {
    hide SysInv, TreeOk, MemoryOk, LocksOk, Contents;
    ProcIsOk(s, t);
    var p := s.procs[t];
    IntactIsQuiet(s, t, p.par);
    IntactIsQuiet(s, t, p.node);
    LockKeeps(s, s', t, if parent then p.par.pid else p.node.pid, s'.procs[t]);
  }

  lemma LockNodeKeeps(s: Sys, s': Sys, t: Tid)
    requires SysInv(s) && t in s.procs && LockNode(s, s', t)
    ensures SysInv(s')
  {
    hide SysInv, TreeOk, MemoryOk, LocksOk, Contents;
    ProcIsOk(s, t);
    var p := s.procs[t];
    LockNodeProcOk(s, s', t);
    LockKeeps(s, s', t, p.node.pid, s'.procs[t]);
  }

  lemma LockNodeProcOk(s: Sys, s': Sys, t: Tid)
    requires LocksOk(s) && t in s.procs && ProcOk(s, t) && LockNode(s, s', t)
    ensures ProcOk(s', t)
  {}

  lemma LockRightKeeps(s: Sys, s': Sys, t: Tid, pos: nat, right: PID)
    requires SysInv(s) && t in s.procs && LockRight(s, s', t, pos, right)
    ensures SysInv(s')
  {
    hide SysInv, TreeOk, MemoryOk, LocksOk, Contents;
    ProcIsOk(s, t);
    LockRightProcOk(s, s', t, pos, right);
    LockKeeps(s, s', t, right, s'.procs[t]);
  }

  lemma LockRightProcOk(s: Sys, s': Sys, t: Tid, pos: nat, right: PID)
    requires LocksOk(s) && t in s.procs && ProcOk(s, t) && LockRight(s, s', t, pos, right)
    ensures ProcOk(s', t)
  {}

  // ---------------------------------------------------------------- changing pages

  /** The thread changes the tree on pages it has locked and pages nobody knew; afterwards
      it holds what it held, and the new pages. */
  ghost predicate Rewrites(s: Sys, s': Sys, t: Tid, p: Proc, added: set<PID>) {
    && t in s.procs && s'.procs == s.procs[t := p] && Held(p) == Held(s.procs[t]) + added
    && s'.mem == s.mem && s'.memRoot == s.memRoot
    && added !! s.words.Keys && s'.words.Keys == s.words.Keys + added
    && (forall q | q in s.words :: s'.words[q] == s.words[q])
    && (forall q | q in added :: s'.words[q] == Word(0, Some(t)))
    && (forall q | q !in Held(s.procs[t]) && q !in added ::
          && (q in s'.tree.pages <==> q in s.tree.pages)
          && (q in s.tree.pages ==> s'.tree.pages[q] == s.tree.pages[q]))
    && (META !in Held(s.procs[t]) ==> s'.tree.root == s.tree.root)
    && |s.hist| <= |s'.hist| && s.hist == s'.hist[..|s.hist|]
  }

  lemma RewriteFrame(s: Sys, s': Sys, t: Tid, p: Proc, added: set<PID>)
    requires LocksOk(s) && Rewrites(s, s', t, p, added)
    ensures Frame(s, s', t)
  {}

  lemma RewriteLocks(s: Sys, s': Sys, t: Tid, p: Proc, added: set<PID>)
    requires LocksOk(s) && Rewrites(s, s', t, p, added)
    ensures LocksOk(s')
  {
    forall u, q | u in s'.procs && q in Held(s'.procs[u]) ensures q in s'.words && s'.words[q].owner == Some(u) {
      if u != t { assert q in Held(s.procs[u]); }
    }
  }

  lemma RewriteMemory(s: Sys, s': Sys, t: Tid, p: Proc, added: set<PID>)
    requires LocksOk(s) && MemoryOk(s) && Rewrites(s, s', t, p, added)
    ensures MemoryOk(s')
  {
    forall q | q in s'.tree.pages
      ensures q in s'.words && (s'.words[q].owner.None? ==> q in s'.mem && s'.mem[q] == s'.tree.pages[q])
    {
      if q !in added && q !in Held(s.procs[t]) { assert q in s.tree.pages; }
    }
  }

  lemma RewriteKeeps(s: Sys, s': Sys, t: Tid, p: Proc, added: set<PID>)
    requires SysInv(s) && Rewrites(s, s', t, p, added) && TreeOk(s') && ProcOk(s', t)
    ensures SysInv(s')
  {
    RewriteFrame(s, s', t, p, added);
    RewriteLocks(s, s', t, p, added);
    RewriteMemory(s, s', t, p, added);
    FramedKeeps(s, s', t);
  }

  /** Under its lock, taken at the captured version, the page is still the one that the
      descent reached. */
  lemma HeldNodeOnPath(s: Sys, t: Tid)
    requires SysInv(s) && t in s.procs && s.procs[t].Hold? && s.procs[t].node.pid in s.procs[t].held
    requires s.procs[t].parOk || s.procs[t].par.pid in s.procs[t].held
    ensures OnPath(s.tree, s.procs[t].node.pid, SeekKey(s.procs[t].c))
    ensures s.procs[t].par.pid in s.procs[t].held ==>
              LinksTo(s.tree, s.procs[t].par.pid, s.procs[t].node.pid, SeekKey(s.procs[t].c))
  {
    assert ProcOk(s, t);
    var p := s.procs[t];
    assert Intact(s, t, p.node);
    if p.par.pid in p.held {
      assert Intact(s, t, p.par);
      LinkCovers(s.tree, p.par.pid, p.node.pid, SeekKey(p.c));
    }
  }

  lemma CommitInsertKeeps(s: Sys, s': Sys, t: Tid)
    requires SysInv(s) && t in s.procs && CommitInsert(s, s', t)
    ensures SysInv(s')
  {
    hide SysInv, TreeOk, LocksOk, MemoryOk, Rewrites;
    ProcIsOk(s, t);
    HeldNodeOnPath(s, t);
    CommitInsertTreeOk(s, s', t);
    CommitInsertRewrites(s, s', t);
    RewriteKeeps(s, s', t, s'.procs[t], {});
  }

  lemma CommitInsertTreeOk(s: Sys, s': Sys, t: Tid)
    requires TreeOk(s) && t in s.procs && CommitInsert(s, s', t) && Callable(s.procs[t].c.op)
    requires OnPath(s.tree, s.procs[t].node.pid, SeekKey(s.procs[t].c))
    ensures TreeOk(s')
  {
    var p := s.procs[t];
    InsertLeafContents(s.tree, p.node.pid, p.c.op.key, p.c.op.val);
    InsertFits(s.tree, p.node.pid, p.c.op.key, p.c.op.val);
    InsertBounded(s.tree, p.node.pid, p.c.op.key, p.c.op.val, MAX_KV_SIZE);
  }

  lemma CommitInsertRewrites(s: Sys, s': Sys, t: Tid)
    requires t in s.procs && CommitInsert(s, s', t)
    ensures Rewrites(s, s', t, s'.procs[t], {})
  {}

  lemma CommitRemoveKeeps(s: Sys, s': Sys, t: Tid, pos: nat)
    requires SysInv(s) && t in s.procs && CommitRemove(s, s', t, pos)
    ensures SysInv(s')
  {
    assert s.procs[t].node.pid in s.procs[t].held && (s.procs[t].parOk || s.procs[t].par.pid in s.procs[t].held) by {
      assert ProcOk(s, t);
    }
    HeldNodeOnPath(s, t);
    CommitRemoveTreeOk(s, s', t, pos);
    assert ProcOk(s', t) by {
      assert ProcOk(s, t);
      CommitRemoveProcOk(s, s', t, pos);
    }
    CommitRemoveRewrites(s, s', t, pos);
    RewriteKeeps(s, s', t, s'.procs[t], {});
  }

  lemma CommitRemoveTreeOk(s: Sys, s': Sys, t: Tid, pos: nat)
    requires TreeOk(s) && t in s.procs && CommitRemove(s, s', t, pos)
    requires OnPath(s.tree, s.procs[t].node.pid, SeekKey(s.procs[t].c))
    ensures TreeOk(s')
    ensures MapGet(s.hist[|s.hist| - 1], s.procs[t].c.op.key)
            == LeafGet(s.tree.pages[s.procs[t].node.pid], s.procs[t].c.op.key)
  {
    var p := s.procs[t];
    var i := LowerBound(s.tree.pages[p.node.pid].keys, p.c.op.key);
    RemoveLeafContents(s.tree, p.node.pid, i);
    RemoveFits(s.tree, p.node.pid, i);
    RemoveBounded(s.tree, p.node.pid, i, MAX_KV_SIZE);
    LeafDecides(s.tree, p.node.pid, p.c.op.key);
  }

  lemma CommitRemoveRewrites(s: Sys, s': Sys, t: Tid, pos: nat)
    requires t in s.procs && CommitRemove(s, s', t, pos) && s.procs[t].node.pid in s.procs[t].held
    ensures Rewrites(s, s', t, s'.procs[t], {})
  {}

  lemma CommitRemoveProcOk(s: Sys, s': Sys, t: Tid, pos: nat)
    requires LocksOk(s) && t in s.procs && ProcOk(s, t) && CommitRemove(s, s', t, pos) && |s.hist| > 0
    requires MapGet(s.hist[|s.hist| - 1], s.procs[t].c.op.key)
             == LeafGet(s.tree.pages[s.procs[t].node.pid], s.procs[t].c.op.key)
    ensures ProcOk(s', t)
  {
    var p := s.procs[t];
    var next := if p.right.Some? then s'.procs[t].next else s'.procs[t].next;
    assert s'.hist[|s.hist| - 1] == s.hist[|s.hist| - 1];
    assert NextOk(s', next);
  }

  lemma CommitMergeKeeps(s: Sys, s': Sys, t: Tid)
    requires SysInv(s) && t in s.procs && CommitMerge(s, s', t)
    ensures SysInv(s')
  {
    hide SysInv, TreeOk, MemoryOk, LocksOk, CommitMerge, Rewrites;
    ProcIsOk(s, t);
    CommitMergeTreeOk(s, s', t);
    CommitMergeRewrites(s, s', t);
    RewriteKeeps(s, s', t, s'.procs[t], {});
  }

  lemma CommitMergeRewrites(s: Sys, s': Sys, t: Tid)
    requires t in s.procs && ProcOk(s, t) && CommitMerge(s, s', t)
    ensures t in s'.procs && Rewrites(s, s', t, s'.procs[t], {}) && ProcOk(s', t)
  {
    hide CanMerge, Merged, MergedParent, MergeBound, Contents;
    assert s'.hist[..|s.hist|] == s.hist;
  }

  lemma CommitMergeTreeOk(s: Sys, s': Sys, t: Tid)
    requires TreeOk(s) && t in s.procs && CommitMerge(s, s', t)
    ensures TreeOk(s')
  {
    hide Contents, Spacious, MergeBound, MergePages, CanMerge, Inv;
    var p := s.procs[t];
    MergeKeeps(s.tree, p.parent, p.pos, p.leaf, p.sibling);
    MergeStaysSpacious(s.tree, p.parent, p.pos, p.leaf, p.sibling);
    MergeDropsPage(s.tree, p.parent, p.pos, p.leaf, p.sibling);
  }

  lemma MergeDropsPage(t: Tree, par: PID, pos: nat, node: PID, right: PID)
    requires CanMerge(t, par, pos, node, right)
    ensures MergePages(t, par, pos, node, right).pages.Keys <= t.pages.Keys
  {}

  lemma SplitsKeeps(s: Sys, s': Sys, t: Tid, c: Ctx, par: PID, i: nat, node: PID, held: set<PID>, ordered: bool,
        newPid: PID)
    requires SysInv(s) && t in s.procs && Splits(s, s', t, c, par, node, held, ordered, newPid)
    requires Held(s.procs[t]) == held && par in held && node in held && BornOk(s, c)
    requires !s.tree.pages[par].isLeaf && i <= |s.tree.pages[par].keys| && Child(s.tree.pages[par], i) == node
    ensures SysInv(s')
  {
    assert newPid !in s.tree.pages;
    SplitsTreeOk(s, s', t, c, par, i, node, held, ordered, newPid);
    assert ProcOk(s', t);
    SplitsRewrites(s, s', t, c, par, node, held, ordered, newPid);
    RewriteKeeps(s, s', t, s'.procs[t], {newPid});
  }

  lemma SplitsTreeOk(s: Sys, s': Sys, t: Tid, c: Ctx, par: PID, i: nat, node: PID, held: set<PID>, ordered: bool,
        newPid: PID)
    requires TreeOk(s) && t in s.procs && Splits(s, s', t, c, par, node, held, ordered, newPid) && META in s.words
    requires !s.tree.pages[par].isLeaf && i <= |s.tree.pages[par].keys| && Child(s.tree.pages[par], i) == node
    requires newPid !in s.tree.pages
    ensures TreeOk(s')
  {
    hide Contents, Spacious, Free, SplitLeft, SplitRight, SplitPage, Separator, HasSpaceFor, Inv, CanSplit, SplitPoint,
         WF;
    var slot, sep := FindSeparator(s.tree.pages[node], ordered).slot, Separator(s.tree.pages[node], ordered);
    SplitIsLegal(s.tree, par, i, node, ordered, newPid);
    SplitStaysSpacious(s.tree, par, i, node, slot, sep, newPid);
    SplitKeeps(s.tree, par, i, node, slot, sep, newPid);
    SplitAddsPage(s.tree, par, i, node, slot, sep, newPid);
  }

  /** findSeparator's choice, at a slot above 0, makes a legal split. */
  lemma SplitIsLegal(t: Tree, par: PID, i: nat, node: PID, ordered: bool, newPid: PID)
    requires Inv(t) && Spacious(t) && par in t.pages && !t.pages[par].isLeaf && i <= |t.pages[par].keys|
    requires Child(t.pages[par], i) == node && node in t.pages && |t.pages[node].keys| > 1
    requires FindSeparator(t.pages[node], ordered).slot > 0 && newPid !in t.pages && newPid != NO_NEIGHBOUR
    ensures var slot, sep := FindSeparator(t.pages[node], ordered).slot, Separator(t.pages[node], ordered);
            && CanSplit(t, par, i, node, slot, sep, newPid) && |sep| <= MAX_KV_SIZE
            && Free(SplitRight(t.pages[node], slot, sep)) >= 0
  {
    hide Free, SplitRight, Spacious, LinksOk, LevelsApart, ChainOk, SplitPoint;
    SeparatorIsSplitPoint(t.pages[node], ordered);
    PageIsSpacious(t, node, ordered);
    RightFits(t.pages[node], ordered);
  }

  lemma SplitAddsPage(t: Tree, par: PID, i: nat, node: PID, slot: nat, sep: Key, newPid: PID)
    requires CanSplit(t, par, i, node, slot, sep, newPid)
    ensures SplitPage(t, par, node, slot, sep, newPid).pages.Keys == t.pages.Keys + {newPid}
  {
    SplitPageIsSplit(t, par, i, node, slot, sep, newPid);
  }

  lemma SplitsRewrites(s: Sys, s': Sys, t: Tid, c: Ctx, par: PID, node: PID, held: set<PID>, ordered: bool, newPid: PID)
    requires t in s.procs && Splits(s, s', t, c, par, node, held, ordered, newPid)
    requires Held(s.procs[t]) == held && par in held && node in held
    ensures Rewrites(s, s', t, s'.procs[t], {newPid})
  {
    hide Free, SplitLeft, SplitRight, SplitParent, Separator, HasSpaceFor;
  }

  lemma CommitSplitKeeps(s: Sys, s': Sys, t: Tid, ordered: bool, newPid: PID)
    requires SysInv(s) && t in s.procs && CommitSplit(s, s', t, ordered, newPid)
    ensures SysInv(s')
  {
    hide Splits, Contents;
    assert ProcOk(s, t);
    var p := s.procs[t];
    HeldNodeOnPath(s, t);
    var i := LowerBound(s.tree.pages[p.par.pid].keys, SeekKey(p.c));
    SplitsKeeps(s, s', t, p.c, p.par.pid, i, p.node.pid, p.held, ordered, newPid);
  }

  lemma CommitGrowKeeps(s: Sys, s': Sys, t: Tid, newRoot: PID)
    requires SysInv(s) && t in s.procs && CommitGrow(s, s', t, newRoot)
    ensures SysInv(s')
  {
    ProcIsOk(s, t);
    HeldNodeOnPath(s, t);
    CommitGrowTreeOk(s, s', t, newRoot);
    CommitGrowRewrites(s, s', t, newRoot);
    RewriteKeeps(s, s', t, s'.procs[t], {newRoot});
  }

  lemma CommitGrowTreeOk(s: Sys, s': Sys, t: Tid, newRoot: PID)
    requires TreeOk(s) && MemoryOk(s) && t in s.procs && CommitGrow(s, s', t, newRoot)
    ensures TreeOk(s')
  {
    hide Contents, AllFit, AllBounded;
    assert newRoot !in s.tree.pages && newRoot != META;
    GrowRootKeeps(s.tree, newRoot);
    GrowRootFits(s.tree, newRoot);
    GrowRootBounded(s.tree, newRoot, MAX_KV_SIZE);
  }

  lemma CommitGrowRewrites(s: Sys, s': Sys, t: Tid, newRoot: PID)
    requires MemoryOk(s) && t in s.procs && ProcOk(s, t) && CommitGrow(s, s', t, newRoot)
    requires LinksTo(s.tree, META, s.procs[t].node.pid, SeekKey(s.procs[t].c)) && s.procs[t].node.pid in s.tree.pages
    ensures Rewrites(s, s', t, s'.procs[t], {newRoot}) && ProcOk(s', t)
  {
    assert newRoot !in s.tree.pages && newRoot != META;
    assert s'.hist[..|s.hist|] == s.hist;
  }

  lemma GrownSplitKeeps(s: Sys, s': Sys, t: Tid, ordered: bool, newPid: PID)
    requires SysInv(s) && t in s.procs && GrownSplit(s, s', t, ordered, newPid)
    ensures SysInv(s')
  {
    hide Splits, Contents;
    assert ProcOk(s, t);
    var p := s.procs[t];
    SplitsKeeps(s, s', t, p.c, p.root, 0, p.oldRoot, p.held, ordered, newPid);
  }

  // ---------------------------------------------------------------- unlocking and writing

  lemma UnlockKeeps(s: Sys, s': Sys, t: Tid, pid: PID)
    requires SysInv(s) && t in s.procs && Unlock(s, s', t, pid)
    ensures SysInv(s')
  {
    hide SysInv, TreeOk, LocksOk, MemoryOk, Frame;
    ProcIsOk(s, t);
    UnlockFrame(s, s', t, pid);
    UnlockLocks(s, s', t, pid);
    UnlockRest(s, s', t, pid);
    FramedKeeps(s, s', t);
  }

  lemma UnlockRest(s: Sys, s': Sys, t: Tid, pid: PID)
    requires TreeOk(s) && MemoryOk(s) && t in s.procs && ProcOk(s, t) && Unlock(s, s', t, pid)
    ensures TreeOk(s') && MemoryOk(s') && ProcOk(s', t)
  {
    hide Spacious, Contents, Inv;
  }

  lemma UnlockFrame(s: Sys, s': Sys, t: Tid, pid: PID)
    requires LocksOk(s) && t in s.procs && Unlock(s, s', t, pid)
    ensures Frame(s, s', t)
  {}

  lemma UnlockLocks(s: Sys, s': Sys, t: Tid, pid: PID)
    requires LocksOk(s) && t in s.procs && Unlock(s, s', t, pid)
    ensures LocksOk(s')
  {
    forall u, q | u in s'.procs && q in Held(s'.procs[u]) ensures q in s'.words && s'.words[q].owner == Some(u) {
      assert q in Held(s.procs[u]);
    }
  }

  lemma ScribbleKeeps(s: Sys, s': Sys, t: Tid, pid: PID, n: Node, r: PID)
    requires SysInv(s) && t in s.procs && Scribble(s, s', t, pid, n, r)
    ensures SysInv(s')
  {
    assert MemoryOk(s') && s' == s.(mem := s'.mem, memRoot := s'.memRoot) by {
      ScribbleMemoryOk(s, s', t, pid, n, r);
    }
    MemoryOnlyKeeps(s, s');
  }

  lemma MemoryOnlyKeeps(s: Sys, s': Sys)
    requires SysInv(s) && s' == s.(mem := s'.mem, memRoot := s'.memRoot) && MemoryOk(s')
    ensures SysInv(s')
  {
    MemoryOnlyLocks(s, s');
    forall u | u in s'.procs ensures ProcOk(s', u) {
      MemoryIrrelevant(s, s', u);
    }
  }

  lemma MemoryOnlyLocks(s: Sys, s': Sys)
    requires LocksOk(s) && s' == s.(mem := s'.mem, memRoot := s'.memRoot)
    ensures LocksOk(s')
  {}

  lemma ScribbleMemoryOk(s: Sys, s': Sys, t: Tid, pid: PID, n: Node, r: PID)
    requires LocksOk(s) && MemoryOk(s) && t in s.procs && Scribble(s, s', t, pid, n, r)
    ensures MemoryOk(s')
  {
    assert s.words[pid].owner == Some(t);
  }

  /** What a thread relies on does not depend on bytes under someone's lock. */
  lemma MemoryIrrelevant(s: Sys, s': Sys, u: Tid)
    requires u in s.procs && ProcOk(s, u) && s' == s.(mem := s'.mem, memRoot := s'.memRoot)
    ensures ProcOk(s', u)
  {}

  // ---------------------------------------------------------------- all runs

  predicate IsRead(l: Label) {
    || l.LInvoke? || l.LCaptureMeta? || l.LReadRoot? || l.LReadChild? || l.LCheckFetched? || l.LCaptureNode?
    || l.LCheckPar?
    || l.LReadLeaf? || l.LConclude? || l.LFinishLookup? || l.LFinishAbsent? || l.LRestart? || l.LReturn?
  }

  predicate IsCommit(l: Label) {
    || l.LCommitInsert? || l.LCommitRemove? || l.LCommitMerge? || l.LSkipMerge? || l.LCommitSplit? || l.LCommitGrow?
    || l.LGrownSplit?
  }

  /** Steps of a thread that holds no lock. */
  lemma ReadKeeps(s: Sys, s': Sys, t: Tid, l: Label)
    requires SysInv(s) && Step(s, s', t, l) && IsRead(l)
    ensures SysInv(s')
  {
    hide SysInv, Invoke, CaptureMeta, ReadRoot, ReadChild, CheckFetched, CaptureNode, CheckPar, ReadLeaf, Conclude;
    match l
    case LInvoke(op) => InvokeKeeps(s, s', t, op);
    case LCaptureMeta => CaptureMetaKeeps(s, s', t);
    case LReadRoot(child) => ReadRootKeeps(s, s', t, child);
    case LReadChild(child) => ReadChildKeeps(s, s', t, child);
    case LCheckFetched => CheckFetchedKeeps(s, s', t);
    case LCaptureNode => CaptureNodeKeeps(s, s', t);
    case LCheckPar => CheckParKeeps(s, s', t);
    case LReadLeaf(res) => ReadLeafKeeps(s, s', t, res);
    case LConclude => ConcludeKeeps(s, s', t);
    case LFinishLookup => FinishLookupKeeps(s, s', t);
    case LFinishAbsent => FinishAbsentKeeps(s, s', t);
    case LRestart(seek) => RestartKeeps(s, s', t, seek);
    case LReturn => ReturnKeeps(s, s', t);
  }

  /** Steps that change the tree, and the decision not to merge. */
  lemma CommitKeeps(s: Sys, s': Sys, t: Tid, l: Label)
    requires SysInv(s) && Step(s, s', t, l) && IsCommit(l)
    ensures SysInv(s')
  {
    hide SysInv, CommitInsert, CommitRemove, CommitMerge, SkipMerge, CommitSplit, CommitGrow, GrownSplit;
    match l
    case LCommitInsert => CommitInsertKeeps(s, s', t);
    case LCommitRemove(pos) => CommitRemoveKeeps(s, s', t, pos);
    case LCommitMerge => CommitMergeKeeps(s, s', t);
    case LSkipMerge => SkipMergeKeeps(s, s', t);
    case LCommitSplit(ordered, newPid) => CommitSplitKeeps(s, s', t, ordered, newPid);
    case LCommitGrow(newPid) => CommitGrowKeeps(s, s', t, newPid);
    case LGrownSplit(ordered, newPid) => GrownSplitKeeps(s, s', t, ordered, newPid);
  }

  /** Taking and releasing locks, and writing under them. */
  lemma LockStepKeeps(s: Sys, s': Sys, t: Tid, l: Label)
    requires SysInv(s) && Step(s, s', t, l) && !IsRead(l) && !IsCommit(l)
    ensures SysInv(s')
  {
    hide SysInv, LockFirst, LockNode, LockRight, ReleasePar, Abort, Unlock, Unlocked, Scribble;
    match l
    case LLockFirst(parent) => LockFirstKeeps(s, s', t, parent);
    case LLockNode => LockNodeKeeps(s, s', t);
    case LLockRight(pos, right) => LockRightKeeps(s, s', t, pos, right);
    case LReleasePar => ReleaseParKeeps(s, s', t);
    case LAbort(seek) => AbortKeeps(s, s', t, seek);
    case LUnlock(pid) => UnlockKeeps(s, s', t, pid);
    case LUnlocked => UnlockedKeeps(s, s', t);
    case LScribble(pid, n, r) => ScribbleKeeps(s, s', t, pid, n, r);
  }

  lemma StepKeeps(s: Sys, s': Sys, t: Tid, l: Label)
    requires SysInv(s) && Step(s, s', t, l)
    ensures SysInv(s')
  {
    hide SysInv, Step;
    if IsRead(l) {
      ReadKeeps(s, s', t, l);
    } else if IsCommit(l) {
      CommitKeeps(s, s', t, l);
    } else {
      LockStepKeeps(s, s', t, l);
    }
  }

  lemma InitHolds(s: Sys, root: PID)
    requires Init(s, root)
    ensures SysInv(s)
  {
    assert AllKeys(s.tree) == {};
    assert Contents(s.tree) == map[];
    assert Free(s.tree.pages[root]) >= 0;
  }

  /** A run: one starting state, then single steps of arbitrary threads in arbitrary order. */
  ghost predicate Run(run: seq<Sys>, root: PID) {
    && |run| > 0 && Init(run[0], root)
    && (forall i | 0 < i < |run| :: StepsTo(run[i - 1], run[i]))
  }

  ghost predicate StepsTo(s: Sys, s': Sys) {
    exists t, l :: Step(s, s', t, l)
  }

  lemma {:induction false} RunsKeep(run: seq<Sys>, root: PID, i: nat)
    requires Run(run, root) && i < |run|
    ensures SysInv(run[i])
  {
    if i == 0 {
      InitHolds(run[0], root);
    } else {
      RunsKeep(run, root, i - 1);
      assert StepsTo(run[i - 1], run[i]);
      var t, l :| Step(run[i - 1], run[i], t, l);
      StepKeeps(run[i - 1], run[i], t, l);
    }
  }

  /** Map values change one pair at a time: an absent key is added or a key is removed. */
  ghost predicate OneChange(m: map<Key, Bytes>, n: map<Key, Bytes>) {
    (exists k :: k !in m && k in n && n == m[k := n[k]]) || (exists k :: k in m && n == m - {k})
  }

  lemma StepExtendsHistory(s: Sys, s': Sys, t: Tid, l: Label)
    requires SysInv(s) && Step(s, s', t, l)
    ensures s'.hist == s.hist
         || (|s'.hist| == |s.hist| + 1 && s'.hist[..|s.hist|] == s.hist
             && OneChange(s.hist[|s.hist| - 1], s'.hist[|s.hist|]))
  {
    hide SysInv, TreeOk, MemoryOk, LocksOk, Contents, PutLeaf, Claim;
    ProcIsOk(s, t);
    if IsRead(l) {
      ReadClaims(s, s', t, l);
    } else if !IsCommit(l) {
      LockClaims(s, s', t, l);
    } else if l.LCommitRemove? {
      HeldNodeOnPath(s, t);
      CommitRemoveTreeOk(s, s', t, l.pos);
    } else if !l.LCommitInsert? {
      ReshapeClaims(s, s', t, l);
    }
  }

  /** Entry j of the history is what the tree stood for in some state up to i. */
  ghost predicate Recorded(run: seq<Sys>, i: nat, j: nat, m: map<Key, Bytes>)
    requires i < |run|
  {
    exists n :: 0 <= n <= i && |run[n].hist| == j + 1 && Inv(run[n].tree) && Contents(run[n].tree) == m
  }

  lemma NowRecorded(run: seq<Sys>, i: nat)
    requires i < |run| && TreeOk(run[i])
    ensures Recorded(run, i, |run[i].hist| - 1, run[i].hist[|run[i].hist| - 1])
  {}

  lemma StaysRecorded(run: seq<Sys>, i: nat, j: nat, m: map<Key, Bytes>)
    requires i + 1 < |run| && Recorded(run, i, j, m)
    ensures Recorded(run, i + 1, j, m)
  {
    var n :| 0 <= n <= i && |run[n].hist| == j + 1 && Inv(run[n].tree) && Contents(run[n].tree) == m;
    assert 0 <= n <= i + 1;
  }

  lemma HistoryStep(run: seq<Sys>, root: PID, i: nat)
    requires Run(run, root) && 0 < i < |run|
    ensures |run[i].hist| > 0 && Recorded(run, i, |run[i].hist| - 1, run[i].hist[|run[i].hist| - 1])
    ensures run[i].hist == run[i - 1].hist
         || (|run[i].hist| == |run[i - 1].hist| + 1 && run[i].hist[..|run[i - 1].hist|] == run[i - 1].hist
             && |run[i - 1].hist| > 0 && OneChange(run[i - 1].hist[|run[i - 1].hist| - 1],
                 run[i].hist[|run[i - 1].hist|]))
  {
    RunsKeep(run, root, i - 1);
    RunsKeep(run, root, i);
    assert StepsTo(run[i - 1], run[i]);
    var t, l :| Step(run[i - 1], run[i], t, l);
    StepExtendsHistory(run[i - 1], run[i], t, l);
    NowRecorded(run, i);
  }

  lemma HistoryStart(run: seq<Sys>, root: PID)
    requires Run(run, root)
    ensures |run[0].hist| == 1 && Recorded(run, 0, 0, run[0].hist[0])
  {
    InitHolds(run[0], root);
    NowRecorded(run, 0);
  }

  /** `hist` is the run's own record: entry j is what the tree stood for in some state of
      the run. */
  lemma {:induction false} HistoryIsReal(run: seq<Sys>, root: PID, i: nat, j: nat)
    requires Run(run, root) && i < |run| && j < |run[i].hist|
    ensures Recorded(run, i, j, run[i].hist[j])
  {
    hide Run, Recorded, OneChange;
    if i == 0 {
      HistoryStart(run, root);
    } else {
      HistoryStep(run, root, i);
      if j < |run[i - 1].hist| {
        HistoryIsReal(run, root, i - 1, j);
        StaysRecorded(run, i - 1, j, run[i - 1].hist[j]);
        SamePrefix(run[i - 1].hist, run[i].hist, j);
      }
    }
  }

  /** Consecutive entries of the history differ by one pair. */
  lemma {:induction false} HistoryChangesOnePair(run: seq<Sys>, root: PID, i: nat, j: nat)
    requires Run(run, root) && i < |run| && 0 < j < |run[i].hist|
    ensures OneChange(run[i].hist[j - 1], run[i].hist[j])
  {
    hide Run, Recorded, OneChange;
    if i == 0 {
      HistoryStart(run, root);
    } else {
      HistoryStep(run, root, i);
      if j < |run[i - 1].hist| {
        HistoryChangesOnePair(run, root, i - 1, j);
        SamePrefix(run[i - 1].hist, run[i].hist, j);
      } else {
        SamePrefix(run[i - 1].hist, run[i].hist, j - 1);
      }
    }
  }

  lemma SamePrefix(h: seq<map<Key, Bytes>>, h': seq<map<Key, Bytes>>, j: nat)
    requires j < |h| <= |h'| && (h' == h || h'[..|h|] == h)
    ensures h'[j] == h[j] && (j > 0 ==> h'[j - 1] == h[j - 1])
  {}

  /** In every interleaving, every finished operation agrees with the map at a moment
      between its start (`born`) and its end: a lookup returns what the map held, an insert
      added exactly its pair, a remove took out exactly its key, or the key was absent. */
  lemma FinishedOperationsAgree(run: seq<Sys>, root: PID, i: nat, t: Tid)
    requires Run(run, root) && i < |run| && t in run[i].procs && run[i].procs[t].Done?
    ensures var d := run[i].procs[t];
            Agrees(run[i].hist, d.op, d.born, d.res, d.at)
            && Recorded(run, i, d.at, run[i].hist[d.at])
  {
    RunsKeep(run, root, i);
    assert ProcOk(run[i], t);
    HistoryIsReal(run, root, i, run[i].procs[t].at);
  }

  /** A page that was reached through a validated parent and whose version has not changed
      is still part of the tree and still covers the key, whatever other threads did. */
  lemma UnchangedPageStillCovers(run: seq<Sys>, root: PID, i: nat, t: Tid)
    requires Run(run, root) && i < |run| && t in run[i].procs
    requires run[i].procs[t].At? && run[i].procs[t].parOk && Quiet(run[i], run[i].procs[t].node)
    ensures OnPath(run[i].tree, run[i].procs[t].node.pid, SeekKey(run[i].procs[t].c))
  {
    RunsKeep(run, root, i);
    assert ProcOk(run[i], t);
    IntactIsQuiet(run[i], t, run[i].procs[t].node);
  }

  /** A checked child pointer leads to a page that exists: fixing it cannot meet an id that nobody
      has been given. */
  lemma FetchedPageExists(run: seq<Sys>, root: PID, i: nat, t: Tid)
    requires Run(run, root) && i < |run| && t in run[i].procs
    requires run[i].procs[t].Fetched? && run[i].procs[t].checked
    ensures run[i].procs[t].child in run[i].words && run[i].procs[t].child != META
  {
    hide SysInv;
    RunsKeep(run, root, i);
    ProcIsOk(run[i], t);
  }

  // ---------------------------------------------------------------- history and operations

  /** What an operation that has taken effect, or has ended without effect, is going to report. */
  function Outcome(p: Proc): Proc {
    match p
    case Removed(_, _, _, _, _, next) => Outcome(next)
    case Unlocking(_, next) => Outcome(next)
    case _ => p
  }

  lemma OutcomeOf(p: Proc)
    ensures Outcome(p) == if p.Removed? || p.Unlocking? then Outcome(p.next) else p
    ensures (p.Removed? || p.Unlocking?) && (p.next.Start? || p.next.Done?) ==> Outcome(p) == p.next
  {}

  /** The history entry that the thread's operation has made. */
  function Claim(p: Proc): Option<nat> {
    match Outcome(p)
    case Done(op, _, res, at) => if op.Insert? || (op.Remove? && res.Some?) then Some(at) else None
    case _ => None
  }

  ghost predicate ClaimsAt(run: seq<Sys>, i: nat, t: Tid, n: nat)
    requires i < |run|
  {
    t in run[i].procs && Claim(run[i].procs[t]) == Some(n)
  }

  /** Entries are claimed one by one, each by one thread. */
  ghost predicate ClaimsOk(s: Sys) {
    && (forall t | t in s.procs && Claim(s.procs[t]).Some? :: Claim(s.procs[t]).value < |s.hist|)
    && (forall t, u | t in s.procs && u in s.procs && t != u && Claim(s.procs[t]).Some? ::
        Claim(s.procs[t]) != Claim(s.procs[u]))
  }

  /** The thread's operation takes effect with this step. */
  ghost predicate TakesEffect(s: Sys, s': Sys, t: Tid) {
    && t in s.procs && t in s'.procs && |s'.hist| == |s.hist| + 1
    && Claim(s.procs[t]).None? && Claim(s'.procs[t]) == Some(|s.hist|)
  }

  /** A thread without locks claims nothing new. */
  lemma ReadClaims(s: Sys, s': Sys, t: Tid, l: Label)
    requires Step(s, s', t, l) && IsRead(l)
    ensures t in s.procs && t in s'.procs && s'.procs == s.procs[t := s'.procs[t]] && s'.hist == s.hist
    ensures Claim(s'.procs[t]) == Claim(s.procs[t]) || Claim(s'.procs[t]).None?
  {
    hide Outcome, Quiet, WF, Next, LeafGet;
    OutcomeOf(s.procs[t]);
    OutcomeOf(s'.procs[t]);
  }

  /** Nor does one that takes and releases locks. */
  lemma LockClaims(s: Sys, s': Sys, t: Tid, l: Label)
    requires Step(s, s', t, l) && !IsRead(l) && !IsCommit(l)
    ensures t in s.procs && t in s'.procs && s'.procs == s.procs[t := s'.procs[t]] && s'.hist == s.hist
    ensures Claim(s'.procs[t]) == Claim(s.procs[t]) || Claim(s'.procs[t]).None?
  {
    hide Outcome, Quiet, WF, Child, LowerBound;
    OutcomeOf(s.procs[t]);
    OutcomeOf(s'.procs[t]);
  }

  /** An insert or a successful remove claims the new last entry. */
  lemma EffectClaims(s: Sys, s': Sys, t: Tid, l: Label)
    requires Step(s, s', t, l) && (l.LCommitInsert? || l.LCommitRemove?)
    ensures t in s.procs && TakesEffect(s, s', t) && s'.procs == s.procs[t := s'.procs[t]]
            && s'.hist[..|s.hist|] == s.hist
  {
    hide Outcome, PutLeaf, Nodes.Insert, RemoveAt, HasSpaceFor, WF, Has, LowerBound;
    OutcomeOf(s.procs[t]);
    OutcomeOf(s'.procs[t]);
  }

  /** Splits and merges make no entry. */
  lemma ReshapeClaims(s: Sys, s': Sys, t: Tid, l: Label)
    requires Step(s, s', t, l) && IsCommit(l) && !l.LCommitInsert? && !l.LCommitRemove?
    ensures t in s.procs && t in s'.procs && s'.procs == s.procs[t := s'.procs[t]] && s'.hist == s.hist
    ensures Claim(s'.procs[t]) == Claim(s.procs[t]) || Claim(s'.procs[t]).None?
  {
    hide Outcome, SplitPage, MergePages, GrowRoot, CanMerge, MergeBound, HasSpaceFor, Free, SplitLeft, FindSeparator,
         Separator, WF;
    OutcomeOf(s.procs[t]);
    OutcomeOf(s'.procs[t]);
  }

  lemma StepClaims(s: Sys, s': Sys, t: Tid, l: Label)
    requires Step(s, s', t, l)
    ensures t in s.procs && s'.procs.Keys == s.procs.Keys && forall u | u in s.procs && u != t ::
            s'.procs[u] == s.procs[u]
    ensures TakesEffect(s, s', t)
         || (s'.hist == s.hist && (Claim(s'.procs[t]) == Claim(s.procs[t]) || Claim(s'.procs[t]).None?))
  {
    hide Step, Claim;
    if IsRead(l) {
      ReadClaims(s, s', t, l);
    } else if !IsCommit(l) {
      LockClaims(s, s', t, l);
    } else if l.LCommitInsert? || l.LCommitRemove? {
      EffectClaims(s, s', t, l);
    } else {
      ReshapeClaims(s, s', t, l);
    }
  }

  ghost predicate Claiming(s: Sys, s': Sys) {
    && s'.procs.Keys == s.procs.Keys && |s.hist| <= |s'.hist|
    && exists t ::
         && t in s.procs && (forall u | u in s.procs && u != t :: s'.procs[u] == s.procs[u])
         && (TakesEffect(s, s', t)
             || (|s'.hist| == |s.hist| && (Claim(s'.procs[t]) == Claim(s.procs[t]) || Claim(s'.procs[t]).None?)))
  }

  lemma RunClaims(run: seq<Sys>, root: PID, i: nat)
    requires Run(run, root) && 0 < i < |run|
    ensures Claiming(run[i - 1], run[i])
  {
    hide Step, Init, Claim;
    assert StepsTo(run[i - 1], run[i]);
    var t, l :| Step(run[i - 1], run[i], t, l);
    StepClaims(run[i - 1], run[i], t, l);
  }

  lemma {:induction false} ClaimsKept(run: seq<Sys>, root: PID, i: nat)
    requires Run(run, root) && i < |run|
    ensures ClaimsOk(run[i])
  {
    hide Run, Claim;
    if i == 0 {
      NoClaimAtStart(run, root);
    } else {
      ClaimsKept(run, root, i - 1);
      RunClaims(run, root, i);
    }
  }

  lemma NoClaimAtStart(run: seq<Sys>, root: PID)
    requires Run(run, root)
    ensures forall t | t in run[0].procs :: Claim(run[0].procs[t]).None?
    ensures |run[0].hist| == 1
  {}

  /** An old entry claimed now was claimed by the same thread one state ago. */
  lemma ClaimedBefore(run: seq<Sys>, root: PID, j: nat, u: Tid, n: nat)
    requires Run(run, root) && 0 < j < |run| && ClaimsAt(run, j, u, n) && n < |run[j - 1].hist|
    ensures ClaimsAt(run, j - 1, u, n)
  {
    hide Run, Claim;
    RunClaims(run, root, j);
  }

  lemma {:induction false} HistoryOnlyGrows(run: seq<Sys>, root: PID, i: nat, j: nat)
    requires Run(run, root) && i <= j < |run|
    ensures |run[i].hist| <= |run[j].hist|
    decreases j
  {
    hide Run, Claim;
    if i < j {
      HistoryOnlyGrows(run, root, i, j - 1);
      RunClaims(run, root, j);
    }
  }

  /** Each entry of the history is the work of one operation only: who claims it at two moments is the
      same thread, and has not begun anything else in between. */
  lemma {:induction false} OneOperationPerEntry(run: seq<Sys>, root: PID, i: nat, t: Tid, j: nat, u: Tid, n: nat,
        m: nat)
    requires Run(run, root) && i <= m <= j < |run| && ClaimsAt(run, i, t, n) && ClaimsAt(run, j, u, n)
    ensures t == u && ClaimsAt(run, m, t, n)
    decreases j
  {
    hide Run, Claim;
    ClaimsKept(run, root, i);
    if i < j {
      HistoryOnlyGrows(run, root, i, j - 1);
      ClaimedBefore(run, root, j, u, n);
      OneOperationPerEntry(run, root, i, t, j - 1, u, n, if m < j then m else j - 1);
    }
  }

  /** The operation of thread t has made entry n, in the state in which it became the last one. */
  ghost predicate Made(s: Sys, t: Tid, n: nat) {
    && t in s.procs && |s.hist| == n + 1 && Claim(s.procs[t]) == Some(n)
    && var d := Outcome(s.procs[t]); d.Done? && Agrees(s.hist, d.op, d.born, d.res, n)
  }

  /** And each entry after the first is the work of some operation, of whose result it is the proof. */
  lemma {:induction false} EntryHasMaker(run: seq<Sys>, root: PID, i: nat, n: nat)
    requires Run(run, root) && i < |run| && 0 < n < |run[i].hist|
    ensures exists j, t :: 0 <= j <= i && Made(run[j], t, n)
  {
    hide Run, Claim, Made;
    if i == 0 {
      NoClaimAtStart(run, root);
    } else if n < |run[i - 1].hist| {
      EntryHasMaker(run, root, i - 1, n);
    } else {
      RunClaims(run, root, i);
      var t :| TakesEffect(run[i - 1], run[i], t);
      MadeNow(run, root, i, t, n);
    }
  }

  lemma MadeNow(run: seq<Sys>, root: PID, i: nat, t: Tid, n: nat)
    requires Run(run, root) && 0 < i < |run| && TakesEffect(run[i - 1], run[i], t) && n == |run[i - 1].hist|
    ensures Made(run[i], t, n)
  {
    hide Run, SysInv, Agrees, Outcome;
    RunsKeep(run, root, i);
    ProcIsOk(run[i], t);
    OutcomeOf(run[i].procs[t]);
  }
}
