/** Optimistic lock coupling: any number of threads look up, insert and remove at the
    same time. Readers capture a page's version, read, and validate the version hop by
    hop; writers take exclusive locks at the captured version, change page bytes in any
    order while they hold them, and bump the version when they unlock.

    Each thread moves in single steps, and `hist` records every value the abstract map
    ever had. The theorem is that in every interleaving every finished operation agrees
    with the map at one moment between its start and its end. */
module Olc {
  import opened Options
  import opened Lex
  import opened Nodes
  import opened Splitting
  import opened Trees
  import opened TreeChanges

  type Tid = nat

  const META: PID := 0

  /** ver: number of exclusive sections so far; owner: the thread in one. */
  datatype Word = Word(ver: nat, owner: Option<Tid>)

  datatype Guard = Guard(pid: PID, ver: nat)

  datatype Op = Lookup(key: Key) | Insert(key: Key, val: Bytes) | Remove(key: Key)

  /** Descend to the leaf of the operation's key, or (ensureSpace) towards an inner page
      that has to be split, along the separator that it must make room for. */
  datatype Seek = ToLeaf | ToInner(target: PID, sep: Key)

  /** born: how far `hist` reached when the operation started. */
  datatype Ctx = Ctx(op: Op, seek: Seek, born: nat)

  datatype Proc =
    | Idle
    | Start(c: Ctx)
    | AtMeta(c: Ctx, par: Guard)
      // a child pointer was read through par; checked: par was validated after that
    | Fetched(c: Ctx, par: Guard, child: PID, checked: bool)
      // node's version is captured; parOk: par was validated after that
    | At(c: Ctx, par: Guard, node: Guard, parOk: bool)
      // the leaf was searched
    | Read(c: Ctx, par: Guard, node: Guard, parOk: bool, res: Option<Bytes>)
      // the leaf was validated when hist ended at index `at`
    | Verdict(c: Ctx, par: Guard, parOk: bool, res: Option<Bytes>, at: nat)
      // exclusive locks are held, nothing has been changed yet
    | Hold(c: Ctx, par: Guard, node: Guard, parOk: bool, right: Option<PID>, held: set<PID>)
      // a new root is in place, the old root is about to be split
    | Grown(c: Ctx, root: PID, oldRoot: PID, held: set<PID>)
      // the entry is removed, the leaf may be merged with its neighbour
    | Removed(parent: PID, pos: nat, leaf: PID, sibling: PID, held: set<PID>, next: Proc)
    | Unlocking(held: set<PID>, next: Proc)
    | Done(op: Op, born: nat, res: Option<Bytes>, at: nat)

  /** tree: the pages as the finished exclusive sections left them; mem, memRoot: what is
      in memory right now, which differs while a page is locked. */
  datatype Sys = Sys(tree: Tree, mem: map<PID, Node>, memRoot: PID, words: map<PID, Word>,
                     procs: map<Tid, Proc>, hist: seq<map<Key, Bytes>>)

  function SeekKey(c: Ctx): Key {
    if c.seek.ToLeaf? then c.op.key else c.seek.sep
  }

  function Held(p: Proc): set<PID> {
    match p
    case Hold(_, _, _, _, _, held) => held
    case Grown(_, _, _, held) => held
    case Removed(_, _, _, _, held, _) => held
    case Unlocking(held, _) => held
    case _ => {}
  }

  /** Validation succeeds: same version, not exclusively locked. */
  predicate Quiet(s: Sys, g: Guard) {
    g.pid in s.words && s.words[g.pid] == Word(g.ver, None)
  }

  // ---------------------------------------------------------------- steps

  ghost predicate Goes(s: Sys, s': Sys, t: Tid, p: Proc) {
    s' == s.(procs := s.procs[t := p])
  }

  /** One step of a restarting reader: on success go on, otherwise start over. */
  ghost predicate Validates(s: Sys, s': Sys, t: Tid, g: Guard, c: Ctx, p: Proc) {
    Goes(s, s', t, if Quiet(s, g) then p else Start(c))
  }

  /** insert asserts that an entry is not too long. */
  predicate Callable(op: Op) { op.Insert? ==> |op.key| + |op.val| <= MAX_KV_SIZE }

  ghost predicate Invoke(s: Sys, s': Sys, t: Tid, op: Op)
    requires t in s.procs
  {
    s.procs[t].Idle? && |s.hist| > 0 && Callable(op) && Goes(s, s', t, Start(Ctx(op, ToLeaf, |s.hist| - 1)))
  }

  ghost predicate CaptureMeta(s: Sys, s': Sys, t: Tid)
    requires t in s.procs
  {
    && s.procs[t].Start? && META in s.words && s.words[META].owner.None?
    && Goes(s, s', t, AtMeta(s.procs[t].c, Guard(META, s.words[META].ver)))
  }

  /** What was read counts only if the page stayed as captured; else it may be anything. */
  ghost predicate ReadRoot(s: Sys, s': Sys, t: Tid, child: PID)
    requires t in s.procs
  {
    && s.procs[t].AtMeta?
    && (Quiet(s, s.procs[t].par) ==> child == s.memRoot)
    && Goes(s, s', t, Fetched(s.procs[t].c, s.procs[t].par, child, false))
  }

  ghost predicate ReadChild(s: Sys, s': Sys, t: Tid, child: PID)
    requires t in s.procs
  {
    && s.procs[t].At? && s.procs[t].parOk
    && (var p := s.procs[t];
        && (Quiet(s, p.node) && p.node.pid in s.mem && WF(s.mem[p.node.pid]) ==>
              !s.mem[p.node.pid].isLeaf && child == Next(s.mem[p.node.pid], SeekKey(p.c)))
        && Goes(s, s', t, Fetched(p.c, p.node, child, false)))
  }

  ghost predicate CheckFetched(s: Sys, s': Sys, t: Tid)
    requires t in s.procs
  {
    && s.procs[t].Fetched? && !s.procs[t].checked
    && (var p := s.procs[t];
        Validates(s, s', t, p.par, p.c, Fetched(p.c, p.par, p.child, true)))
  }

  /** The page that the checked pointer leads to exists: OlcProof.FetchedPageExists. */
  ghost predicate CaptureNode(s: Sys, s': Sys, t: Tid)
    requires t in s.procs
  {
    && s.procs[t].Fetched? && s.procs[t].checked
    && (var p := s.procs[t];
        && p.child in s.words && s.words[p.child].owner.None?
        && Goes(s, s', t, At(p.c, p.par, Guard(p.child, s.words[p.child].ver), false)))
  }

  ghost predicate CheckPar(s: Sys, s': Sys, t: Tid)
    requires t in s.procs
  {
    && s.procs[t].At? && !s.procs[t].parOk
    && (var p := s.procs[t];
        Validates(s, s', t, p.par, p.c, At(p.c, p.par, p.node, true)))
  }

  ghost predicate ReadLeaf(s: Sys, s': Sys, t: Tid, res: Option<Bytes>)
    requires t in s.procs
  {
    && s.procs[t].At? && s.procs[t].c.seek.ToLeaf?
    && (var p := s.procs[t];
        && (Quiet(s, p.node) && p.node.pid in s.mem && WF(s.mem[p.node.pid]) ==>
              s.mem[p.node.pid].isLeaf && res == LeafGet(s.mem[p.node.pid], p.c.op.key))
        && Goes(s, s', t, Read(p.c, p.par, p.node, p.parOk, res)))
  }

  /** The validation that decides a lookup or an unsuccessful remove. A lookup has dropped
      its parent guard, after validating it, before it searches the leaf. */
  ghost predicate Conclude(s: Sys, s': Sys, t: Tid)
    requires t in s.procs
  {
    && s.procs[t].Read? && |s.hist| > 0
    && (var p := s.procs[t];
        && ((p.c.op.Lookup? && p.parOk) || (p.c.op.Remove? && p.res.None?))
        && Validates(s, s', t, p.node, p.c, Verdict(p.c, p.par, p.parOk, p.res, |s.hist| - 1)))
  }

  ghost predicate FinishLookup(s: Sys, s': Sys, t: Tid)
    requires t in s.procs
  {
    && s.procs[t].Verdict? && s.procs[t].c.op.Lookup? && s.procs[t].parOk
    && (var p := s.procs[t];
        Goes(s, s', t, Done(p.c.op, p.c.born, p.res, p.at)))
  }

  ghost predicate FinishAbsent(s: Sys, s': Sys, t: Tid)
    requires t in s.procs
  {
    && s.procs[t].Verdict? && s.procs[t].c.op.Remove? && s.procs[t].res.None?
    && (var p := s.procs[t];
        Validates(s, s', t, p.par, p.c, Done(p.c.op, p.c.born, None, p.at)))
  }

  /** A reader may start over at any time, towards the leaf or towards an inner page. */
  ghost predicate Restart(s: Sys, s': Sys, t: Tid, seek: Seek)
    requires t in s.procs
  {
    var p := s.procs[t];
    && (p.AtMeta? || p.Fetched? || p.At? || p.Read? || p.Verdict?)
    && Goes(s, s', t, Start(p.c.(seek := seek)))
  }

  /** Upgrading a guard takes the lock only at the captured version. */
  ghost predicate Upgrades(s: Sys, s': Sys, t: Tid, g: Guard, p: Proc) {
    && Quiet(s, g)
    && s' == s.(words := s.words[g.pid := Word(g.ver, Some(t))], procs := s.procs[t := p])
  }

  ghost predicate LockFirst(s: Sys, s': Sys, t: Tid, parent: bool)
    requires t in s.procs
  {
    var p := s.procs[t];
    && (p.At? || p.Read?)
    && (var g := if parent then p.par else p.node;
        Upgrades(s, s', t, g, Hold(p.c, p.par, p.node, p.parOk, None, {g.pid})))
  }

  ghost predicate LockNode(s: Sys, s': Sys, t: Tid)
    requires t in s.procs
  {
    var p := s.procs[t];
    && p.Hold? && p.held == {p.par.pid}
    && Upgrades(s, s', t, p.node, Hold(p.c, p.par, p.node, p.parOk, p.right, {p.par.pid, p.node.pid}))
  }

  /** With parent and leaf locked, the leaf's right neighbour under the same parent is
      locked without a version check. */
  ghost predicate LockRight(s: Sys, s': Sys, t: Tid, pos: nat, right: PID)
    requires t in s.procs
  {
    var p := s.procs[t];
    && p.Hold? && p.c.op.Remove? && p.c.seek.ToLeaf? && p.right.None? && p.par.pid != META
    && p.held == {p.par.pid, p.node.pid} && p.par.pid in s.tree.pages
    && (var n := s.tree.pages[p.par.pid];
        && WF(n) && !n.isLeaf && pos == LowerBound(n.keys, p.c.op.key) && pos + 1 < |n.keys|
        && right == Child(n, pos + 1))
    && right in s.words && s.words[right].owner.None?
    && s' == s.(words := s.words[right := Word(s.words[right].ver, Some(t))],
                procs := s.procs[t := Hold(p.c, p.par, p.node, p.parOk, Some(right), p.held + {right})])
  }

  /** parent.release(): validate the parent after the leaf has been locked. */
  ghost predicate ReleasePar(s: Sys, s': Sys, t: Tid)
    requires t in s.procs
  {
    var p := s.procs[t];
    && p.Hold? && p.held == {p.node.pid}
    && Goes(s, s', t, if Quiet(s, p.par) then Hold(p.c, p.par, p.node, true, p.right, p.held)
        else Unlocking(p.held, Start(p.c)))
  }

  ghost predicate Abort(s: Sys, s': Sys, t: Tid, seek: Seek)
    requires t in s.procs
  {
    var p := s.procs[t];
    && (p.Hold? || p.Grown?)
    && Goes(s, s', t, Unlocking(p.held, Start(p.c.(seek := seek))))
  }

  /** The moment an insert takes effect, in a leaf with room. Callers insert absent keys only. */
  ghost predicate CommitInsert(s: Sys, s': Sys, t: Tid)
    requires t in s.procs
  {
    var p := s.procs[t];
    && p.Hold? && p.c.op.Insert? && p.c.seek.ToLeaf? && p.parOk && p.held == {p.node.pid}
    && p.node.pid in s.tree.pages && s.tree.pages[p.node.pid].isLeaf && WF(s.tree.pages[p.node.pid])
    && HasSpaceFor(s.tree.pages[p.node.pid], |p.c.op.key|, |p.c.op.val|)
    && |s.hist| > 0 && p.c.op.key !in s.hist[|s.hist| - 1]
    && s' == s.(tree := PutLeaf(s.tree, p.node.pid, Nodes.Insert(s.tree.pages[p.node.pid], p.c.op.key, p.c.op.val)),
                hist := s.hist + [s.hist[|s.hist| - 1][p.c.op.key := p.c.op.val]],
                procs := s.procs[t := Unlocking(p.held, Done(p.c.op, p.c.born, None, |s.hist|))])
  }

  /** The moment a remove takes effect: on its own, or with a merge to follow. */
  ghost predicate CommitRemove(s: Sys, s': Sys, t: Tid, pos: nat)
    requires t in s.procs
  {
    var p := s.procs[t];
    && p.Hold? && p.c.op.Remove? && p.c.seek.ToLeaf?
    && (p.right.Some? || (p.parOk && p.held == {p.node.pid}))
    && p.node.pid in s.tree.pages && s.tree.pages[p.node.pid].isLeaf && WF(s.tree.pages[p.node.pid])
    && |s.hist| > 0
    && (var n, k := s.tree.pages[p.node.pid], p.c.op.key;
        && Has(n, k)
        && (var i := LowerBound(n.keys, k);
            var next := Done(p.c.op, p.c.born, Some(n.pays[i]), |s.hist|);
            && (p.right.Some? ==> p.par.pid in s.tree.pages && pos == LowerBound(s.tree.pages[p.par.pid].keys, k))
            && s' == s.(tree := PutLeaf(s.tree, p.node.pid, RemoveAt(n, i)),
                        hist := s.hist + [s.hist[|s.hist| - 1] - {k}],
                        procs := s.procs[t := if p.right.Some?
                            then Removed(p.par.pid, pos, p.node.pid, p.right.value, p.held, next)
                                              else Unlocking(p.held, next)])))
  }

  ghost predicate CommitMerge(s: Sys, s': Sys, t: Tid)
    requires t in s.procs
  {
    var p := s.procs[t];
    && p.Removed? && CanMerge(s.tree, p.parent, p.pos, p.leaf, p.sibling)
    && MergeBound(s.tree.pages[p.leaf], s.tree.pages[p.sibling]) <= PAGE_SIZE
    && s' == s.(tree := MergePages(s.tree, p.parent, p.pos, p.leaf, p.sibling),
                procs := s.procs[t := Unlocking(p.held, p.next)])
  }

  ghost predicate SkipMerge(s: Sys, s': Sys, t: Tid)
    requires t in s.procs
  {
    var p := s.procs[t];
    p.Removed? && Goes(s, s', t, Unlocking(p.held, p.next))
  }

  /** A split of node below its locked parent, into a freshly allocated locked page. The parent has
      room for the separator; at slot 0, or without room for the left half, the source asserts. */
  ghost predicate Splits(s: Sys, s': Sys, t: Tid, c: Ctx, par: PID, node: PID, held: set<PID>, ordered: bool,
        newPid: PID)
  {
    && par in s.tree.pages && node in s.tree.pages && node in s.tree.level
    && WF(s.tree.pages[par]) && WF(s.tree.pages[node]) && |s.tree.pages[node].keys| > 1
    && newPid !in s.words && newPid != NO_NEIGHBOUR
    && (var slot, sep := FindSeparator(s.tree.pages[node], ordered).slot, Separator(s.tree.pages[node], ordered);
        && slot > 0 && HasSpaceFor(s.tree.pages[par], |sep|, PID_SIZE)
        && Free(SplitLeft(s.tree.pages[node], slot, sep, newPid)) >= 0
        && s' == s.(tree := SplitPage(s.tree, par, node, slot, sep, newPid),
                    words := s.words[newPid := Word(0, Some(t))],
                    procs := s.procs[t := Unlocking(held + {newPid}, Start(c.(seek := ToLeaf)))]))
  }

  ghost predicate CommitSplit(s: Sys, s': Sys, t: Tid, ordered: bool, newPid: PID)
    requires t in s.procs
  {
    var p := s.procs[t];
    && p.Hold? && p.c.op.Insert? && p.par.pid != META && p.held == {p.par.pid, p.node.pid} && p.right.None?
    && Splits(s, s', t, p.c, p.par.pid, p.node.pid, p.held, ordered, newPid)
  }

  ghost predicate CommitGrow(s: Sys, s': Sys, t: Tid, newRoot: PID)
    requires t in s.procs
  {
    var p := s.procs[t];
    && p.Hold? && p.c.op.Insert? && p.par.pid == META && p.held == {META, p.node.pid} && p.right.None?
    && newRoot !in s.words && newRoot != NO_NEIGHBOUR && s.tree.root in s.tree.level
    && s' == s.(tree := GrowRoot(s.tree, newRoot),
                words := s.words[newRoot := Word(0, Some(t))],
                procs := s.procs[t := Grown(p.c, newRoot, p.node.pid, p.held + {newRoot})])
  }

  ghost predicate GrownSplit(s: Sys, s': Sys, t: Tid, ordered: bool, newPid: PID)
    requires t in s.procs
  {
    var p := s.procs[t];
    && p.Grown?
    && Splits(s, s', t, p.c, p.root, p.oldRoot, p.held, ordered, newPid)
  }

  function WithHeld(p: Proc, held: set<PID>): Proc {
    match p
    case Grown(c, root, oldRoot, _) => Grown(c, root, oldRoot, held)
    case Unlocking(_, next) => Unlocking(held, next)
    case _ => p
  }

  /** Unlocking publishes a page whose bytes are complete by now. A new root lets go of
      the metadata page before the old root is split. */
  ghost predicate Unlock(s: Sys, s': Sys, t: Tid, pid: PID)
    requires t in s.procs
  {
    var p := s.procs[t];
    && (p.Unlocking? || (p.Grown? && pid == META))
    && pid in Held(p) && pid in s.words
    && (pid in s.tree.pages ==> pid in s.mem && s.mem[pid] == s.tree.pages[pid])
    && (pid == META ==> s.memRoot == s.tree.root)
    && s' == s.(words := s.words[pid := Word(s.words[pid].ver + 1, None)],
                procs := s.procs[t := WithHeld(p, Held(p) - {pid})])
  }

  ghost predicate Unlocked(s: Sys, s': Sys, t: Tid)
    requires t in s.procs
  {
    s.procs[t].Unlocking? && s.procs[t].held == {} && Goes(s, s', t, s.procs[t].next)
  }

  /** The holder of a lock writes the page, in any order and with any intermediate state. */
  ghost predicate Scribble(s: Sys, s': Sys, t: Tid, pid: PID, n: Node, r: PID)
    requires t in s.procs
  {
    && pid in Held(s.procs[t])
    && s' == if pid == META then s.(memRoot := r) else s.(mem := s.mem[pid := n])
  }

  ghost predicate Return(s: Sys, s': Sys, t: Tid)
    requires t in s.procs
  {
    s.procs[t].Done? && Goes(s, s', t, Idle)
  }

  datatype Label =
    | LInvoke(op: Op) | LCaptureMeta | LReadRoot(child: PID) | LReadChild(child: PID) | LCheckFetched
    | LCaptureNode | LCheckPar | LReadLeaf(res: Option<Bytes>) | LConclude | LFinishLookup | LFinishAbsent
    | LRestart(seek: Seek) | LLockFirst(parent: bool) | LLockNode | LLockRight(pos: nat, right: PID)
    | LReleasePar | LAbort(seek: Seek) | LCommitInsert | LCommitRemove(pos: nat) | LCommitMerge | LSkipMerge
    | LCommitSplit(ordered: bool, newPid: PID) | LCommitGrow(newPid: PID)
    | LGrownSplit(ordered: bool, newPid: PID) | LUnlock(pid: PID) | LUnlocked
    | LScribble(pid: PID, n: Node, r: PID) | LReturn

  ghost predicate Step(s: Sys, s': Sys, t: Tid, l: Label) {
    t in s.procs &&
    match l
    case LInvoke(op) => Invoke(s, s', t, op)
    case LCaptureMeta => CaptureMeta(s, s', t)
    case LReadRoot(child) => ReadRoot(s, s', t, child)
    case LReadChild(child) => ReadChild(s, s', t, child)
    case LCheckFetched => CheckFetched(s, s', t)
    case LCaptureNode => CaptureNode(s, s', t)
    case LCheckPar => CheckPar(s, s', t)
    case LReadLeaf(res) => ReadLeaf(s, s', t, res)
    case LConclude => Conclude(s, s', t)
    case LFinishLookup => FinishLookup(s, s', t)
    case LFinishAbsent => FinishAbsent(s, s', t)
    case LRestart(seek) => Restart(s, s', t, seek)
    case LLockFirst(parent) => LockFirst(s, s', t, parent)
    case LLockNode => LockNode(s, s', t)
    case LLockRight(pos, right) => LockRight(s, s', t, pos, right)
    case LReleasePar => ReleasePar(s, s', t)
    case LAbort(seek) => Abort(s, s', t, seek)
    case LCommitInsert => CommitInsert(s, s', t)
    case LCommitRemove(pos) => CommitRemove(s, s', t, pos)
    case LCommitMerge => CommitMerge(s, s', t)
    case LSkipMerge => SkipMerge(s, s', t)
    case LCommitSplit(ordered, newPid) => CommitSplit(s, s', t, ordered, newPid)
    case LCommitGrow(newPid) => CommitGrow(s, s', t, newPid)
    case LGrownSplit(ordered, newPid) => GrownSplit(s, s', t, ordered, newPid)
    case LUnlock(pid) => Unlock(s, s', t, pid)
    case LUnlocked => Unlocked(s, s', t)
    case LScribble(pid, n, r) => Scribble(s, s', t, pid, n, r)
    case LReturn => Return(s, s', t)
  }

  /** One empty root leaf, unlocked; every thread idle. */
  ghost predicate Init(s: Sys, root: PID) {
    && root != META && root != NO_NEIGHBOUR
    && s.tree == Tree(map[root := Node(true, [], [], [], [], NO_NEIGHBOUR)], root, map[root := 0])
    && s.mem == s.tree.pages && s.memRoot == root
    && s.words == map[META := Word(0, None), root := Word(0, None)]
    && (forall t | t in s.procs :: s.procs[t] == Idle)
    && s.hist == [map[]]
  }
}
