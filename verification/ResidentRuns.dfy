/** Threads that allocate, fix, release and evict pages, and probe the table of resident pages
    while others change it: every load and compare-and-swap on a slot is a step. */
module ResidentRuns {
  import opened Nodes
  import opened ResidentSets

  type Tid = nat

  datatype Word = Evicted | Unlocked | Marked | Shared(n: nat) | Locked(owner: Tid)

  /** What a thread is in the middle of; d counts the slots on the page's path. */
  datatype Work =
    | Free
      // allocPage: has its page id; has loaded the lock word
    | Allocated(pid: PID) | Loaded(pid: PID, word: Word)
      // insert: about to load slot d; has loaded a free slot d and is about to swap
    | Inserting(pid: PID, d: nat) | Swapping(pid: PID, d: nat, seen: PID)
      // remove: about to load slot d; has found the page there and is about to swap; is done
    | Removing(pid: PID, d: nat) | Dropping(pid: PID, d: nat) | Dropped(pid: PID)

  /** known: the page ids that a thread may fix, because the metadata page or a page of the tree
      holds them. */
  datatype Pool = Pool(words: map<PID, Word>, allocCount: nat, known: set<PID>, table: seq<PID>, work: map<Tid, Work>)

  datatype Action =
    | LockX(pid: PID) | UnlockX(pid: PID) | Downgrade(pid: PID) | LockS(pid: PID) | UnlockS(pid: PID)
    | Mark(pid: PID) | Unmark(pid: PID)
    | Publish(pid: PID)
    | TakeId | LoadWord | SwapWord
    | LoadForInsert | SwapIn
    | BeginRemove(pid: PID) | LoadForRemove | SwapOut | UnlockEvicted

  // ---------------------------------------------------------------- steps

  /** The slot at place d of a page's path through a table of that size. */
  function Slot(size: nat, hash: PID -> nat, pid: PID, d: nat): (j: nat)
    requires d < size
    ensures j < size
  {
    Probe(hash(pid) % size, d, size)
  }

  function NextPlace(p: Pool, d: nat): (e: nat)
    requires d < |p.table|
    ensures e < |p.table|
  {
    if d + 1 < |p.table| then d + 1 else 0
  }

  function PutWord(p: Pool, pid: PID, w: Word): Pool { p.(words := p.words[pid := w]) }

  function PutWork(p: Pool, t: Tid, w: Work): Pool { p.(work := p.work[t := w]) }

  ghost predicate Mine(p: Pool, t: Tid, pid: PID) { pid in p.words && p.words[pid] == Locked(t) }

  /** Locking, unlocking and marking; fixX and fixS that win an evicted page call insert at once. */
  ghost predicate LockActs(p: Pool, t: Tid, a: Action, q: Pool) {
    match a
    case LockX(pid) =>
      && pid in p.known && pid in p.words && (p.words[pid].Evicted? || p.words[pid].Unlocked? || p.words[pid].Marked?)
      && q == PutWork(PutWord(p, pid, Locked(t)), t, if p.words[pid].Evicted? then Inserting(pid, 0) else Free)
    case UnlockX(pid) => Mine(p, t, pid) && q == PutWord(p, pid, Unlocked)
    case Downgrade(pid) => Mine(p, t, pid) && q == PutWord(p, pid, Shared(1))
    case LockS(pid) =>
      && pid in p.known && pid in p.words && (p.words[pid].Unlocked? || p.words[pid].Marked? || p.words[pid].Shared?)
      && q == PutWord(p, pid, Shared(if p.words[pid].Shared? then p.words[pid].n + 1 else 1))
    case UnlockS(pid) =>
      && pid in p.words && p.words[pid].Shared?
      && q == PutWord(p, pid, if p.words[pid].n <= 1 then Unlocked else Shared(p.words[pid].n - 1))
    case Mark(pid) => pid in p.words && p.words[pid].Unlocked? && q == PutWord(p, pid, Marked)
    case Unmark(pid) => pid in p.words && p.words[pid].Marked? && q == PutWord(p, pid, Unlocked)
    case Publish(pid) => Mine(p, t, pid) && q == p.(known := p.known + {pid})
    case _ => false
  }

  /** allocPage: counts up, which may leave the reserved range, then locks the page by a single
      compare-and-swap from whatever state it has, and calls insert. */
  ghost predicate AllocActs(p: Pool, t: Tid, a: Action, q: Pool, virtCount: nat)
    requires t in p.work
  {
    match a
    case TakeId =>
      p.work[t].Free?
      && q == (if p.allocCount < virtCount && p.allocCount < NO_NEIGHBOUR then PutWork(p, t, Allocated(p.allocCount))
          else p)
               .(allocCount := p.allocCount + 1)
    case LoadWord =>
      && p.work[t].Allocated? && p.work[t].pid in p.words
      && q == PutWork(p, t, Loaded(p.work[t].pid, p.words[p.work[t].pid]))
    case SwapWord =>
      && p.work[t].Loaded? && p.work[t].pid in p.words && p.words[p.work[t].pid] == p.work[t].word
      && q == PutWork(PutWord(p, p.work[t].pid, Locked(t)), t, Inserting(p.work[t].pid, 0))
    case _ => false
  }

  /** insert: goes on behind a slot that is taken, and also after a lost swap. */
  ghost predicate InsertActs(p: Pool, t: Tid, a: Action, q: Pool, hash: PID -> nat)
    requires t in p.work
  {
    var w := p.work[t];
    match a
    case LoadForInsert =>
      && w.Inserting? && w.d < |p.table|
      && (var seen := p.table[Slot(|p.table|, hash, w.pid, w.d)];
          q == PutWork(p, t, if IsLive(seen) then Inserting(w.pid, NextPlace(p, w.d)) else Swapping(w.pid, w.d, seen)))
    case SwapIn =>
      && w.Swapping? && w.d < |p.table|
      && (var j := Slot(|p.table|, hash, w.pid, w.d);
          q == if p.table[j] == w.seen then PutWork(p, t, Free).(table := p.table[j := w.pid])
               else PutWork(p, t, Inserting(w.pid, NextPlace(p, w.d))))
    case _ => false
  }

  /** remove, called under the exclusive lock; the page is evicted when that is released. */
  ghost predicate RemoveActs(p: Pool, t: Tid, a: Action, q: Pool, hash: PID -> nat)
    requires t in p.work
  {
    var w := p.work[t];
    match a
    case BeginRemove(pid) => w.Free? && Mine(p, t, pid) && q == PutWork(p, t, Removing(pid, 0))
    case LoadForRemove =>
      && w.Removing? && w.d < |p.table|
      && (var seen := p.table[Slot(|p.table|, hash, w.pid, w.d)];
          q == PutWork(p, t, if seen == EMPTY then Free
                             else if seen == w.pid then Dropping(w.pid, w.d)
                             else Removing(w.pid, NextPlace(p, w.d))))
    case SwapOut =>
      && w.Dropping? && w.d < |p.table|
      && (var j := Slot(|p.table|, hash, w.pid, w.d);
          q == if p.table[j] == w.pid then PutWork(p, t, Dropped(w.pid)).(table := p.table[j := TOMBSTONE])
               else PutWork(p, t, Removing(w.pid, NextPlace(p, w.d))))
    case UnlockEvicted => w.Dropped? && q == PutWork(PutWord(p, w.pid, Evicted), t, Free)
    case _ => false
  }

  ghost predicate Acts(p: Pool, t: Tid, a: Action, q: Pool, hash: PID -> nat, virtCount: nat) {
    t in p.work &&
    ((p.work[t].Free? && LockActs(p, t, a, q)) || AllocActs(p, t, a, q, virtCount)
     || InsertActs(p, t, a, q, hash) || RemoveActs(p, t, a, q, hash))
  }

  /** All pages evicted, page 0 set aside for the metadata, and more slots than pages. */
  ghost predicate Init(p: Pool, virtCount: nat) {
    && (forall pid: PID :: pid in p.words <==> pid < virtCount)
    && (forall pid | pid in p.words :: p.words[pid].Evicted?)
    && p.allocCount == 1 && p.known == {0} && 0 < virtCount < |p.table| && virtCount <= TOMBSTONE
    && (forall j | 0 <= j < |p.table| :: p.table[j] == EMPTY)
    && (forall t | t in p.work :: p.work[t].Free?)
  }

  // ---------------------------------------------------------------- the invariant

  /** t has locked the page, and the page is not in the table: not yet, or no more. */
  predicate Owes(w: Work, pid: PID) {
    (w.Inserting? || w.Swapping? || w.Dropped?) && w.pid == pid
  }

  /** The pages that ought to be in the table. */
  ghost predicate Resident(p: Pool, pid: PID) {
    && pid in p.words && !p.words[pid].Evicted?
    && (p.words[pid].Locked? ==> !(p.words[pid].owner in p.work && Owes(p.work[p.words[pid].owner], pid)))
  }

  ghost predicate TableOk(p: Pool, hash: PID -> nat) {
    Legal(p.table, hash) && forall pid: PID :: pid in Members(p.table) <==> Resident(p, pid)
  }

  /** Ids that have not been handed out belong to evicted pages that nobody knows. */
  ghost predicate IdsOk(p: Pool, virtCount: nat) {
    && virtCount < |p.table| && virtCount <= TOMBSTONE && 0 < p.allocCount
    && (forall pid: PID :: pid in p.words <==> pid < virtCount)
    && (forall pid | pid in p.words && p.allocCount <= pid :: p.words[pid].Evicted?)
    && (forall pid | pid in p.known :: pid in p.words && pid < p.allocCount)
  }

  predicate IsNew(w: Work) { w.Allocated? || w.Loaded? }

  /** A new page is evicted, unknown, and only one thread's. */
  ghost predicate NewOk(p: Pool) {
    && (forall t | t in p.work && IsNew(p.work[t]) ::
          && p.work[t].pid in p.words && p.words[p.work[t].pid].Evicted?
          && p.work[t].pid < p.allocCount && p.work[t].pid !in p.known)
    && (forall t, u | t in p.work && u in p.work && IsNew(p.work[t]) && IsNew(p.work[u]) && t != u ::
        p.work[t].pid != p.work[u].pid)
  }

  /** The slots before place d on the page's path are not empty. */
  ghost predicate Passed(p: Pool, hash: PID -> nat, pid: PID, d: nat) {
    d < |p.table| && forall e | 0 <= e < d :: p.table[Slot(|p.table|, hash, pid, e)] != EMPTY
  }

  /** The page is in none of them. */
  ghost predicate NotBefore(p: Pool, hash: PID -> nat, pid: PID, d: nat) {
    d < |p.table| && forall e | 0 <= e < d :: p.table[Slot(|p.table|, hash, pid, e)] != pid
  }

  ghost predicate WorkOk(p: Pool, t: Tid, hash: PID -> nat)
    requires t in p.work
  {
    match p.work[t]
    case Free => true
    case Allocated(pid) => true
    case Loaded(pid, word) => word.Evicted?
    case Inserting(pid, d) => Mine(p, t, pid) && Passed(p, hash, pid, d)
    case Swapping(pid, d, seen) =>
      && Mine(p, t, pid) && Passed(p, hash, pid, d) && !IsLive(seen)
      && (seen == TOMBSTONE ==> p.table[Slot(|p.table|, hash, pid, d)] != EMPTY)
    case Removing(pid, d) => Mine(p, t, pid) && NotBefore(p, hash, pid, d)
    case Dropping(pid, d) => Mine(p, t, pid) && d < |p.table| && p.table[Slot(|p.table|, hash, pid, d)] == pid
    case Dropped(pid) => Mine(p, t, pid)
  }

  ghost predicate PoolInv(p: Pool, hash: PID -> nat, virtCount: nat) {
    && TableOk(p, hash) && IdsOk(p, virtCount) && NewOk(p)
    && forall t | t in p.work :: WorkOk(p, t, hash)
  }

  lemma InitHolds(p: Pool, hash: PID -> nat, virtCount: nat)
    requires Init(p, virtCount)
    ensures PoolInv(p, hash, virtCount)
  {
    assert Members(p.table) == {};
  }

  // ---------------------------------------------------------------- what a step leaves alone

  /** The page that t is working on. */
  ghost predicate Others(p: Pool, t: Tid, q: Pool) {
    && q.work.Keys == p.work.Keys && |q.table| == |p.table|
    && (forall u | u in p.work && u != t :: q.work[u] == p.work[u])
    && (forall pid, u | u != t && Mine(p, u, pid) :: Mine(q, u, pid))
    && (forall j | 0 <= j < |p.table| && p.table[j] != EMPTY :: q.table[j] != EMPTY)
    && (forall j | 0 <= j < |p.table| && q.table[j] != p.table[j] ::
          && (IsLive(q.table[j]) ==> Mine(p, t, q.table[j]))
          && (IsLive(p.table[j]) ==> Mine(p, t, p.table[j])))
  }

  lemma OthersStay(p: Pool, t: Tid, q: Pool, hash: PID -> nat, virtCount: nat, u: Tid)
    requires IdsOk(p, virtCount) && Others(p, t, q) && u in p.work && u != t && WorkOk(p, u, hash)
    ensures WorkOk(q, u, hash)
  {
    hide Slot;
  }

  // ---------------------------------------------------------------- every step keeps the invariant

  /** A step that hands out no id and locks no evicted page. */
  ghost predicate OldIds(p: Pool, t: Tid, q: Pool) {
    && t in p.work && t in q.work && q.work == p.work[t := q.work[t]] && !IsNew(q.work[t])
    && q.allocCount == p.allocCount && q.known == p.known && |q.table| == |p.table| && q.words.Keys == p.words.Keys
    && forall pid | pid in p.words && p.words[pid].Evicted? :: q.words[pid].Evicted?
  }

  lemma OldIdsStay(p: Pool, t: Tid, q: Pool, virtCount: nat)
    requires IdsOk(p, virtCount) && NewOk(p) && OldIds(p, t, q)
    ensures IdsOk(q, virtCount) && NewOk(q)
  {}

  lemma LockActsKeep(p: Pool, t: Tid, a: Action, q: Pool, hash: PID -> nat, virtCount: nat)
    requires PoolInv(p, hash, virtCount) && t in p.work && p.work[t].Free? && LockActs(p, t, a, q)
    ensures Others(p, t, q) && IdsOk(q, virtCount) && NewOk(q) && WorkOk(q, t, hash)
  {
    hide TableOk, Slot, NotBefore;
    assert WorkOk(p, t, hash);
  }

  lemma AllocActsKeep(p: Pool, t: Tid, a: Action, q: Pool, hash: PID -> nat, virtCount: nat)
    requires PoolInv(p, hash, virtCount) && t in p.work && AllocActs(p, t, a, q, virtCount)
    ensures Others(p, t, q) && IdsOk(q, virtCount) && NewOk(q) && WorkOk(q, t, hash)
  {
    hide TableOk, NewOk, Others, AllocActs, WorkOk;
    AllocIds(p, t, a, q, virtCount);
    AllocOthers(p, t, a, q, hash, virtCount);
  }

  lemma AllocOthers(p: Pool, t: Tid, a: Action, q: Pool, hash: PID -> nat, virtCount: nat)
    requires NewOk(p) && t in p.work && WorkOk(p, t, hash) && AllocActs(p, t, a, q, virtCount) && |p.table| > 0
    ensures Others(p, t, q) && WorkOk(q, t, hash)
  {
    hide Slot, NotBefore;
  }

  lemma AllocIds(p: Pool, t: Tid, a: Action, q: Pool, virtCount: nat)
    requires IdsOk(p, virtCount) && NewOk(p) && t in p.work && AllocActs(p, t, a, q, virtCount)
    ensures IdsOk(q, virtCount) && NewOk(q)
  {}

  lemma InsertActsKeep(p: Pool, t: Tid, a: Action, q: Pool, hash: PID -> nat, virtCount: nat)
    requires PoolInv(p, hash, virtCount) && t in p.work && InsertActs(p, t, a, q, hash)
    ensures Others(p, t, q) && IdsOk(q, virtCount) && NewOk(q) && WorkOk(q, t, hash)
  {
    hide TableOk, Slot, NewOk, IdsOk;
    assert WorkOk(p, t, hash);
    OldIdsStay(p, t, q, virtCount);
  }

  lemma RemoveActsKeep(p: Pool, t: Tid, a: Action, q: Pool, hash: PID -> nat, virtCount: nat)
    requires PoolInv(p, hash, virtCount) && t in p.work && RemoveActs(p, t, a, q, hash)
    ensures Others(p, t, q) && IdsOk(q, virtCount) && NewOk(q) && WorkOk(q, t, hash)
  {
    hide TableOk, Slot, NewOk, IdsOk;
    assert WorkOk(p, t, hash);
    OldIdsStay(p, t, q, virtCount);
  }

  lemma ActsKeep(p: Pool, t: Tid, a: Action, q: Pool, hash: PID -> nat, virtCount: nat)
    requires PoolInv(p, hash, virtCount) && Acts(p, t, a, q, hash, virtCount)
    ensures Others(p, t, q) && IdsOk(q, virtCount) && NewOk(q) && WorkOk(q, t, hash)
  {
    hide PoolInv, LockActs, AllocActs, InsertActs, RemoveActs, Others, IdsOk, NewOk, WorkOk;
    if p.work[t].Free? && LockActs(p, t, a, q) {
      LockActsKeep(p, t, a, q, hash, virtCount);
    } else if AllocActs(p, t, a, q, virtCount) {
      AllocActsKeep(p, t, a, q, hash, virtCount);
    } else if InsertActs(p, t, a, q, hash) {
      InsertActsKeep(p, t, a, q, hash, virtCount);
    } else {
      RemoveActsKeep(p, t, a, q, hash, virtCount);
    }
  }

  /** What a step does to the table's set of pages. */
  function EntersNow(p: Pool, t: Tid, a: Action, hash: PID -> nat): bool
    requires t in p.work
  {
    a.SwapIn? && p.work[t].Swapping? && p.work[t].d < |p.table|
    && p.table[Slot(|p.table|, hash, p.work[t].pid, p.work[t].d)] == p.work[t].seen
  }

  function LeavesNow(p: Pool, t: Tid, a: Action, hash: PID -> nat): bool
    requires t in p.work
  {
    a.SwapOut? && p.work[t].Dropping? && p.work[t].d < |p.table|
    && p.table[Slot(|p.table|, hash, p.work[t].pid, p.work[t].d)] == p.work[t].pid
  }

  lemma EntersKeepLegal(p: Pool, t: Tid, hash: PID -> nat)
    requires TableOk(p, hash) && t in p.work && p.work[t].Swapping? && WorkOk(p, t, hash) && IsLive(p.work[t].pid)
    requires p.table[Slot(|p.table|, hash, p.work[t].pid, p.work[t].d)] == p.work[t].seen
    ensures var u := p.table[Slot(|p.table|, hash, p.work[t].pid, p.work[t].d) := p.work[t].pid];
            Legal(u, hash) && Members(u) == Members(p.table) + {p.work[t].pid}
  {
    hide Legal, Members;
    var pid, d := p.work[t].pid, p.work[t].d;
    assert !Resident(p, pid);
    forall e | 0 <= e < d ensures p.table[Probe(hash(pid) % |p.table|, e, |p.table|)] != EMPTY {
      assert p.table[Slot(|p.table|, hash, pid, e)] != EMPTY;
    }
    PutKeepsLegal(p.table, hash, pid, d);
  }

  lemma TableMoves(p: Pool, t: Tid, a: Action, q: Pool, hash: PID -> nat, virtCount: nat)
    requires PoolInv(p, hash, virtCount) && Acts(p, t, a, q, hash, virtCount)
    ensures Legal(q.table, hash)
    ensures Members(q.table) ==
              if EntersNow(p, t, a, hash) then Members(p.table) + {p.work[t].pid}
              else if LeavesNow(p, t, a, hash) then Members(p.table) - {p.work[t].pid}
              else Members(p.table)
  {
    hide Legal, Members, Slot, NewOk;
    assert WorkOk(p, t, hash);
    if EntersNow(p, t, a, hash) {
      EntersKeepLegal(p, t, hash);
    } else if LeavesNow(p, t, a, hash) {
      DropKeepsLegal(p.table, hash, Slot(|p.table|, hash, p.work[t].pid, p.work[t].d));
    }
  }

  /** Locking enters and drops nothing: a page that is locked out of Evicted is not in the table yet. */
  lemma LockResident(p: Pool, t: Tid, a: Action, q: Pool, hash: PID -> nat, virtCount: nat, pid: PID)
    requires t in p.work && WorkOk(p, t, hash) && p.work[t].Free? && LockActs(p, t, a, q)
    ensures Resident(q, pid) <==> Resident(p, pid)
  {
    hide Slot, Passed, NotBefore;
  }

  /** Nor does allocation. */
  lemma AllocResident(p: Pool, t: Tid, a: Action, q: Pool, hash: PID -> nat, virtCount: nat, pid: PID)
    requires t in p.work && WorkOk(p, t, hash) && AllocActs(p, t, a, q, virtCount)
    ensures Resident(q, pid) <==> Resident(p, pid)
  {
    hide Slot, Passed, NotBefore;
  }

  lemma ProbeResident(p: Pool, t: Tid, a: Action, q: Pool, hash: PID -> nat, pid: PID)
    requires t in p.work && WorkOk(p, t, hash) && (InsertActs(p, t, a, q, hash) || RemoveActs(p, t, a, q, hash))
    ensures Resident(q, pid) <==>
              if EntersNow(p, t, a, hash) && pid == p.work[t].pid then true
              else if LeavesNow(p, t, a, hash) && pid == p.work[t].pid then false
              else Resident(p, pid)
  {
    hide Slot, Passed, NotBefore;
  }

  lemma ResidentMoves(p: Pool, t: Tid, a: Action, q: Pool, hash: PID -> nat, virtCount: nat, pid: PID)
    requires PoolInv(p, hash, virtCount) && Acts(p, t, a, q, hash, virtCount)
    ensures Resident(q, pid) <==>
              if EntersNow(p, t, a, hash) && pid == p.work[t].pid then true
              else if LeavesNow(p, t, a, hash) && pid == p.work[t].pid then false
              else Resident(p, pid)
  {
    hide TableOk, IdsOk, NewOk, WorkOk, Resident, InsertActs, RemoveActs, Slot;
    if p.work[t].Free? && LockActs(p, t, a, q) {
      LockResident(p, t, a, q, hash, virtCount, pid);
    } else if AllocActs(p, t, a, q, virtCount) {
      AllocResident(p, t, a, q, hash, virtCount, pid);
    } else {
      ProbeResident(p, t, a, q, hash, pid);
    }
  }

  lemma StepKeeps(p: Pool, t: Tid, a: Action, q: Pool, hash: PID -> nat, virtCount: nat)
    requires PoolInv(p, hash, virtCount) && Acts(p, t, a, q, hash, virtCount)
    ensures PoolInv(q, hash, virtCount)
  {
    hide Acts, WorkOk, Resident, Legal, Members, Others;
    TableMoves(p, t, a, q, hash, virtCount);
    forall pid: PID ensures pid in Members(q.table) <==> Resident(q, pid) {
      ResidentMoves(p, t, a, q, hash, virtCount, pid);
    }
    ActsKeep(p, t, a, q, hash, virtCount);
    SameThreads(p, t, q);
    forall u | u in q.work ensures WorkOk(q, u, hash) {
      if u != t { OthersStay(p, t, q, hash, virtCount, u); }
    }
  }

  lemma SameThreads(p: Pool, t: Tid, q: Pool)
    requires Others(p, t, q)
    ensures q.work.Keys == p.work.Keys && |q.table| == |p.table|
  {}

  // ---------------------------------------------------------------- all runs

  ghost predicate StepsTo(p: Pool, q: Pool, hash: PID -> nat, virtCount: nat) {
    exists t, a :: Acts(p, t, a, q, hash, virtCount)
  }

  ghost predicate Run(run: seq<Pool>, hash: PID -> nat, virtCount: nat) {
    && |run| > 0 && Init(run[0], virtCount)
    && (forall i | 0 < i < |run| :: StepsTo(run[i - 1], run[i], hash, virtCount))
  }

  lemma {:induction false} RunsKeep(run: seq<Pool>, hash: PID -> nat, virtCount: nat, i: nat)
    requires Run(run, hash, virtCount) && i < |run|
    ensures PoolInv(run[i], hash, virtCount)
  {
    hide PoolInv, Init, Acts;
    if i == 0 {
      InitHolds(run[0], hash, virtCount);
    } else {
      RunsKeep(run, hash, virtCount, i - 1);
      assert StepsTo(run[i - 1], run[i], hash, virtCount);
      var t, a :| Acts(run[i - 1], t, a, run[i], hash, virtCount);
      StepKeeps(run[i - 1], t, a, run[i], hash, virtCount);
    }
  }

  /** Whatever the threads do, the table stays searchable, and it has exactly the pages that are
      not evicted, without those that a thread has locked and is about to enter or has taken out. */
  lemma TableIsResident(run: seq<Pool>, hash: PID -> nat, virtCount: nat, i: nat, pid: PID)
    requires Run(run, hash, virtCount) && i < |run|
    ensures Legal(run[i].table, hash)
    ensures pid in Members(run[i].table) <==> Resident(run[i], pid)
  {
    RunsKeep(run, hash, virtCount, i);
  }

  /** One step enters one page that was not in the table, takes out one that was, or neither. */
  ghost predicate OnePageMoves(t: seq<PID>, u: seq<PID>) {
    || Members(u) == Members(t)
    || (exists pid: PID :: pid !in Members(t) && Members(u) == Members(t) + {pid})
    || (exists pid: PID :: pid in Members(t) && Members(u) == Members(t) - {pid})
  }

  lemma StepMovesOnePage(run: seq<Pool>, hash: PID -> nat, virtCount: nat, i: nat)
    requires Run(run, hash, virtCount) && 0 < i < |run|
    ensures OnePageMoves(run[i - 1].table, run[i].table)
  {
    hide Acts, Members, Legal;
    var p, q := run[i - 1], run[i];
    RunsKeep(run, hash, virtCount, i - 1);
    assert StepsTo(p, q, hash, virtCount);
    var t, a :| Acts(p, t, a, q, hash, virtCount);
    assert t in p.work && WorkOk(p, t, hash) by { ActorIsKnown(p, t, a, q, hash, virtCount); }
    TableMoves(p, t, a, q, hash, virtCount);
    if EntersNow(p, t, a, hash) {
      assert !Resident(p, p.work[t].pid);
    } else if LeavesNow(p, t, a, hash) {
      assert Resident(p, p.work[t].pid);
    }
  }

  lemma ActorIsKnown(p: Pool, t: Tid, a: Action, q: Pool, hash: PID -> nat, virtCount: nat)
    requires PoolInv(p, hash, virtCount) && Acts(p, t, a, q, hash, virtCount)
    ensures t in p.work && WorkOk(p, t, hash)
  {}

  /** insert never meets the page that it enters, as it asserts at every slot, and the table always
      has a free slot for it. */
  lemma InsertMeetsNoTwin(run: seq<Pool>, hash: PID -> nat, virtCount: nat, i: nat, t: Tid)
    requires Run(run, hash, virtCount) && i < |run| && t in run[i].work
    requires run[i].work[t].Inserting? || run[i].work[t].Swapping?
    ensures var table, w := run[i].table, run[i].work[t];
            && w.pid !in Members(table) && w.d < |table| && table[Slot(|table|, hash, w.pid, w.d)] != w.pid
            && exists j :: 0 <= j < |table| && !IsLive(table[j])
  {
    hide Legal, Slot;
    RunsKeep(run, hash, virtCount, i);
    var p := run[i];
    var pid, d := p.work[t].pid, p.work[t].d;
    assert WorkOk(p, t, hash);
    assert !Resident(p, pid);
    var j := Slot(|p.table|, hash, pid, d);
    if p.table[j] == pid { SlotIsMember(p.table, j); }
    assert Once(p.table) by { LegalParts(p.table, hash); }
    TableNeverFull(p.table, virtCount);
  }

  lemma LegalParts(t: seq<PID>, hash: PID -> nat)
    requires Legal(t, hash)
    ensures Once(t) && AllReachable(t, hash)
  {}

  /** allocPage's compare-and-swap, which it asserts to succeed, does: nobody else can touch the
      lock word of a page whose id has just been handed out. */
  lemma AllocationLocks(run: seq<Pool>, hash: PID -> nat, virtCount: nat, i: nat, t: Tid)
    requires Run(run, hash, virtCount) && i < |run| && t in run[i].work && run[i].work[t].Loaded?
    ensures run[i].work[t].pid in run[i].words
    ensures run[i].words[run[i].work[t].pid] == run[i].work[t].word == Evicted
  {
    RunsKeep(run, hash, virtCount, i);
    assert WorkOk(run[i], t, hash);
  }

  /** remove under the exclusive lock finds its page before it has gone round the table, and its
      compare-and-swap does not fail. */
  lemma RemoveFindsItsPage(run: seq<Pool>, hash: PID -> nat, virtCount: nat, i: nat, t: Tid)
    requires Run(run, hash, virtCount) && i < |run| && t in run[i].work
    requires run[i].work[t].Removing? || run[i].work[t].Dropping?
    ensures var table, w := run[i].table, run[i].work[t];
            && w.d < |table| && table[Slot(|table|, hash, w.pid, w.d)] != EMPTY
            && (w.Removing? && table[Slot(|table|, hash, w.pid, w.d)] != w.pid ==> w.d + 1 < |table|)
            && (w.Dropping? ==> table[Slot(|table|, hash, w.pid, w.d)] == w.pid)
  {
    hide Legal, Members, Slot;
    RunsKeep(run, hash, virtCount, i);
    var p := run[i];
    assert WorkOk(p, t, hash);
    assert Resident(p, p.work[t].pid);
    if p.work[t].Removing? { PageIsAhead(p.table, hash, p.work[t].pid, p.work[t].d); }
  }

  lemma PageIsAhead(t: seq<PID>, hash: PID -> nat, pid: PID, d: nat)
    requires Legal(t, hash) && pid in Members(t) && d < |t|
    requires forall e | 0 <= e < d :: t[Slot(|t|, hash, pid, e)] != pid
    ensures t[Slot(|t|, hash, pid, d)] != EMPTY
    ensures t[Slot(|t|, hash, pid, d)] != pid ==> d + 1 < |t|
  {
    MemberHasSlot(t, pid);
    var j :| 0 <= j < |t| && t[j] == pid;
    var far := Distance(hash(pid) % |t|, j, |t|);
    assert Slot(|t|, hash, pid, far) == j;
    assert Reachable(t, hash(pid) % |t|, j);
    assert d < far ==> t[Probe(hash(pid) % |t|, d, |t|)] != EMPTY;
  }
}
