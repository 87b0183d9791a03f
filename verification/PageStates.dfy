/** The 64-bit lock word of a page: eight bits of state above 56 bits of version. */
module PageStates {
  import opened Lex

  const VERSIONS: nat := 0x100_0000_0000_0000

  type u64 = w: nat | w < 256 * VERSIONS

  const UNLOCKED: nat := 0
  const MAX_SHARED: nat := 252
  const LOCKED: nat := 253
  const MARKED: nat := 254
  const EVICTED: nat := 255

  function StateOf(w: u64): (s: nat)
    ensures s < 256
  {
    w / VERSIONS
  }

  function VersionOf(w: u64): (v: nat)
    ensures v < VERSIONS
  {
    w % VERSIONS
  }

  function SameVersion(w: u64, state: nat): (r: u64)
    requires state < 256
    ensures StateOf(r) == state && VersionOf(r) == VersionOf(w)
  {
    VersionOf(w) + state * VERSIONS
  }

  /** The new version is or-ed with the new state, so a carry out of the 56 version bits
      sets the lowest state bit. */
  function NextVersion(w: u64, state: nat): u64
    requires state < 256
  {
    if VersionOf(w) + 1 < VERSIONS then VersionOf(w) + 1 + state * VERSIONS
    else (if state % 2 == 0 then state + 1 else state) * VERSIONS
  }

  /** Unlocking does what it says exactly as long as the version is not the last one. */
  lemma NextVersionExact(w: u64, state: nat)
    requires state < 256
    ensures StateOf(NextVersion(w, state)) == state && VersionOf(NextVersion(w, state)) == VersionOf(w) + 1
            <==> VersionOf(w) < VERSIONS - 1
  {
    if VersionOf(w) + 1 < VERSIONS {
      assert StateOf(NextVersion(w, state)) == state;
    }
  }

  /** At the last version the version starts over, and an even state becomes the next odd one. */
  lemma NextVersionCarries(w: u64, state: nat)
    requires state < 256 && VersionOf(w) + 1 == VERSIONS
    ensures VersionOf(NextVersion(w, state)) == 0
    ensures StateOf(NextVersion(w, state)) == if state % 2 == 0 then state + 1 else state
  {}

  /** At the last version, releasing an exclusive lock leaves a word that reports a shared
      holder whom nobody will ever release. */
  lemma LastVersionLeavesPhantomHolder()
    ensures exists w: u64 :: StateOf(w) == LOCKED && StateOf(NextVersion(w, UNLOCKED)) == 1
  {
    var w: u64 := LOCKED * VERSIONS + (VERSIONS - 1);
    assert StateOf(w) == LOCKED && VersionOf(w) == VERSIONS - 1;
    assert StateOf(NextVersion(w, UNLOCKED)) == 1;
  }

  class PageState {
    var stateAndVersion: u64

    /** A page that was never loaded is evicted. */
    constructor ()
      ensures StateOf(stateAndVersion) == EVICTED && VersionOf(stateAndVersion) == 0
    {
      stateAndVersion := SameVersion(0, EVICTED);
    }

    method CompareExchange(expected: u64, desired: u64) returns (ok: bool)
      modifies this
      ensures ok <==> old(stateAndVersion) == expected
      ensures stateAndVersion == if ok then desired else old(stateAndVersion)
    {
      ok := stateAndVersion == expected;
      if ok { stateAndVersion := desired; }
    }

    method TryLockX(expected: u64) returns (ok: bool)
      modifies this
      ensures ok <==> old(stateAndVersion) == expected
      ensures ok ==> StateOf(stateAndVersion) == LOCKED && VersionOf(stateAndVersion) == VersionOf(expected)
      ensures !ok ==> stateAndVersion == old(stateAndVersion)
    {
      ok := CompareExchange(expected, SameVersion(expected, LOCKED));
    }

    /** The next version, unlocked. Only at the last version the carry leaves a shared holder. */
    method UnlockX()
      requires StateOf(stateAndVersion) == LOCKED
      modifies this
      ensures VersionOf(old(stateAndVersion)) + 1 < VERSIONS ==>
                StateOf(stateAndVersion) == UNLOCKED
                    && VersionOf(stateAndVersion) == VersionOf(old(stateAndVersion)) + 1
      ensures VersionOf(old(stateAndVersion)) + 1 == VERSIONS ==>
                StateOf(stateAndVersion) == 1 && VersionOf(stateAndVersion) == 0
    {
      NextVersionExact(stateAndVersion, UNLOCKED);
      if VersionOf(stateAndVersion) + 1 == VERSIONS { NextVersionCarries(stateAndVersion, UNLOCKED); }
      stateAndVersion := NextVersion(stateAndVersion, UNLOCKED);
    }

    /** The next version with one shared holder, the caller; the carry does no harm here. */
    method DowngradeLock()
      requires StateOf(stateAndVersion) == LOCKED
      modifies this
      ensures StateOf(stateAndVersion) == 1
      ensures VersionOf(stateAndVersion) ==
                if VersionOf(old(stateAndVersion)) + 1 < VERSIONS then VersionOf(old(stateAndVersion)) + 1 else 0
    {
      NextVersionExact(stateAndVersion, 1);
      if VersionOf(stateAndVersion) + 1 == VERSIONS { NextVersionCarries(stateAndVersion, 1); }
      stateAndVersion := NextVersion(stateAndVersion, 1);
    }

    /** The page is given back unread: the next version, evicted; here too the carry does no harm. */
    method UnlockXEvicted()
      requires StateOf(stateAndVersion) == LOCKED
      modifies this
      ensures StateOf(stateAndVersion) == EVICTED
      ensures VersionOf(stateAndVersion) ==
                if VersionOf(old(stateAndVersion)) + 1 < VERSIONS then VersionOf(old(stateAndVersion)) + 1 else 0
    {
      NextVersionExact(stateAndVersion, EVICTED);
      if VersionOf(stateAndVersion) + 1 == VERSIONS { NextVersionCarries(stateAndVersion, EVICTED); }
      stateAndVersion := NextVersion(stateAndVersion, EVICTED);
    }

    method TryLockS(expected: u64) returns (ok: bool)
      modifies this
      ensures ok <==>
              old(stateAndVersion) == expected && (StateOf(expected) < MAX_SHARED || StateOf(expected) == MARKED)
      ensures ok ==> stateAndVersion == SharedOnceMore(expected)
      ensures !ok ==> stateAndVersion == old(stateAndVersion)
    {
      var s := StateOf(expected);
      ok := false;
      if s < MAX_SHARED {
        ok := CompareExchange(expected, SameVersion(expected, s + 1));
      } else if s == MARKED {
        ok := CompareExchange(expected, SameVersion(expected, 1));
      }
    }

    method UnlockS()
      requires 0 < StateOf(stateAndVersion) <= MAX_SHARED
      modifies this
      ensures stateAndVersion == SameVersion(old(stateAndVersion), StateOf(old(stateAndVersion)) - 1)
    {
      var done := false;
      while !done
        invariant !done ==> stateAndVersion == old(stateAndVersion)
        invariant done ==> stateAndVersion == SameVersion(old(stateAndVersion), StateOf(old(stateAndVersion)) - 1)
        decreases if done then 0 else 1
      {
        var seen := stateAndVersion;
        done := CompareExchange(seen, SameVersion(seen, StateOf(seen) - 1));
      }
    }

    method TryMark(expected: u64) returns (ok: bool)
      requires StateOf(expected) == UNLOCKED
      modifies this
      ensures ok <==> old(stateAndVersion) == expected
      ensures stateAndVersion == if ok then SameVersion(expected, MARKED) else old(stateAndVersion)
    {
      ok := CompareExchange(expected, SameVersion(expected, MARKED));
    }
  }

  function SharedOnceMore(w: u64): u64
    requires StateOf(w) < MAX_SHARED || StateOf(w) == MARKED
  {
    SameVersion(w, if StateOf(w) == MARKED then 1 else StateOf(w) + 1)
  }

  // ---------------------------------------------------------------- many threads, one page

  type Tid = nat

  /** Optimist: captured the word at version `ver`, when the page's bytes were `snap`, and
      has since loaded single bytes. */
  datatype User =
    | Outside
    | Exclusive
    | Shared
    | Optimist(ver: nat, snap: seq<byte>, loads: seq<(nat, byte)>)

  datatype Page = Page(word: u64, bytes: seq<byte>, users: map<Tid, User>)

  ghost function Sharers(p: Page): set<Tid> {
    set t | t in p.users && p.users[t].Shared?
  }

  datatype Action =
      // compare-and-swap with an expected value from some earlier load
    | TryX(expected: u64) | TryS(expected: u64) | TryRelease(expected: u64)
    | Mark(expected: u64) | ClearMark(expected: u64)
      // stores by the exclusive holder
    | ReleaseX(evict: bool) | Downgrade | StoreByte(at: nat, b: byte)
    | Capture | LoadByte(at: nat) | GiveUp
      // validation that lets the reader go on, and the two upgrades of an optimistic guard
    | Validate | UpgradeX | UpgradeS

  /** State in which an exclusive lock may be taken. */
  predicate Takeable(w: u64) {
    StateOf(w) == UNLOCKED || StateOf(w) == MARKED || StateOf(w) == EVICTED
  }

  /** checkVersionAndRestart returns normally: same version, and not in an exclusive section. */
  predicate Valid(w: u64, ver: nat) {
    VersionOf(w) == ver && (StateOf(w) <= MAX_SHARED || StateOf(w) == MARKED)
  }

  function Swap(p: Page, t: Tid, w: u64, u: User): Page {
    p.(word := w, users := p.users[t := u])
  }

  /** One step of thread t. A compare-and-swap that fails changes nothing; a lock is
      released by its holder; the version has room for one more section. */
  ghost predicate Acts(p: Page, q: Page, t: Tid, a: Action)
    requires t in p.users
  {
    var u := p.users[t];
    match a
    case TryX(expected) =>
      u.Outside? && Takeable(expected)
      && q == if p.word == expected then Swap(p, t, SameVersion(p.word, LOCKED), Exclusive) else p
    case TryS(expected) =>
      u.Outside? && (StateOf(expected) < MAX_SHARED || StateOf(expected) == MARKED)
      && q == if p.word == expected then Swap(p, t, SharedOnceMore(p.word), Shared) else p
    case TryRelease(expected) =>
      u.Shared? && 0 < StateOf(expected) <= MAX_SHARED
      && q == if p.word == expected then Swap(p, t, SameVersion(p.word, StateOf(p.word) - 1), Outside) else p
    case Mark(expected) =>
      StateOf(expected) == UNLOCKED
      && q == if p.word == expected then p.(word := SameVersion(p.word, MARKED)) else p
    case ClearMark(expected) =>
      StateOf(expected) == MARKED
      && q == if p.word == expected then p.(word := SameVersion(p.word, UNLOCKED)) else p
    case ReleaseX(evict) =>
      u.Exclusive? && VersionOf(p.word) + 1 < VERSIONS
      && q == Swap(p, t, NextVersion(p.word, if evict then EVICTED else UNLOCKED), Outside)
    case Downgrade =>
      u.Exclusive? && VersionOf(p.word) + 1 < VERSIONS && q == Swap(p, t, NextVersion(p.word, 1), Shared)
    case StoreByte(at, b) =>
      u.Exclusive? && at < |p.bytes| && q == p.(bytes := p.bytes[at := b])
    case Capture =>
      u.Outside? && StateOf(p.word) <= MAX_SHARED
      && q == p.(users := p.users[t := Optimist(VersionOf(p.word), p.bytes, [])])
    case LoadByte(at) =>
      u.Optimist? && at < |p.bytes|
      && q == p.(users := p.users[t := Optimist(u.ver, u.snap, u.loads + [(at, p.bytes[at])])])
    case GiveUp =>
      u.Optimist? && q == p.(users := p.users[t := Outside])
    case Validate =>
      u.Optimist? && Valid(p.word, u.ver) && q == p
    case UpgradeX =>
      u.Optimist? && VersionOf(p.word) == u.ver && (StateOf(p.word) == UNLOCKED || StateOf(p.word) == MARKED)
      && q == Swap(p, t, SameVersion(p.word, LOCKED), Exclusive)
    case UpgradeS =>
      u.Optimist? && VersionOf(p.word) == u.ver && StateOf(p.word) < MAX_SHARED
      && q == Swap(p, t, SharedOnceMore(p.word), Shared)
  }

  ghost predicate ExclusiveOk(p: Page) {
    && (StateOf(p.word) == LOCKED <==> exists t :: t in p.users && p.users[t].Exclusive?)
    && (forall t, u | t in p.users && u in p.users && p.users[t].Exclusive? && p.users[u].Exclusive? :: t == u)
  }

  ghost predicate SharedOk(p: Page) {
    |Sharers(p)| == if StateOf(p.word) <= MAX_SHARED then StateOf(p.word) else 0
  }

  ghost predicate LoadsMatch(o: User)
    requires o.Optimist?
  {
    forall i | 0 <= i < |o.loads| :: o.loads[i].0 < |o.snap| && o.loads[i].1 == o.snap[o.loads[i].0]
  }

  /** As long as no exclusive section has begun since the capture, the page is what it was
      and everything loaded came from that one content. */
  ghost predicate OptimistsOk(p: Page) {
    forall t | t in p.users && p.users[t].Optimist? ::
      && p.users[t].ver <= VersionOf(p.word)
      && (VersionOf(p.word) == p.users[t].ver && StateOf(p.word) != LOCKED ==>
            p.bytes == p.users[t].snap && LoadsMatch(p.users[t]))
  }

  ghost predicate PageInv(p: Page) {
    ExclusiveOk(p) && SharedOk(p) && OptimistsOk(p)
  }

  // ---------------------------------------------------------------- every step keeps the invariant

  /** Only t's role changes. */
  ghost predicate OnlyUser(p: Page, q: Page, t: Tid) {
    t in p.users && q.users.Keys == p.users.Keys && forall u | u in p.users && u != t :: q.users[u] == p.users[u]
  }

  lemma ActsOnlyUser(p: Page, q: Page, t: Tid, a: Action)
    requires t in p.users && Acts(p, q, t, a)
    ensures OnlyUser(p, q, t)
  {}

  lemma SharersChange(p: Page, q: Page, t: Tid)
    requires OnlyUser(p, q, t)
    ensures |Sharers(q)| == |Sharers(p)| + (if q.users[t].Shared? then 1 else 0) - (if p.users[t].Shared? then 1 else 0)
  {
    if q.users[t].Shared? && !p.users[t].Shared? {
      assert Sharers(q) == Sharers(p) + {t};
    } else if p.users[t].Shared? && !q.users[t].Shared? {
      assert Sharers(p) == Sharers(q) + {t};
    } else {
      assert Sharers(q) == Sharers(p);
    }
  }

  lemma SharedStays(p: Page, q: Page, t: Tid, a: Action)
    requires t in p.users && Acts(p, q, t, a) && PageInv(p)
    ensures SharedOk(q)
  {
    ActsOnlyUser(p, q, t, a);
    SharersChange(p, q, t);
    if p.users[t].Exclusive? {
      assert StateOf(p.word) == LOCKED;
      NextVersionExact(p.word, if a.ReleaseX? then (if a.evict then EVICTED else UNLOCKED) else 1);
    }
  }

  lemma ExclusiveStays(p: Page, q: Page, t: Tid, a: Action)
    requires t in p.users && Acts(p, q, t, a) && PageInv(p)
    ensures ExclusiveOk(q)
  {
    ActsOnlyUser(p, q, t, a);
    if p.users[t].Exclusive? {
      NextVersionExact(p.word, if a.ReleaseX? then (if a.evict then EVICTED else UNLOCKED) else 1);
    } else if q.users[t].Exclusive? {
      assert StateOf(p.word) != LOCKED && StateOf(q.word) == LOCKED;
    } else {
      assert forall u | u in p.users :: q.users[u].Exclusive? <==> p.users[u].Exclusive?;
      assert StateOf(q.word) == LOCKED <==> StateOf(p.word) == LOCKED;
    }
  }

  lemma OptimistsStay(p: Page, q: Page, t: Tid, a: Action)
    requires t in p.users && Acts(p, q, t, a) && PageInv(p)
    ensures OptimistsOk(q)
    ensures VersionOf(p.word) <= VersionOf(q.word)
    ensures p.users[t].Exclusive? && !q.users[t].Exclusive? ==> VersionOf(p.word) < VersionOf(q.word)
  {
    ActsOnlyUser(p, q, t, a);
    if p.users[t].Exclusive? {
      assert StateOf(p.word) == LOCKED;
      NextVersionExact(p.word, if a.ReleaseX? then (if a.evict then EVICTED else UNLOCKED) else 1);
    } else {
      assert q.bytes == p.bytes && VersionOf(q.word) == VersionOf(p.word);
      assert StateOf(q.word) != LOCKED ==> StateOf(p.word) != LOCKED;
    }
  }

  ghost predicate RunOk(run: seq<Page>) {
    && |run| > 0 && StateOf(run[0].word) == EVICTED
    && (forall t | t in run[0].users :: run[0].users[t] == Outside)
    && (forall i | 0 < i < |run| :: Moves(run[i - 1], run[i]))
  }

  ghost predicate Moves(p: Page, q: Page) {
    exists t, a :: t in p.users && Acts(p, q, t, a)
  }

  lemma MoveKeeps(p: Page, q: Page)
    requires PageInv(p) && Moves(p, q)
    ensures PageInv(q) && VersionOf(p.word) <= VersionOf(q.word)
  {
    var t, a :| t in p.users && Acts(p, q, t, a);
    SharedStays(p, q, t, a);
    ExclusiveStays(p, q, t, a);
    OptimistsStay(p, q, t, a);
  }

  /** Over all runs: Locked exactly while one thread is in an exclusive section, value n
      exactly while n threads share, versions never go back. */
  lemma {:induction false} LockWordIsTruthful(run: seq<Page>, i: nat)
    requires RunOk(run) && i < |run|
    ensures PageInv(run[i])
    ensures i > 0 ==> VersionOf(run[i - 1].word) <= VersionOf(run[i].word)
  {
    if i == 0 {
      assert Sharers(run[0]) == {};
    } else {
      LockWordIsTruthful(run, i - 1);
      assert Moves(run[i - 1], run[i]);
      MoveKeeps(run[i - 1], run[i]);
    }
  }

  /** If validation lets a reader go on, all its loads, made one by one while others came
      and went, are bytes of the single content that it captured, and the page still has it. */
  lemma ValidatedReadIsSnapshot(run: seq<Page>, i: nat, t: Tid)
    requires RunOk(run) && i < |run| && t in run[i].users && run[i].users[t].Optimist?
    requires Valid(run[i].word, run[i].users[t].ver)
    ensures run[i].bytes == run[i].users[t].snap && LoadsMatch(run[i].users[t])
  {
    LockWordIsTruthful(run, i);
  }

  ghost predicate OnlyHolder(p: Page, t: Tid) {
    forall u | u in p.users && p.users[u].Exclusive? :: u == t
  }

  /** Upgrading an optimistic guard locks precisely the content that was read. */
  lemma UpgradeLocksWhatWasRead(run: seq<Page>, i: nat, t: Tid, a: Action)
    requires RunOk(run) && i + 1 < |run| && t in run[i].users && Acts(run[i], run[i + 1], t, a)
    requires a.UpgradeX? || a.UpgradeS?
    ensures run[i + 1].bytes == run[i].users[t].snap && LoadsMatch(run[i].users[t])
    ensures a.UpgradeX? ==> StateOf(run[i + 1].word) == LOCKED
    ensures OnlyHolder(run[i + 1], t)
  {
    LockWordIsTruthful(run, i);
    LockWordIsTruthful(run, i + 1);
  }

  /** Under an exclusive lock nothing is sure; without one the version stays, and a page that is in
      memory stays there; an exclusive section ends with a greater version. */
  lemma StepOfWord(p: Page, q: Page)
    requires PageInv(p) && Moves(p, q)
    ensures VersionOf(p.word) <= VersionOf(q.word)
    ensures StateOf(p.word) != LOCKED ==> VersionOf(q.word) == VersionOf(p.word)
    ensures StateOf(p.word) != LOCKED && StateOf(p.word) != EVICTED ==> StateOf(q.word) != EVICTED
    ensures StateOf(p.word) == LOCKED && StateOf(q.word) != LOCKED ==> VersionOf(p.word) < VersionOf(q.word)
  {
    hide SharedOk, OptimistsOk;
    var t, a :| t in p.users && Acts(p, q, t, a);
    if p.users[t].Exclusive? {
      assert StateOf(p.word) == LOCKED;
      NextVersionExact(p.word, if a.ReleaseX? then (if a.evict then EVICTED else UNLOCKED) else 1);
    }
  }

  /** Somebody has held the page exclusively at some moment from c to i. */
  ghost predicate LockedSince(run: seq<Page>, c: nat, i: nat)
    requires i < |run|
  {
    exists j :: c <= j <= i && StateOf(run[j].word) == LOCKED
  }

  lemma {:induction false} SinceCapture(run: seq<Page>, c: nat, i: nat)
    requires RunOk(run) && c <= i < |run| && StateOf(run[c].word) <= MAX_SHARED
    ensures VersionOf(run[c].word) <= VersionOf(run[i].word)
    ensures if LockedSince(run, c, i)
            then StateOf(run[i].word) == LOCKED || VersionOf(run[c].word) < VersionOf(run[i].word)
            else VersionOf(run[i].word) == VersionOf(run[c].word) && StateOf(run[i].word) != LOCKED
                 && StateOf(run[i].word) != EVICTED
    decreases i
  {
    hide PageInv, RunOk, Moves, StateOf, VersionOf, LockedSince;
    if i == c {
      LockedNow(run, c);
    } else {
      SinceCapture(run, c, i - 1);
      LockWordIsTruthful(run, i - 1);
      MovesAt(run, i);
      StepOfWord(run[i - 1], run[i]);
      LockedOneMore(run, c, i);
    }
  }

  lemma MovesAt(run: seq<Page>, i: nat)
    requires RunOk(run) && 0 < i < |run|
    ensures Moves(run[i - 1], run[i])
  {}

  lemma LockedNow(run: seq<Page>, c: nat)
    requires c < |run|
    ensures LockedSince(run, c, c) <==> StateOf(run[c].word) == LOCKED
  {}

  lemma LockedOneMore(run: seq<Page>, c: nat, i: nat)
    requires c < i < |run|
    ensures LockedSince(run, c, i) <==> LockedSince(run, c, i - 1) || StateOf(run[i].word) == LOCKED
  {}

  /** Validation passes exactly if nobody has held the page exclusively since the version was captured;
      sharers and marks do not matter. */
  lemma ValidationPassesIff(run: seq<Page>, c: nat, i: nat)
    requires RunOk(run) && c <= i < |run| && StateOf(run[c].word) <= MAX_SHARED
    ensures Valid(run[i].word, VersionOf(run[c].word)) <==> !LockedSince(run, c, i)
  {
    hide RunOk, LockedSince;
    SinceCapture(run, c, i);
  }
}
