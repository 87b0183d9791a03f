/** The open-addressing table of resident pages: linear probing with tombstones. */
module ResidentSets {
  import opened Nodes
  import opened Options

  const EMPTY: PID := 0xFFFF_FFFF_FFFF_FFFF
  const TOMBSTONE: PID := 0xFFFF_FFFF_FFFF_FFFE

  predicate IsLive(p: PID) { p != EMPTY && p != TOMBSTONE }

  /** The slot d places behind slot h, wrapping around. */
  function Probe(h: nat, d: nat, count: nat): (r: nat)
    requires h < count && d < count
    ensures r < count
  {
    if h + d < count then h + d else h + d - count
  }

  /** How many places slot j lies behind slot h. */
  function Distance(h: nat, j: nat, count: nat): (d: nat)
    requires h < count && j < count
    ensures d < count && Probe(h, d, count) == j
  {
    if j >= h then j - h else j + count - h
  }

  lemma ProbeOnce(h: nat, d: nat, e: nat, count: nat)
    requires h < count && d < count && e < count && Probe(h, d, count) == Probe(h, e, count)
    ensures d == e
  {}

  function Members(t: seq<PID>): set<PID> { set j | 0 <= j < |t| && IsLive(t[j]) :: t[j] }

  lemma SlotIsMember(t: seq<PID>, j: nat)
    requires j < |t| && IsLive(t[j])
    ensures t[j] in Members(t)
  {}

  lemma MemberHasSlot(t: seq<PID>, p: PID)
    requires p in Members(t)
    ensures IsLive(p) && exists j :: 0 <= j < |t| && t[j] == p
  {}

  /** No page is in two slots. */
  ghost predicate Once(t: seq<PID>) {
    forall i, j | 0 <= i < j < |t| && IsLive(t[i]) && IsLive(t[j]) :: t[i] != t[j]
  }

  /** No empty slot lies between the slot that p hashes to and slot j. */
  ghost predicate Reachable(t: seq<PID>, h: nat, j: nat)
    requires h < |t| && j < |t|
  {
    forall e | 0 <= e < Distance(h, j, |t|) :: t[Probe(h, e, |t|)] != EMPTY
  }

  ghost predicate AllReachable(t: seq<PID>, hash: PID -> nat) {
    |t| > 0 && forall j | 0 <= j < |t| && IsLive(t[j]) :: Reachable(t, hash(t[j]) % |t|, j)
  }

  ghost predicate Legal(t: seq<PID>, hash: PID -> nat) { Once(t) && AllReachable(t, hash) }

  // ---------------------------------------------------------------- single changes

  /** A page may go into a free slot if all slots before it on its path are taken. */
  lemma PutKeepsLegal(t: seq<PID>, hash: PID -> nat, p: PID, d: nat)
    requires Legal(t, hash) && IsLive(p) && p !in Members(t) && d < |t|
    requires var h := hash(p) % |t|;
             !IsLive(t[Probe(h, d, |t|)]) && forall e | 0 <= e < d :: t[Probe(h, e, |t|)] != EMPTY
    ensures var u := t[Probe(hash(p) % |t|, d, |t|) := p];
            Legal(u, hash) && Members(u) == Members(t) + {p}
  {
    var n := |t|;
    var h := hash(p) % n;
    var s := Probe(h, d, n);
    var u := t[s := p];
    forall j | 0 <= j < n && IsLive(u[j]) ensures Reachable(u, hash(u[j]) % n, j) {
      if j == s {
        ProbeOnce(h, d, Distance(h, j, n), n);
      } else {
        assert Reachable(t, hash(t[j]) % n, j);
      }
    }
    assert Members(u) == Members(t) + {p} by {
      assert u[s] == p;
      forall q | q in Members(t) ensures q in Members(u) {
        var j :| 0 <= j < n && IsLive(t[j]) && t[j] == q;
        assert u[j] == q;
      }
    }
  }

  lemma DropKeepsLegal(t: seq<PID>, hash: PID -> nat, s: nat)
    requires Legal(t, hash) && s < |t| && IsLive(t[s])
    ensures var u := t[s := TOMBSTONE]; Legal(u, hash) && Members(u) == Members(t) - {t[s]}
  {
    var u := t[s := TOMBSTONE];
    forall j | 0 <= j < |t| && IsLive(u[j]) ensures Reachable(u, hash(u[j]) % |t|, j) {
      assert Reachable(t, hash(t[j]) % |t|, j);
    }
    assert Members(u) == Members(t) - {t[s]} by {
      forall q | q in Members(t) && q != t[s] ensures q in Members(u) {
        var j :| 0 <= j < |t| && IsLive(t[j]) && t[j] == q;
        assert u[j] == q;
      }
    }
  }

  /** An empty slot on its path means that a page is not in the table. */
  lemma AbsentAtEmpty(t: seq<PID>, hash: PID -> nat, p: PID, d: nat)
    requires Legal(t, hash) && IsLive(p) && d < |t|
    requires var h := hash(p) % |t|;
             t[Probe(h, d, |t|)] == EMPTY && forall e | 0 <= e < d :: t[Probe(h, e, |t|)] != p
    ensures p !in Members(t)
  {
    var h := hash(p) % |t|;
    forall j | 0 <= j < |t| && IsLive(t[j]) ensures t[j] != p {
      if t[j] == p { FoundBeforeEmpty(t, h, j, d); }
    }
  }

  lemma FoundBeforeEmpty(t: seq<PID>, h: nat, j: nat, d: nat)
    requires h < |t| && j < |t| && d < |t| && Reachable(t, h, j) && t[j] != EMPTY && t[Probe(h, d, |t|)] == EMPTY
    ensures Distance(h, j, |t|) < d
  {}

  // ---------------------------------------------------------------- room

  lemma {:induction false} FullTableHasManyMembers(t: seq<PID>)
    requires Once(t) && forall j | 0 <= j < |t| :: IsLive(t[j])
    ensures |Members(t)| == |t|
  {
    if t != [] {
      var u := t[..|t| - 1];
      FullTableHasManyMembers(u);
      assert Members(t) == Members(u) + {t[|t| - 1]} by {
        forall q | q in Members(t) ensures q in Members(u) + {t[|t| - 1]} {
          var j :| 0 <= j < |t| && t[j] == q;
          assert j < |u| ==> u[j] == q;
        }
        forall q | q in Members(u) ensures q in Members(t) {
          var j :| 0 <= j < |u| && u[j] == q;
          assert t[j] == q;
        }
      }
      assert t[|t| - 1] !in Members(u);
    } else {
      assert Members(t) == {};
    }
  }

  lemma {:induction false} FewPages(s: set<PID>, n: nat)
    requires forall p | p in s :: p < n
    ensures |s| <= n
  {
    if n == 0 {
      assert s == {};
    } else if s != {} {
      var u := set p | p in s && p < n - 1;
      FewPages(u, n - 1);
      assert forall p | p in s && p !in u :: p == n - 1;
      var last: int := n - 1;
      assert forall p | p in s - u :: p == last;
      SingleMember(s - u, last);
      assert s == u + (s - u);
    }
  }

  lemma SingleMember(s: set<PID>, x: int)
    requires forall p | p in s :: p == x
    ensures |s| <= 1
  {
    if s != {} {
      var p :| p in s;
      assert s == {p};
    }
  }

  /** While all page ids are below virtCount, and the table has more slots than that, there
      is a slot for another page. */
  lemma TableNeverFull(t: seq<PID>, virtCount: nat)
    requires Once(t) && virtCount < |t| && forall p | p in Members(t) :: p < virtCount
    ensures exists j :: 0 <= j < |t| && !IsLive(t[j])
  {
    if forall j | 0 <= j < |t| :: IsLive(t[j]) {
      FullTableHasManyMembers(t);
      FewPages(Members(t), virtCount);
    }
  }

  // ---------------------------------------------------------------- the table's size

  function Pow2(e: nat): (r: nat)
    ensures r > 0
  {
    if e == 0 then 1 else 2 * Pow2(e - 1)
  }

  ghost predicate IsPow2(n: nat) { exists e :: n == Pow2(e) }

  /** Binary digits of x: 64 less the leading zeros of a 64-bit x that is not zero. */
  function BitLength(x: nat): (b: nat)
    ensures x < Pow2(b)
    ensures b > 0 ==> Pow2(b - 1) <= x
  {
    if x == 0 then 0 else BitLength(x / 2) + 1
  }

  lemma {:induction false} Pow2Monotone(a: nat, b: nat)
    requires a <= b
    ensures Pow2(a) <= Pow2(b)
  {
    if a < b { Pow2Monotone(a, b - 1); }
  }

  /** next_pow2: the number 1 that is shifted is a 32-bit int. None where C++ leaves the result open:
      the leading zeros of zero, and a shift by 32 or more. Shifted by 31, the int is the least one,
      and its sign is extended to 64 bits. */
  function NextPow2(x: nat): Option<nat> {
    if x == 1 then None
    else
      var shift := if x == 0 then 64 else BitLength(x - 1);
      if shift < 31 then Some(Pow2(shift))
      else if shift == 31 then Some(0xFFFF_FFFF_8000_0000)
      else None
  }

  /** The table's size for maxCount pages; the product with 1.5 is cut off to an integer. */
  function TableSize(maxCount: nat): Option<nat> {
    NextPow2(maxCount * 3 / 2)
  }

  /** What the probing needs: a size that a mask can stand for, and a slot more than pages. */
  ghost predicate GoodSize(size: Option<nat>, maxCount: nat) {
    size.Some? && IsPow2(size.value) && size.value > maxCount
  }

  lemma {:induction false} Pow2Add(a: nat, b: nat)
    ensures Pow2(a + b) == Pow2(a) * Pow2(b)
  {
    if a > 0 { Pow2Add(a - 1, b); }
  }

  lemma SomePowers()
    ensures Pow2(30) == 0x4000_0000 && Pow2(31) == 0x8000_0000
    ensures Pow2(63) == 0x8000_0000_0000_0000 && Pow2(64) == 0x1_0000_0000_0000_0000
  {
    assert Pow2(10) == 1024;
    Pow2Add(10, 10);
    Pow2Add(10, 20);
    Pow2Add(1, 30);
    Pow2Add(31, 31);
    Pow2Add(1, 62);
    Pow2Add(1, 63);
  }

  lemma BitLengthBound(x: nat, e: nat)
    ensures BitLength(x) <= e <==> x < Pow2(e)
  {
    var b := BitLength(x);
    if b <= e { Pow2Monotone(b, e); } else { Pow2Monotone(e, b - 1); }
  }

  lemma SignExtendedIsNoPower()
    ensures !IsPow2(0xFFFF_FFFF_8000_0000)
  {
    hide Pow2;
    SomePowers();
    forall e: nat ensures Pow2(e) != 0xFFFF_FFFF_8000_0000 {
      if e <= 63 { Pow2Monotone(e, 63); } else { Pow2Monotone(64, e); }
    }
  }

  /** The table has a good size exactly from two pages on and up to 2^30 slots. */
  lemma TableSizeIff(maxCount: nat)
    ensures GoodSize(TableSize(maxCount), maxCount) <==> 2 <= maxCount && maxCount * 3 / 2 <= 0x4000_0000
  {
    hide Pow2, BitLength, IsPow2;
    var x := maxCount * 3 / 2;
    SomePowers();
    SignExtendedIsNoPower();
    if x > 1 {
      BitLengthBound(x - 1, 30);
      BitLengthBound(x - 1, 31);
      PowersArePowers(BitLength(x - 1));
    }
  }

  lemma PowersArePowers(e: nat)
    ensures IsPow2(Pow2(e))
  {}

  /** A pool of one page has no table, and one of 715827884 pages would get one that no memory holds. */
  lemma TableSizeFails()
    ensures TableSize(1) == None
    ensures TableSize(715827884) == Some(0xFFFF_FFFF_8000_0000)
  {
    hide BitLength, Pow2;
    var x := 1073741825;
    SomePowers();
    BitLengthBound(x, 30);
    BitLengthBound(x, 31);
  }

  // ---------------------------------------------------------------- the mask

  /** Bitwise and. */
  function And(a: nat, b: nat): nat
    decreases a
  {
    if a == 0 || b == 0 then 0 else a % 2 * (b % 2) + 2 * And(a / 2, b / 2)
  }

  lemma {:induction false} MaskIsRemainder(a: nat, e: nat)
    ensures And(a, Pow2(e) - 1) == a % Pow2(e)
    decreases e
  {
    if a > 0 && e > 0 {
      MaskIsRemainder(a / 2, e - 1);
      var h := Pow2(e - 1);
      assert (Pow2(e) - 1) / 2 == h - 1;
      HalvedRemainder(a, h);
    }
  }

  lemma HalvedRemainder(a: nat, h: nat)
    requires h > 0
    ensures a % (2 * h) == a % 2 + 2 * (a / 2 % h)
  {
    var q := a / 2 / h;
    assert a / 2 == h * q + a / 2 % h;
    assert a == 2 * h * q + (a % 2 + 2 * (a / 2 % h)) by { assert 2 * (h * q) == 2 * h * q; }
    RemainderUnique(a, 2 * h, q, a % 2 + 2 * (a / 2 % h));
  }

  lemma RemainderUnique(a: nat, m: nat, q: nat, r: nat)
    requires m > 0 && r < m && a == m * q + r
    ensures a % m == r
  {
    QuotientAtMost(m, q, r, a / m, a % m);
    QuotientAtMost(m, a / m, a % m, q, r);
  }

  lemma QuotientAtMost(m: nat, q: nat, r: nat, q': nat, r': nat)
    requires m > 0 && r < m && m * q + r == m * q' + r'
    ensures q >= q'
  {
    if q < q' { ProductGrows(m, q + 1, q'); }
  }

  lemma ProductGrows(m: nat, a: nat, b: nat)
    requires a <= b
    ensures m * a <= m * b
  {}

  lemma MaskedPosition(a: nat, count: nat)
    requires IsPow2(count)
    ensures count > 0 && And(a, count - 1) == a % count
    ensures a < count ==> And(a, count - 1) == a
    ensures And(count, count - 1) == 0
  {
    hide And;
    var e :| count == Pow2(e);
    MaskIsRemainder(a, e);
    MaskIsRemainder(count, e);
    if a < count { RemainderUnique(a, count, 0, a); }
    RemainderUnique(count, count, 1, 0);
  }

  // ---------------------------------------------------------------- the table

  class ResidentPageSet {
    const count: nat
    const mask: nat
    const ht: array<PID>
    /** The source's multiplicative hash; nothing depends on what it computes. */
    const hash: PID -> nat

    ghost predicate Valid()
      reads ht
    {
      count == ht.Length && IsPow2(count) && mask == count - 1 && Legal(ht[..], hash)
    }

    ghost function Pages(): set<PID>
      reads ht
    {
      Members(ht[..])
    }

    /** An empty table; the sizes that are left out have none, by TableSizeIff. */
    constructor (maxCount: nat, hash: PID -> nat)
      requires 2 <= maxCount && maxCount * 3 / 2 <= 0x4000_0000
      ensures Valid() && Pages() == {} && fresh(ht)
      ensures TableSize(maxCount) == Some(count) && count > maxCount && this.hash == hash
    {
      TableSizeIff(maxCount);
      var size := TableSize(maxCount).value;
      MaskedPosition(0, size);
      count := size;
      mask := size - 1;
      this.hash := hash;
      ht := new PID[size](_ => EMPTY);
    }

    /** The slot behind pos, past the last one the first. */
    lemma NextSlot(h: nat, d: nat)
      requires IsPow2(count) && mask == count - 1 && h < count && d < count
      ensures And(Probe(h, d, count) + 1, mask) < count
      ensures d + 1 < count ==> And(Probe(h, d, count) + 1, mask) == Probe(h, d + 1, count)
    {
      hide And, IsPow2;
      MaskedPosition(Probe(h, d, count) + 1, count);
    }

    /** Terminates because some slot is free, and needs the page to be absent. */
    method Insert(pid: PID)
      requires Valid() && IsLive(pid) && pid !in Pages()
      requires exists j :: 0 <= j < count && !IsLive(ht[j])
      modifies ht
      ensures Valid() && Pages() == old(Pages()) + {pid}
    {
      hide And, IsPow2, Legal, Members;
      ghost var t := ht[..];
      MaskedPosition(hash(pid), count);
      var pos := And(hash(pid), mask);
      ghost var h, d := pos, 0;
      ghost var free :| 0 <= free < count && !IsLive(ht[free]);
      while IsLive(ht[pos])
        invariant ht[..] == t && d <= Distance(h, free, count) && pos == Probe(h, d, count)
        invariant forall e | 0 <= e < d :: IsLive(t[Probe(h, e, count)])
        decreases count - d
      {
        assert d != Distance(h, free, count);
        assert ht[pos] != pid by { SlotIsMember(t, pos); }
        NextSlot(h, d);
        pos := And(pos + 1, mask);
        d := d + 1;
      }
      PutKeepsLegal(t, hash, pid, d);
      ht[pos] := pid;
      assert ht[..] == t[pos := pid];
    }

    /** True exactly if the page was there. Terminates if it is there or some slot is empty. */
    method Remove(pid: PID) returns (found: bool)
      requires Valid() && IsLive(pid)
      requires pid in Pages() || exists j :: 0 <= j < count && ht[j] == EMPTY
      modifies ht
      ensures Valid() && found == (pid in old(Pages())) && Pages() == old(Pages()) - {pid}
    {
      hide And, IsPow2, Legal, Members;
      ghost var t := ht[..];
      MaskedPosition(hash(pid), count);
      var pos := And(hash(pid), mask);
      ghost var h, d := pos, 0;
      if pid in Members(t) { MemberHasSlot(t, pid); }
      ghost var stop :| 0 <= stop < count && (t[stop] == EMPTY || t[stop] == pid);
      while ht[pos] != EMPTY && ht[pos] != pid
        invariant ht[..] == t && d <= Distance(h, stop, count) && pos == Probe(h, d, count)
        invariant forall e | 0 <= e < d :: t[Probe(h, e, count)] != pid
        decreases count - d
      {
        assert d != Distance(h, stop, count);
        NextSlot(h, d);
        pos := And(pos + 1, mask);
        d := d + 1;
      }
      if ht[pos] == EMPTY {
        AbsentAtEmpty(t, hash, pid, d);
        return false;
      }
      SlotIsMember(t, pos);
      DropKeepsLegal(t, hash, pos);
      ht[pos] := TOMBSTONE;
      assert ht[..] == t[pos := TOMBSTONE];
      return true;
    }
  }
}
