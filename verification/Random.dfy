/** The Lehmer generator modulo 2^31-1 that the skip list draws its heights from. */
module Randoms {

  const M: nat := 2147483647
  const A: nat := 16807
  /** A * INVERSE == 11017 * M + 1 */
  const INVERSE: nat := 1407677000

  type u32 = x: int | 0 <= x < 0x1_0000_0000

  predicate IsSeed(s: int) { 1 <= s < M }

  function Step(s: nat): nat { A * s % M }

  function Back(s: nat): nat { INVERSE * s % M }

  function Iterate(s: nat, n: nat): nat { if n == 0 then s else Step(Iterate(s, n - 1)) }

  // ---------------------------------------------------------------- arithmetic modulo M

  lemma ModUnique(x: nat, q: nat, r: nat)
    requires x == q * M + r && r < M
    ensures x % M == r
  {}

  lemma BackUndoesStep(s: nat)
    requires s < M
    ensures Back(Step(s)) == s
  {
    var k := A * s / M;
    assert A * s == k * M + Step(s);
    var q := 11017 * s - INVERSE * k;
    assert INVERSE * Step(s) == q * M + s;
    assert q >= 0;
    ModUnique(INVERSE * Step(s), q, s);
  }

  lemma StepUndoesBack(s: nat)
    requires s < M
    ensures Step(Back(s)) == s
  {
    var k := INVERSE * s / M;
    assert INVERSE * s == k * M + Back(s);
    var q := 11017 * s - A * k;
    assert A * Back(s) == q * M + s;
    assert q >= 0;
    ModUnique(A * Back(s), q, s);
  }

  /** On [1, M-1] a step is a bijection: it stays there, and Back, which also stays there, undoes it. */
  lemma StepIsBijection(s: nat)
    requires IsSeed(s)
    ensures IsSeed(Step(s)) && Back(Step(s)) == s
    ensures IsSeed(Back(s)) && Step(Back(s)) == s
  {
    BackUndoesStep(s);
    StepUndoesBack(s);
  }

  /** The shift-and-add reduction, with its conditional subtraction, is the remainder modulo M.
      It yields neither 0 nor M, so that the seed never gets stuck. */
  lemma ReductionIsRemainder(s: nat)
    requires IsSeed(s)
    ensures var product := s * A;
            var sum := product / 0x8000_0000 + product % 0x8000_0000;
            && sum < 0x1_0000_0000 && (if sum > M then sum - M else sum) == Step(s) && sum != M
  {
    var product := s * A;
    var hi, lo := product / 0x8000_0000, product % 0x8000_0000;
    assert product == hi * M + (hi + lo);
    assert hi < A;
    StepIsBijection(s);
    if hi + lo < M {
      ModUnique(product, hi, hi + lo);
    } else {
      ModUnique(product, hi + 1, hi + lo - M);
    }
  }

  // ---------------------------------------------------------------- every run is a pure cycle

  lemma {:induction false} IterateIsSeed(s: nat, n: nat)
    requires IsSeed(s)
    ensures IsSeed(Iterate(s, n))
  {
    if n > 0 {
      IterateIsSeed(s, n - 1);
      StepIsBijection(Iterate(s, n - 1));
    }
  }

  /** Equal values have equal predecessors. */
  lemma {:induction false} Rewind(s: nat, i: nat, j: nat)
    requires IsSeed(s) && i <= j && Iterate(s, i) == Iterate(s, j)
    ensures Iterate(s, j - i) == s
  {
    if i > 0 {
      IterateIsSeed(s, i - 1);
      IterateIsSeed(s, j - 1);
      StepIsBijection(Iterate(s, i - 1));
      StepIsBijection(Iterate(s, j - 1));
      Rewind(s, i - 1, j - 1);
    }
  }

  function Seen(s: nat, n: nat): (r: set<nat>) { if n == 0 then {} else Seen(s, n - 1) + {Iterate(s, n - 1)} }

  lemma {:induction false} SeenMember(s: nat, n: nat, x: nat) returns (i: nat)
    requires IsSeed(s) && x in Seen(s, n)
    ensures i < n && Iterate(s, i) == x && IsSeed(x)
  {
    hide Step;
    if x == Iterate(s, n - 1) {
      i := n - 1;
      IterateIsSeed(s, i);
    } else {
      i := SeenMember(s, n - 1, x);
    }
  }

  /** As long as the seed has not come back, every number drawn is new. */
  lemma {:induction false} SeenIsNew(s: nat, n: nat)
    requires IsSeed(s) && forall k | 0 < k < n :: Iterate(s, k) != s
    ensures |Seen(s, n)| == n
  {
    if n > 0 {
      SeenIsNew(s, n - 1);
      if Iterate(s, n - 1) in Seen(s, n - 1) {
        var i := SeenMember(s, n - 1, Iterate(s, n - 1));
        Rewind(s, i, n - 1);
        assert false;
      }
    }
  }

  lemma {:induction false} AtMostAsMany(a: set<nat>, n: nat)
    requires forall x | x in a :: 1 <= x <= n
    ensures |a| <= n
  {
    if n == 0 {
      assert a == {};
    } else {
      AtMostAsMany(a - {n}, n - 1);
      assert a <= (a - {n}) + {n};
      assert n in a ==> |a| == |a - {n}| + 1;
      assert n !in a ==> a - {n} == a;
    }
  }

  /** Every seed comes back within M-1 steps. */
  lemma SeedReturns(s: nat) returns (n: nat)
    requires IsSeed(s)
    ensures 0 < n < M && Iterate(s, n) == s
  {
    if forall k | 0 < k < M :: Iterate(s, k) != s {
      SeenIsNew(s, M);
      forall x | x in Seen(s, M) ensures IsSeed(x) { var i := SeenMember(s, M, x); }
      AtMostAsMany(Seen(s, M), M - 1);
    }
    n :| 0 < n < M && Iterate(s, n) == s;
  }

  lemma {:induction false} Periodic(s: nat, n: nat, k: nat)
    requires Iterate(s, n) == s
    ensures Iterate(s, k + n) == Iterate(s, k)
  {
    if k > 0 { Periodic(s, n, k - 1); }
  }

  /** The numbers drawn from a seed repeat from the very first one on: there is no tail that
      leads into the cycle. */
  lemma RunsArePureCycles(s: nat) returns (n: nat)
    requires IsSeed(s)
    ensures 0 < n < M && forall k: nat :: Iterate(s, k + n) == Iterate(s, k)
  {
    n := SeedReturns(s);
    forall k: nat ensures Iterate(s, k + n) == Iterate(s, k) { Periodic(s, n, k); }
  }

  // ---------------------------------------------------------------- the generator

  class Random {
    var seed: u32

    ghost predicate Valid()
      reads this
    {
      IsSeed(seed)
    }

    /** Bad seeds are avoided. */
    constructor (s: u32)
      ensures Valid()
      ensures seed == if IsSeed(s % 0x8000_0000) then s % 0x8000_0000 else 1
    {
      seed := s % 0x8000_0000;
      if s % 0x8000_0000 == 0 || s % 0x8000_0000 == M { seed := 1; }
    }

    method Next() returns (r: u32)
      requires Valid()
      modifies this
      ensures Valid() && r == seed == Step(old(seed))
    {
      ReductionIsRemainder(seed);
      StepIsBijection(seed);
      var product := seed * A;
      seed := product / 0x8000_0000 + product % 0x8000_0000;
      if seed > M { seed := seed - M; }
      return seed;
    }

    method Uniform(n: u32) returns (r: u32)
      requires Valid() && n > 0
      modifies this
      ensures Valid() && seed == Step(old(seed)) && r == seed % n < n
    {
      r := Next();
      r := r % n;
    }

    method OneIn(n: u32) returns (b: bool)
      requires Valid() && n > 0
      modifies this
      ensures Valid() && seed == Step(old(seed)) && (b <==> seed % n == 0)
    {
      var r := Next();
      b := r % n == 0;
    }
  }
}
