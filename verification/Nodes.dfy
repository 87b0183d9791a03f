/** What a B+-tree page means: two fences, strictly sorted keys with payloads, and
    one extra page id (the right neighbour of a leaf, the last child of an inner node). */
module Nodes {
  import opened Lex

  type PID = p: int | 0 <= p < 0x1_0000_0000_0000_0000

  const NO_NEIGHBOUR: PID := 0xFFFF_FFFF_FFFF_FFFF
  const PAGE_SIZE: nat := 4096
  const HEADER_SIZE: nat := 104
  const SLOT_SIZE: nat := 10
  const PID_SIZE: nat := 8
  /** btree.hpp's maxKVSize: a quarter of what remains after the header and two slots. */
  const MAX_KV_SIZE: nat := (PAGE_SIZE - HEADER_SIZE - 2 * SLOT_SIZE) / 4
  /** underFullSize: three quarters of a page. */
  const UNDER_FULL_SIZE: nat := PAGE_SIZE / 2 + PAGE_SIZE / 4

  // ---------------------------------------------------------------- page ids as payloads

  function Pow256(n: nat): (r: nat) { if n == 0 then 1 else 256 * Pow256(n - 1) }

  function EncodeLE(v: nat, n: nat): (b: Bytes)
    ensures |b| == n
  {
    if n == 0 then [] else [v % 256] + EncodeLE(v / 256, n - 1)
  }

  function DecodeLE(b: Bytes): (v: nat)
    ensures v < Pow256(|b|)
  {
    if b == [] then 0 else b[0] + 256 * DecodeLE(b[1..])
  }

  lemma {:induction false} DecodeEncodeLE(v: nat, n: nat)
    requires v < Pow256(n)
    ensures DecodeLE(EncodeLE(v, n)) == v
  {
    if n > 0 {
      DecodeEncodeLE(v / 256, n - 1);
      assert EncodeLE(v, n)[1..] == EncodeLE(v / 256, n - 1);
    }
  }

  lemma Pow256Of8()
    ensures Pow256(8) == 0x1_0000_0000_0000_0000
  {
    assert Pow256(4) == 0x1_0000_0000;
  }

  function EncodePid(p: PID): (b: Bytes)
    ensures |b| == PID_SIZE
    ensures DecodePid(b) == p
  {
    Pow256Of8();
    DecodeEncodeLE(p, 8);
    EncodeLE(p, 8)
  }

  function DecodePid(b: Bytes): PID
    requires |b| == PID_SIZE
  {
    Pow256Of8();
    DecodeLE(b)
  }

  // ---------------------------------------------------------------- nodes

  datatype Node = Node(isLeaf: bool, lower: Key, upper: Key,
                       keys: seq<Key>, pays: seq<Bytes>, ext: PID)

  /** Lower fence exclusive, upper fence inclusive; an empty fence is no fence. */
  ghost predicate InRange(k: Key, lower: Key, upper: Key) {
    (lower == [] || Less(lower, k)) && (upper == [] || AtMost(k, upper))
  }

  ghost predicate Covers(n: Node, k: Key) { InRange(k, n.lower, n.upper) }

  ghost predicate Sorted(keys: seq<Key>) {
    forall i, j | 0 <= i < j < |keys| :: Less(keys[i], keys[j])
  }

  ghost predicate WF(n: Node) {
    && |n.keys| == |n.pays|
    && (n.upper != [] ==> Less(n.lower, n.upper))
    && Sorted(n.keys)
    && (forall i | 0 <= i < |n.keys| :: Covers(n, n.keys[i]))
    && (!n.isLeaf ==> WFInner(n))
  }

  /** Separators are non-empty and lie strictly inside the fences, so that every
      child gets a non-empty range; child pointers are stored as eight bytes. */
  ghost predicate WFInner(n: Node) {
    && (forall i | 0 <= i < |n.pays| :: |n.pays[i]| == PID_SIZE)
    && (forall i | 0 <= i < |n.keys| :: n.keys[i] != [] && (n.upper != [] ==> Less(n.keys[i], n.upper)))
  }

  function Child(n: Node, i: nat): PID
    requires |n.keys| == |n.pays| && i <= |n.keys|
    requires i < |n.keys| ==> |n.pays[i]| == PID_SIZE
  {
    if i == |n.keys| then n.ext else DecodePid(n.pays[i])
  }

  function SlotLower(n: Node, i: nat): Key
    requires i <= |n.keys|
  {
    if i == 0 then n.lower else n.keys[i - 1]
  }

  function SlotUpper(n: Node, i: nat): Key
    requires i <= |n.keys|
  {
    if i == |n.keys| then n.upper else n.keys[i]
  }

  // ---------------------------------------------------------------- search

  /** The plain lower bound: how many leading keys are below k. */
  function LowerBound(keys: seq<Key>, k: Key): (r: nat)
    ensures r <= |keys|
    ensures forall i | 0 <= i < r :: Less(keys[i], k)
    ensures r < |keys| ==> AtMost(k, keys[r])
  {
    if keys == [] then 0 else
      LessIsLexicographic(keys[0], k);
      if LexLess(keys[0], k) then 1 + LowerBound(keys[1..], k) else 0
  }

  lemma LowerBoundUnique(keys: seq<Key>, k: Key, r: nat)
    requires Sorted(keys) && r <= |keys|
    requires forall i | 0 <= i < r :: Less(keys[i], k)
    requires r < |keys| ==> AtMost(k, keys[r])
    ensures LowerBound(keys, k) == r
  {}

  /** The child that a descent for key k takes from an inner node. */
  function Next(n: Node, k: Key): PID
    requires |n.keys| == |n.pays| && forall i | 0 <= i < |n.pays| :: |n.pays[i]| == PID_SIZE
  {
    Child(n, LowerBound(n.keys, k))
  }

  predicate Has(n: Node, k: Key) {
    var i := LowerBound(n.keys, k);
    i < |n.keys| && n.keys[i] == k
  }

  /** On sorted keys the lower bound finds a key exactly if it is there. */
  lemma HasIsMembership(n: Node, k: Key)
    requires Sorted(n.keys)
    ensures Has(n, k) <==> k in n.keys
  {
    if k in n.keys {
      var j :| 0 <= j < |n.keys| && n.keys[j] == k;
      LowerBoundUnique(n.keys, k, j);
    }
  }

  /** An inner node sends a key it covers to the child slot whose range contains it. */
  lemma RoutedInRange(n: Node, k: Key)
    requires WF(n) && Covers(n, k)
    ensures var i := LowerBound(n.keys, k); InRange(k, SlotLower(n, i), SlotUpper(n, i))
  {}

  // ---------------------------------------------------------------- space

  function TotalLen(s: seq<Bytes>): (r: nat) { if s == [] then 0 else |s[0]| + TotalLen(s[1..]) }

  lemma {:induction false} TotalLenConcat(a: seq<Bytes>, b: seq<Bytes>)
    ensures TotalLen(a + b) == TotalLen(a) + TotalLen(b)
  {
    if a == [] {
      assert a + b == b;
    } else {
      TotalLenConcat(a[1..], b);
      assert (a + b)[1..] == a[1..] + b;
    }
  }

  lemma TotalLenSplit(s: seq<Bytes>, i: nat)
    requires i <= |s|
    ensures TotalLen(s) == TotalLen(s[..i]) + TotalLen(s[i..])
  {
    TotalLenConcat(s[..i], s[i..]);
    assert s[..i] + s[i..] == s;
  }

  /** Every key of a node starts with the common prefix of its fences; only the
      remainder is stored. */
  function Prefix(n: Node): nat { Common(n.lower, n.upper) }

  /** Bytes taken by fences, key remainders and payloads. */
  function SpaceUsed(n: Node): int {
    |n.lower| + |n.upper| + TotalLen(n.keys) + TotalLen(n.pays) - |n.keys| * Prefix(n)
  }

  /** freeSpaceAfterCompaction; negative means that the node does not fit its page. */
  function Free(n: Node): int {
    PAGE_SIZE - HEADER_SIZE - SLOT_SIZE * |n.keys| - SpaceUsed(n)
  }

  function SpaceNeeded(n: Node, keyLen: nat, payLen: nat): int {
    SLOT_SIZE + (keyLen - Prefix(n)) + payLen
  }

  predicate HasSpaceFor(n: Node, keyLen: nat, payLen: nat) {
    SpaceNeeded(n, keyLen, payLen) <= Free(n)
  }

  lemma CoveredSharesPrefix(n: Node, k: Key)
    requires Covers(n, k)
    ensures Prefix(n) <= |k| && k[..Prefix(n)] == n.lower[..Prefix(n)]
  {
    if n.lower != [] && n.upper != [] {
      BetweenSharesPrefix(n.lower, k, n.upper);
    }
  }

  lemma KeysSharePrefix(n: Node)
    requires WF(n)
    ensures forall i | 0 <= i < |n.keys| ::
              Prefix(n) <= |n.keys[i]| && n.keys[i][..Prefix(n)] == n.lower[..Prefix(n)]
  {
    forall i | 0 <= i < |n.keys|
      ensures Prefix(n) <= |n.keys[i]| && n.keys[i][..Prefix(n)] == n.lower[..Prefix(n)]
    {
      CoveredSharesPrefix(n, n.keys[i]);
    }
  }

  lemma {:induction false} TotalLenAtLeast(s: seq<Bytes>, p: nat)
    requires forall i | 0 <= i < |s| :: p <= |s[i]|
    ensures |s| * p <= TotalLen(s)
  {
    if s != [] {
      TotalLenAtLeast(s[1..], p);
      assert |s| * p == p + |s[1..]| * p;
    }
  }

  lemma {:induction false} TotalLenAtMost(s: seq<Bytes>, p: nat)
    requires forall i | 0 <= i < |s| :: |s[i]| <= p
    ensures TotalLen(s) <= |s| * p
  {
    if s != [] {
      TotalLenAtMost(s[1..], p);
      assert |s| * p == p + |s[1..]| * p;
    }
  }

  // ---------------------------------------------------------------- single-entry changes

  function InsertAt(n: Node, i: nat, k: Key, p: Bytes): Node
    requires |n.keys| == |n.pays| && i <= |n.keys|
  {
    n.(keys := n.keys[..i] + [k] + n.keys[i..], pays := n.pays[..i] + [p] + n.pays[i..])
  }

  function Insert(n: Node, k: Key, p: Bytes): Node
    requires |n.keys| == |n.pays|
  {
    InsertAt(n, LowerBound(n.keys, k), k, p)
  }

  function RemoveAt(n: Node, i: nat): Node
    requires |n.keys| == |n.pays| && i < |n.keys|
  {
    n.(keys := n.keys[..i] + n.keys[i+1..], pays := n.pays[..i] + n.pays[i+1..])
  }

  ghost predicate FitsBetween(keys: seq<Key>, i: nat, k: Key)
    requires i <= |keys|
  {
    (forall j | 0 <= j < i :: Less(keys[j], k)) && (forall j | i <= j < |keys| :: Less(k, keys[j]))
  }

  lemma AbsentKeyFits(keys: seq<Key>, k: Key)
    requires Sorted(keys) && k !in keys
    ensures FitsBetween(keys, LowerBound(keys, k), k)
  {
    var i := LowerBound(keys, k);
    if i < |keys| && Rank(keys[i]) == Rank(k) {
      RankInjective(keys[i], k);
    }
  }

  lemma InsertSorted(keys: seq<Key>, i: nat, k: Key)
    requires Sorted(keys) && i <= |keys| && FitsBetween(keys, i, k)
    ensures Sorted(keys[..i] + [k] + keys[i..])
    ensures LowerBound(keys, k) == i
  {
    LowerBoundUnique(keys, k, i);
  }

  /** Inserting an absent key keeps a page legal. */
  lemma InsertKeepsWF(n: Node, k: Key, p: Bytes)
    requires WF(n) && Covers(n, k) && k !in n.keys
    requires !n.isLeaf ==> |p| == PID_SIZE && k != [] && (n.upper != [] ==> Less(k, n.upper))
    ensures WF(Insert(n, k, p))
  {
    var i, m := LowerBound(n.keys, k), Insert(n, k, p);
    AbsentKeyFits(n.keys, k);
    InsertSorted(n.keys, i, k);
    forall j | 0 <= j < |m.keys|
      ensures Covers(m, m.keys[j])
      ensures !n.isLeaf ==> |m.pays[j]| == PID_SIZE && m.keys[j] != [] && (n.upper != [] ==> Less(m.keys[j], n.upper))
    {
      if j != i {
        var o := if j < i then j else j - 1;
        assert m.keys[j] == n.keys[o] && m.pays[j] == n.pays[o];
        assert Covers(n, n.keys[o]);
      }
    }
  }

  /** insert does not look for the key: a leaf stays legal exactly if the key was absent. A key that
      was there ends up in two neighbouring slots. */
  lemma InsertKeepsWFIff(n: Node, k: Key, p: Bytes)
    requires WF(n) && n.isLeaf && Covers(n, k)
    ensures WF(Insert(n, k, p)) <==> k !in n.keys
    ensures k in n.keys ==> var i, m := LowerBound(n.keys, k), Insert(n, k, p);
                            i + 1 < |m.keys| && m.keys[i] == k == m.keys[i + 1] && m.pays[i] == p
  {
    if k in n.keys {
      HasIsMembership(n, k);
      var i, m := LowerBound(n.keys, k), Insert(n, k, p);
      assert m.keys[i] == k && m.keys[i + 1] == n.keys[i];
      assert !Less(m.keys[i], m.keys[i + 1]);
    } else {
      InsertKeepsWF(n, k, p);
    }
  }

  lemma InsertSpace(n: Node, i: nat, k: Key, p: Bytes)
    requires |n.keys| == |n.pays| && i <= |n.keys|
    ensures Free(InsertAt(n, i, k, p)) == Free(n) - SpaceNeeded(n, |k|, |p|)
  {
    InsertLengths(n.keys, i, k);
    InsertLengths(n.pays, i, p);
    OneMore(|n.keys|, Prefix(n));
  }

  lemma OneMore(c: nat, p: nat)
    ensures (c + 1) * p == c * p + p
  {}

  lemma InsertLengths(s: seq<Bytes>, i: nat, b: Bytes)
    requires i <= |s|
    ensures TotalLen(s[..i] + [b] + s[i..]) == TotalLen(s) + |b|
  {
    TotalLenSplit(s, i);
    TotalLenConcat(s[..i] + [b], s[i..]);
    TotalLenConcat(s[..i], [b]);
    assert TotalLen([b]) == |b|;
  }

  lemma RemoveSorted(keys: seq<Key>, i: nat)
    requires Sorted(keys) && i < |keys|
    ensures Sorted(keys[..i] + keys[i+1..])
    ensures forall x :: x in keys[..i] + keys[i+1..] <==> x in keys && x != keys[i]
  {
    assert keys == keys[..i] + [keys[i]] + keys[i+1..];
  }

  lemma RemoveKeepsWF(n: Node, i: nat)
    requires WF(n) && i < |n.keys|
    ensures WF(RemoveAt(n, i))
  {
    var m := RemoveAt(n, i);
    RemoveSorted(n.keys, i);
    forall j | 0 <= j < |m.keys|
      ensures Covers(m, m.keys[j])
      ensures !n.isLeaf ==> |m.pays[j]| == PID_SIZE && m.keys[j] != [] && (n.upper != [] ==> Less(m.keys[j], n.upper))
    {
      var o := if j < i then j else j + 1;
      assert m.keys[j] == n.keys[o] && m.pays[j] == n.pays[o];
      assert Covers(n, n.keys[o]);
    }
  }

  lemma RemoveSpace(n: Node, i: nat)
    requires |n.keys| == |n.pays| && i < |n.keys|
    ensures Free(RemoveAt(n, i)) == Free(n) + SpaceNeeded(n, |n.keys[i]|, |n.pays[i]|)
  {
    RemoveLengths(n.keys, i);
    RemoveLengths(n.pays, i);
    OneMore(|n.keys| - 1, Prefix(n));
  }

  lemma RemoveLengths(s: seq<Bytes>, i: nat)
    requires i < |s|
    ensures TotalLen(s[..i] + s[i+1..]) + |s[i]| == TotalLen(s)
  {
    InsertLengths(s[..i] + s[i+1..], i, s[i]);
    var t := s[..i] + s[i+1..];
    assert t[..i] + [s[i]] + t[i..] == s;
  }
}
