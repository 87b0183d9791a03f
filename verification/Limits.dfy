/** How much room a page with few entries has left when keys and payloads are bounded. */
module Limits {
  import opened Lex
  import opened Nodes
  import opened Splitting

  /** With key and payload at most this long, a page that has to be split can be split. */
  const SAFE_KV_SIZE: nat := 792

  /** Every fence and key is at most b long, and so is every leaf key with its payload. */
  ghost predicate Bounded(n: Node, b: nat) {
    && |n.lower| <= b && |n.upper| <= b
    && (forall i | 0 <= i < |n.keys| :: |n.keys[i]| <= b)
    && (n.isLeaf && |n.keys| == |n.pays| ==> forall i | 0 <= i < |n.keys| :: |n.keys[i]| + |n.pays[i]| <= b)
  }

  lemma {:induction false} PairsAtMost(keys: seq<Bytes>, pays: seq<Bytes>, b: nat)
    requires |keys| == |pays| && forall i | 0 <= i < |keys| :: |keys[i]| + |pays[i]| <= b
    ensures TotalLen(keys) + TotalLen(pays) <= |keys| * b
  {
    if keys != [] {
      PairsAtMost(keys[1..], pays[1..], b);
      assert |keys| * b == b + |keys[1..]| * b;
    }
  }

  lemma ProductMonotone(a: nat, b: nat, c: nat)
    requires a <= b
    ensures a * c <= b * c
  {}

  /** A leaf with c bounded entries can take another one if c+1 slots and c+3 keys fit. */
  lemma LeafRoom(n: Node, b: nat, keyLen: nat, payLen: nat)
    requires WF(n) && n.isLeaf && Bounded(n, b) && keyLen + payLen <= b
    requires SLOT_SIZE * (|n.keys| + 1) + (|n.keys| + 3) * b <= PAGE_SIZE - HEADER_SIZE
    ensures HasSpaceFor(n, keyLen, payLen)
  {
    hide Rank, Common, TotalLen;
    PairsAtMost(n.keys, n.pays, b);
    ProductNonNegative(|n.keys|, Prefix(n));
    assert (|n.keys| + 3) * b == |n.keys| * b + 3 * b;
  }

  lemma InnerRoom(n: Node, b: nat, keyLen: nat)
    requires WF(n) && !n.isLeaf && Bounded(n, b) && keyLen <= b
    requires (SLOT_SIZE + PID_SIZE) * (|n.keys| + 1) + (|n.keys| + 3) * b <= PAGE_SIZE - HEADER_SIZE
    ensures HasSpaceFor(n, keyLen, PID_SIZE)
  {
    hide Rank, Common, TotalLen;
    TotalLenAtMost(n.keys, b);
    TotalLenAtMost(n.pays, PID_SIZE);
    ProductNonNegative(|n.keys|, Prefix(n));
    assert (|n.keys| + 3) * b == |n.keys| * b + 3 * b;
  }

  /** The fullest leaf with c entries of length b: all keys and both fences differ in the
      first byte, so nothing is saved by a common prefix. */
  function FullLeaf(c: nat, b: nat): Node
    requires c <= 2
  {
    Node(true, Repeat(1, b), Repeat(4, b), [Repeat(2, b), Repeat(3, b)][..c], [[], []][..c], NO_NEIGHBOUR)
  }

  lemma FullLeafSpace(c: nat, b: nat)
    requires c <= 2 && b > 0
    ensures WF(FullLeaf(c, b)) && Bounded(FullLeaf(c, b), b) && |FullLeaf(c, b).keys| == c
    ensures Free(FullLeaf(c, b)) == PAGE_SIZE - HEADER_SIZE - SLOT_SIZE * c - (c + 2) * b
    ensures Prefix(FullLeaf(c, b)) == 0
  {
    hide Rank, Common, TotalLen;
    var n := FullLeaf(c, b);
    FirstDifference(Repeat(1, b), Repeat(2, b), 0);
    FirstDifference(Repeat(2, b), Repeat(3, b), 0);
    FirstDifference(Repeat(3, b), Repeat(4, b), 0);
    FirstDifference(Repeat(1, b), Repeat(4, b), 0);
    CommonUnique(n.lower, n.upper, 0);
    TotalLenAtMost(n.keys, b);
    TotalLenAtLeast(n.keys, b);
    TotalLenAtMost(n.pays, 0);
  }

  /** A leaf that a page can hold, with c entries of bounded size. */
  ghost predicate LeafOf(n: Node, c: nat, b: nat) {
    WF(n) && n.isLeaf && |n.keys| == c && Bounded(n, b) && Free(n) >= 0
  }

  /** Every leaf with one entry has room for another, whatever its fences, exactly up to
      the source's maxKVSize ... */
  lemma OneEntryLeavesRoomIff(b: nat)
    ensures (forall n, k: nat, p: nat | LeafOf(n, 1, b) && k + p <= b :: HasSpaceFor(n, k, p)) <==> b <= MAX_KV_SIZE
  {
    if b <= MAX_KV_SIZE {
      forall n, k: nat, p: nat | LeafOf(n, 1, b) && k + p <= b ensures HasSpaceFor(n, k, p) {
        LeafRoom(n, b, k, p);
      }
    } else {
      FullLeafSpace(1, MAX_KV_SIZE + 1);
      assert LeafOf(FullLeaf(1, MAX_KV_SIZE + 1), 1, b);
      assert !HasSpaceFor(FullLeaf(1, MAX_KV_SIZE + 1), MAX_KV_SIZE + 1, 0);
    }
  }

  /** ... and with two entries exactly up to 792. A leaf without room has to be split, and
      splitNode needs a third entry. */
  lemma TwoEntriesLeaveRoomIff(b: nat)
    ensures (forall n, k: nat, p: nat | LeafOf(n, 2, b) && k + p <= b :: HasSpaceFor(n, k, p)) <==> b <= SAFE_KV_SIZE
  {
    if b <= SAFE_KV_SIZE {
      forall n, k: nat, p: nat | LeafOf(n, 2, b) && k + p <= b ensures HasSpaceFor(n, k, p) {
        LeafRoom(n, b, k, p);
      }
    } else {
      FullLeafSpace(2, SAFE_KV_SIZE + 1);
      assert LeafOf(FullLeaf(2, SAFE_KV_SIZE + 1), 2, b);
      assert !HasSpaceFor(FullLeaf(2, SAFE_KV_SIZE + 1), SAFE_KV_SIZE + 1, 0);
    }
  }

  /** A page of bounded entries that lacks room has enough entries to be split. */
  ghost predicate Splittable(n: Node) { |n.keys| > (if n.isLeaf then 2 else 1) }

  lemma FullPageIsSplittable(n: Node, keyLen: nat, payLen: nat)
    requires WF(n) && Bounded(n, SAFE_KV_SIZE) && !HasSpaceFor(n, keyLen, payLen)
    requires if n.isLeaf then keyLen + payLen <= SAFE_KV_SIZE else keyLen <= SAFE_KV_SIZE && payLen == PID_SIZE
    ensures Splittable(n)
  {
    if !Splittable(n) {
      if n.isLeaf {
        ProductMonotone(|n.keys| + 3, 5, SAFE_KV_SIZE);
        LeafRoom(n, SAFE_KV_SIZE, keyLen, payLen);
      } else {
        ProductMonotone(|n.keys| + 3, 4, SAFE_KV_SIZE);
        InnerRoom(n, SAFE_KV_SIZE, keyLen);
      }
    }
  }

  /** A fresh root takes the first separator of any page that fits, of whatever length. */
  lemma FreshRootHasRoom(n: Node, i: nat)
    requires WF(n) && Free(n) >= 0 && |n.keys| > 1 && i < |n.keys|
    ensures HasSpaceFor(Node(false, [], [], [], [], 0), |n.keys[i]|, PID_SIZE)
  {
    var p := Prefix(n);
    KeysSharePrefix(n);
    TotalLenSplit(n.keys, i);
    assert n.keys[i..][1..] == n.keys[i + 1..];
    assert TotalLen(n.keys) == TotalLen(n.keys[..i]) + |n.keys[i]| + TotalLen(n.keys[i + 1..]);
    TotalLenAtLeast(n.keys[..i], p);
    TotalLenAtLeast(n.keys[i + 1..], p);
    ThreeParts(|n.keys|, i, p);
    assert Prefix(Node(false, [], [], [], [], 0)) == 0;
    assert Free(Node(false, [], [], [], [], 0)) == PAGE_SIZE - HEADER_SIZE;
    assert p <= |n.lower|;
  }

  lemma ThreeParts(c: nat, i: nat, p: nat)
    requires i < c
    ensures c * p == i * p + p + (c - i - 1) * p
  {}
}
