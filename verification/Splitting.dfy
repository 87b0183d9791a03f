/** Splitting and merging nodes: the separator that is chosen, the two halves, the
    parent's new slot, and whether everything still fits a page. */
module Splitting {
  import opened Lex
  import opened Nodes

  // ---------------------------------------------------------------- choosing a separator

  /** slot: last slot that stays left (leaf) or the slot that moves up (inner node);
      truncated: the separator is a piece of the key after `slot`. */
  datatype SeparatorInfo = SeparatorInfo(len: nat, slot: nat, truncated: bool)

  /** Length of the common part of two stored key remainders. */
  function CommonSuffix(n: Node, a: nat, b: nat): int
    requires a < |n.keys| && b < |n.keys|
  {
    Common(n.keys[a], n.keys[b]) - Prefix(n)
  }

  /** First slot from `slot` on, below `upper`, that shares less (or more) with slot 0. */
  function Advance(n: Node, slot: nat, upper: nat, len: int): (r: nat)
    requires slot <= upper <= |n.keys|
    ensures slot <= r <= upper
    decreases upper - slot
  {
    if slot < upper && CommonSuffix(n, slot, 0) == len then Advance(n, slot + 1, upper, len) else slot
  }

  function BestSlot(n: Node, ordered: bool): (r: nat)
    requires |n.keys| > 1
    ensures r + 1 < |n.keys|
    ensures |n.keys| > 2 ==> r > 0
    ensures |n.keys| == 2 ==> r == 0
  {
    var count := |n.keys|;
    if ordered then count - 2
    else if count > 16 then
      var lower, upper := count / 2 - count / 16, count / 2;
      var best := CommonSuffix(n, lower, 0);
      if best != CommonSuffix(n, upper - 1, 0) then Advance(n, lower + 1, upper, best) else lower
    else (count - 1) / 2
  }

  function FindSeparator(n: Node, ordered: bool): (r: SeparatorInfo)
    requires |n.keys| > 1
    ensures r.slot < |n.keys|
    ensures n.isLeaf ==> r.slot + 1 < |n.keys|
    ensures r.slot == 0 <==> n.isLeaf && |n.keys| == 2
    ensures r.truncated ==> n.isLeaf && r.len == Common(n.keys[r.slot], n.keys[r.slot + 1]) + 1 < |n.keys[r.slot + 1]|
    ensures r.truncated ==> r.len <= |n.keys[r.slot]|
    ensures !r.truncated ==> r.len == |n.keys[r.slot]|
  {
    if !n.isLeaf then
      SeparatorInfo(|n.keys[|n.keys| / 2]|, |n.keys| / 2, false)
    else
      var best := BestSlot(n, ordered);
      var common := Common(n.keys[best], n.keys[best + 1]);
      if |n.keys[best]| > common && |n.keys[best + 1]| > common + 1 then SeparatorInfo(common + 1, best, true)
      else SeparatorInfo(|n.keys[best]|, best, false)
  }

  function GetSep(n: Node, info: SeparatorInfo): Key
    requires info.slot + (if info.truncated then 1 else 0) < |n.keys|
    requires info.len <= |n.keys[info.slot + (if info.truncated then 1 else 0)]|
  {
    n.keys[info.slot + (if info.truncated then 1 else 0)][..info.len]
  }

  function Separator(n: Node, ordered: bool): Key
    requires |n.keys| > 1
  {
    GetSep(n, FindSeparator(n, ordered))
  }

  /** A usable split point: everything kept left is at most the separator, everything
      sent right is above it; in an inner node the separator is the key that moves up. */
  ghost predicate SplitPoint(n: Node, slot: nat, sep: Key) {
    && sep != []
    && slot < |n.keys|
    && if n.isLeaf
       then slot + 1 < |n.keys| && AtMost(n.keys[slot], sep) && Less(sep, n.keys[slot + 1])
       else sep == n.keys[slot]
  }

  /** findSeparator and getSep deliver a split point in every mode, also when the
      separator is cut down to one byte past the common prefix. */
  lemma SeparatorIsSplitPoint(n: Node, ordered: bool)
    requires WF(n) && |n.keys| > 1
    requires n.isLeaf ==> |n.keys| > 2
    ensures SplitPoint(n, FindSeparator(n, ordered).slot, Separator(n, ordered))
  {
    var info, sep := FindSeparator(n, ordered), Separator(n, ordered);
    if info.truncated {
      var a, b := n.keys[info.slot], n.keys[info.slot + 1];
      var c := Common(a, b);
      FirstDifference(a, b, c);
      assert sep == b[..c + 1];
      FirstDifference(a, sep, c);
      ProperPrefixLess(sep, b);
    } else {
      assert sep == n.keys[info.slot];
      if n.isLeaf { assert Less(n.keys[0], sep); }
    }
  }

  // ---------------------------------------------------------------- the two halves

  function SplitLeft(n: Node, slot: nat, sep: Key, newPid: PID): Node
    requires |n.keys| == |n.pays| && slot < |n.keys|
    requires !n.isLeaf ==> |n.pays[slot]| == PID_SIZE
  {
    if n.isLeaf then Node(true, n.lower, sep, n.keys[..slot + 1], n.pays[..slot + 1], newPid)
    else Node(false, n.lower, sep, n.keys[..slot], n.pays[..slot], Child(n, slot))
  }

  function SplitRight(n: Node, slot: nat, sep: Key): Node
    requires |n.keys| == |n.pays| && slot < |n.keys|
  {
    Node(n.isLeaf, sep, n.upper, n.keys[slot + 1..], n.pays[slot + 1..], n.ext)
  }

  lemma SplitKeepsWF(n: Node, slot: nat, sep: Key, newPid: PID)
    requires WF(n) && SplitPoint(n, slot, sep)
    ensures WF(SplitLeft(n, slot, sep, newPid))
    ensures WF(SplitRight(n, slot, sep))
  {
    var l, r := SplitLeft(n, slot, sep, newPid), SplitRight(n, slot, sep);
    assert Covers(n, n.keys[slot]);
    forall i | 0 <= i < |l.keys|
      ensures Covers(l, l.keys[i])
      ensures !n.isLeaf ==> |l.pays[i]| == PID_SIZE && l.keys[i] != [] && Less(l.keys[i], sep)
    {
      assert l.keys[i] == n.keys[i] && l.pays[i] == n.pays[i];
      assert Covers(n, n.keys[i]);
      if i < slot { assert Less(n.keys[i], n.keys[slot]); }
    }
    forall i | 0 <= i < |r.keys|
      ensures Covers(r, r.keys[i])
      ensures !n.isLeaf ==> |r.pays[i]| == PID_SIZE && r.keys[i] != [] && (n.upper != [] ==> Less(r.keys[i], n.upper))
    {
      var o := slot + 1 + i;
      assert r.keys[i] == n.keys[o] && r.pays[i] == n.pays[o];
      assert Covers(n, n.keys[o]);
      assert Less(n.keys[slot], n.keys[o]);
      if n.isLeaf && o > slot + 1 { assert Less(n.keys[slot + 1], n.keys[o]); }
    }
    if n.isLeaf {
      assert Covers(n, n.keys[slot + 1]);
    }
  }

  /** Nothing is lost or duplicated: the halves' entries in order are the old entries,
      without the one that moves up when the node is an inner node. */
  lemma SplitConservesEntries(n: Node, slot: nat, sep: Key, newPid: PID)
    requires WF(n) && SplitPoint(n, slot, sep)
    ensures var l, r := SplitLeft(n, slot, sep, newPid), SplitRight(n, slot, sep);
            if n.isLeaf
            then n.keys == l.keys + r.keys && n.pays == l.pays + r.pays
            else n.keys == l.keys + [sep] + r.keys && n.pays == l.pays + [EncodePid(l.ext)] + r.pays && r.ext == n.ext
  {
    if !n.isLeaf {
      EncodeDecodePid(n.pays[slot]);
    }
  }

  lemma {:induction false} EncodeDecodeLE(b: Bytes)
    ensures EncodeLE(DecodeLE(b), |b|) == b
  {
    if b != [] {
      EncodeDecodeLE(b[1..]);
      assert DecodeLE(b) % 256 == b[0] && DecodeLE(b) / 256 == DecodeLE(b[1..]);
    }
  }

  lemma EncodeDecodePid(b: Bytes)
    requires |b| == PID_SIZE
    ensures EncodePid(DecodePid(b)) == b
  {
    EncodeDecodeLE(b);
  }

  // ---------------------------------------------------------------- where the split falls

  /** An inner node is split in the middle: around the separator that moves up, the left half has as
      many separators as the right one, or one more. */
  lemma InnerSplitIsBalanced(n: Node, ordered: bool, newPid: PID)
    requires WF(n) && !n.isLeaf && |n.keys| > 1
    ensures var slot, sep := FindSeparator(n, ordered).slot, Separator(n, ordered);
            var l, r := SplitLeft(n, slot, sep, newPid), SplitRight(n, slot, sep);
            |l.keys| - 1 <= |r.keys| <= |l.keys| && |l.keys| + 1 + |r.keys| == |n.keys| && sep == n.keys[|l.keys|]
  {}

  /** A leaf that is filled in order gives up its last entry only. */
  lemma OrderedSplitSendsOne(n: Node, newPid: PID)
    requires WF(n) && n.isLeaf && |n.keys| > 1
    ensures var slot, sep := FindSeparator(n, true).slot, Separator(n, true);
            |SplitRight(n, slot, sep).keys| == 1 && |SplitLeft(n, slot, sep, newPid).keys| == |n.keys| - 1
  {}

  /** A small leaf is split in the middle. */
  lemma SmallLeafSplitIsBalanced(n: Node, newPid: PID)
    requires WF(n) && n.isLeaf && 1 < |n.keys| <= 16
    ensures var slot, sep := FindSeparator(n, false).slot, Separator(n, false);
            var l, r := SplitLeft(n, slot, sep, newPid), SplitRight(n, slot, sep);
            |r.keys| <= |l.keys| <= |r.keys| + 1
  {}

  /** How many leading bytes the key of a slot shares with the first key. */
  function SharedWithFirst(n: Node, slot: nat): nat
    requires slot < |n.keys|
  {
    Common(n.keys[slot], n.keys[0])
  }

  /** A large leaf is split in the last eighth before the middle: at the first slot that shares less or
      more with the first key than the slots before it, or, if there is none, at the first slot. */
  lemma LargeLeafSplitIsNearMiddle(n: Node)
    requires WF(n) && n.isLeaf && |n.keys| > 16
    ensures var slot, lo, hi := FindSeparator(n, false).slot, |n.keys| / 2 - |n.keys| / 16, |n.keys| / 2;
            && lo <= slot < hi
            && (SharedWithFirst(n, lo) == SharedWithFirst(n, hi - 1) ==> slot == lo)
            && (SharedWithFirst(n, lo) != SharedWithFirst(n, hi - 1) ==>
                  && SharedWithFirst(n, slot) != SharedWithFirst(n, lo)
                  && forall j | lo <= j < slot :: SharedWithFirst(n, j) == SharedWithFirst(n, lo))
  {
    hide Common, Advance, WF, Prefix;
    var lo, hi := |n.keys| / 2 - |n.keys| / 16, |n.keys| / 2;
    if SharedWithFirst(n, lo) != SharedWithFirst(n, hi - 1) {
      var slot := Advance(n, lo + 1, hi, CommonSuffix(n, lo, 0));
      AdvanceFinds(n, lo + 1, hi, CommonSuffix(n, lo, 0), hi - 1);
      forall j | lo <= j < slot ensures SharedWithFirst(n, j) == SharedWithFirst(n, lo) {
        if lo < j { assert CommonSuffix(n, j, 0) == CommonSuffix(n, lo, 0); }
      }
    }
  }

  /** The search stops at the first slot that differs, if some slot does. */
  lemma {:induction false} AdvanceFinds(n: Node, slot: nat, upper: nat, len: int, other: nat)
    requires slot <= other < upper <= |n.keys| && CommonSuffix(n, other, 0) != len
    ensures var r := Advance(n, slot, upper, len);
            && r < upper && CommonSuffix(n, r, 0) != len
            && forall j | slot <= j < r :: CommonSuffix(n, j, 0) == len
    decreases upper - slot
  {
    if CommonSuffix(n, slot, 0) == len { AdvanceFinds(n, slot + 1, upper, len, other); }
  }

  /** A leaf's separator is the key at the split, or the next key up to and including the first byte
      in which they differ; the latter exactly if that cuts something off and exceeds the former. */
  lemma SeparatorIsCutIff(n: Node, ordered: bool)
    requires WF(n) && n.isLeaf && |n.keys| > 1
    ensures var info, sep := FindSeparator(n, ordered), Separator(n, ordered);
            var a, b := n.keys[info.slot], n.keys[info.slot + 1];
            && (info.truncated <==> |a| > Common(a, b) && |b| > Common(a, b) + 1)
            && sep == if info.truncated then b[..Common(a, b) + 1] else a
  {
    hide Common, BestSlot;
  }

  /** A separator that is cut is as short as any key that separates the halves, and so is the key at the
      split if the next key continues it. */
  lemma CutSeparatorIsShortest(n: Node, ordered: bool, k: Key)
    requires WF(n) && n.isLeaf && |n.keys| > 2 && SplitPoint(n, FindSeparator(n, ordered).slot, k)
    requires var info := FindSeparator(n, ordered);
             info.truncated || n.keys[info.slot] <= n.keys[info.slot + 1]
    ensures |Separator(n, ordered)| <= |k|
  {
    var info := FindSeparator(n, ordered);
    var a, b := n.keys[info.slot], n.keys[info.slot + 1];
    var c := Common(a, b);
    SeparatorIsCutIff(n, ordered);
    if !info.truncated { SharedAtMostCommon(a, b, |a|); }
    if a != k && a != [] { BetweenSharesPrefix(a, k, b); }
    if |k| == c && c < |a| { ProperPrefixLess(k, a); }
  }

  /** Stored remainders only get shorter: both halves have at least the old prefix. */
  lemma SplitPrefixesGrow(n: Node, slot: nat, sep: Key, newPid: PID)
    requires WF(n) && SplitPoint(n, slot, sep)
    ensures Prefix(n) <= Prefix(SplitLeft(n, slot, sep, newPid))
    ensures Prefix(n) <= Prefix(SplitRight(n, slot, sep))
  {
    assert Covers(n, n.keys[slot]);
    if n.isLeaf { assert Covers(n, n.keys[slot + 1]); }
    if n.lower != [] && n.upper != [] {
      NestedPrefix(n.lower, sep, n.upper);
    }
  }

  // ---------------------------------------------------------------- space of the halves

  /** What the entries from `slot` on take up in the node: slots, remainders, payloads. */
  function EntryBytes(n: Node, slot: nat): int
    requires |n.keys| == |n.pays| && slot <= |n.keys|
  {
    TotalLen(n.keys[slot..]) + TotalLen(n.pays[slot..]) + (|n.keys| - slot) * (SLOT_SIZE - Prefix(n))
  }

  /** The left half in closed form: it gives up the upper fence and the entries that
      leave, takes the separator as fence, and gains from the longer prefix. */
  lemma LeftSpace(n: Node, slot: nat, sep: Key, newPid: PID)
    requires WF(n) && SplitPoint(n, slot, sep)
    ensures var l := SplitLeft(n, slot, sep, newPid);
            Free(l) == Free(n) + |n.upper| - |sep| + EntryBytes(n, |l.keys|) + |l.keys| * (Prefix(l) - Prefix(n))
  {
    hide Sorted, Covers, Prefix;
    var l := SplitLeft(n, slot, sep, newPid);
    var m := |l.keys|;
    TotalLenSplit(n.keys, m);
    TotalLenSplit(n.pays, m);
    LeftArithmetic(|n.keys|, m, Prefix(n), Prefix(l), |n.lower|, |n.upper|, |sep|,
        TotalLen(n.keys[..m]) + TotalLen(n.pays[..m]),
                   TotalLen(n.keys[m..]) + TotalLen(n.pays[m..]));
  }

  /** free space of a node and of its left half, and the bytes of what leaves it */
  lemma LeftArithmetic(c: nat, m: nat, p: nat, q: nat, lower: nat, upper: nat, sep: nat, stay: nat, leave: nat)
    requires m <= c
    ensures PAGE_SIZE - HEADER_SIZE - SLOT_SIZE * m - (lower + sep + stay - m * q)
         == (PAGE_SIZE - HEADER_SIZE - SLOT_SIZE * c - (lower + upper + stay + leave - c * p))
            + upper - sep + (leave + (c - m) * (SLOT_SIZE - p)) + m * (q - p)
  {
    Regroup(c, m, p, q);
  }

  lemma Regroup(c: nat, m: nat, p: nat, q: nat)
    requires m <= c
    ensures c * p == (c - m) * p + m * p
    ensures m * (q - p) == m * q - m * p
    ensures (c - m) * (SLOT_SIZE - p) == SLOT_SIZE * (c - m) - (c - m) * p
  {}

  lemma RightSpace(n: Node, slot: nat, sep: Key)
    requires WF(n) && SplitPoint(n, slot, sep)
    ensures var r, m := SplitRight(n, slot, sep), slot + 1;
            Free(r) == Free(n) + |n.lower| - |sep| + (EntryBytes(n, 0) - EntryBytes(n, m))
                + |r.keys| * (Prefix(r) - Prefix(n))
  {
    hide Sorted, Covers, Prefix, TotalLen;
    var r, m := SplitRight(n, slot, sep), slot + 1;
    TotalLenSplit(n.keys, m);
    TotalLenSplit(n.pays, m);
    assert n.keys[0..] == n.keys && n.pays[0..] == n.pays;
    RightArithmetic(|n.keys|, m, Prefix(n), Prefix(r), |n.lower|, |n.upper|, |sep|,
                    TotalLen(n.keys[..m]) + TotalLen(n.pays[..m]), TotalLen(n.keys[m..]) + TotalLen(n.pays[m..]));
  }

  lemma RightArithmetic(c: nat, m: nat, p: nat, q: nat, lower: nat, upper: nat, sep: nat, leave: nat, stay: nat)
    requires m <= c
    ensures PAGE_SIZE - HEADER_SIZE - SLOT_SIZE * (c - m) - (sep + upper + stay - (c - m) * q)
         == (PAGE_SIZE - HEADER_SIZE - SLOT_SIZE * c - (lower + upper + leave + stay - c * p))
            + lower - sep + (leave + stay + c * (SLOT_SIZE - p) - (stay + (c - m) * (SLOT_SIZE - p)))
                + (c - m) * (q - p)
  {
    Regroup(c, m, p, p);
    Regroup(c, 0, p, p);
    Regroup(c - m, c - m, p, q);
  }

  /** One entry alone accounts for at least its slot and its remainder. */
  lemma EntryBytesAtLeast(n: Node, from: nat, i: nat)
    requires WF(n) && from <= i < |n.keys|
    ensures EntryBytes(n, from) >= SLOT_SIZE + |n.keys[i]| - Prefix(n) + |n.pays[i]|
    ensures EntryBytes(n, from) - EntryBytes(n, i + 1) >= SLOT_SIZE + |n.keys[i]| - Prefix(n) + |n.pays[i]|
    decreases i - from
  {
    EntryBytesStep(n, from);
    EntryBytesNonNegative(n, i + 1);
    if from < i {
      EntryBytesAtLeast(n, from + 1, i);
    }
  }

  lemma EntryBytesStep(n: Node, from: nat)
    requires WF(n) && from < |n.keys|
    ensures EntryBytes(n, from) == EntryBytes(n, from + 1) + SLOT_SIZE + |n.keys[from]| - Prefix(n) + |n.pays[from]|
    ensures Prefix(n) <= |n.keys[from]|
  {
    assert n.keys[from..][1..] == n.keys[from + 1..] && n.pays[from..][1..] == n.pays[from + 1..];
    assert (|n.keys| - from) * (SLOT_SIZE - Prefix(n))
        == (|n.keys| - from - 1) * (SLOT_SIZE - Prefix(n)) + (SLOT_SIZE - Prefix(n));
    KeysSharePrefix(n);
  }

  lemma {:induction false} EntryBytesNonNegative(n: Node, from: nat)
    requires WF(n) && from <= |n.keys|
    ensures EntryBytes(n, from) >= 0
    decreases |n.keys| - from
  {
    if from < |n.keys| {
      EntryBytesStep(n, from);
      EntryBytesNonNegative(n, from + 1);
    } else {
      assert n.keys[from..] == [] && n.pays[from..] == [];
    }
  }

  lemma ProductNonNegative(a: nat, b: nat)
    ensures a * b >= 0
  {}

  /** A half that takes a separator no longer than a key which stays out of it fits. */
  lemma RightFitsAt(n: Node, slot: nat, sep: Key)
    requires WF(n) && Free(n) >= 0 && SplitPoint(n, slot, sep)
    requires |sep| <= |n.keys[slot]|
    ensures Free(SplitRight(n, slot, sep)) >= 0
  {
    hide EntryBytes, Rank, Sorted, Covers, TotalLen;
    var r := SplitRight(n, slot, sep);
    CoveredSharesPrefix(n, n.keys[slot]);
    SplitPrefixesGrow(n, slot, sep, 0);
    RightSpace(n, slot, sep);
    EntryBytesAtLeast(n, 0, slot);
    ProductNonNegative(|r.keys|, Prefix(r) - Prefix(n));
  }

  lemma PrefixAtMost(n: Node)
    ensures Prefix(n) <= |n.lower| && Prefix(n) <= |n.upper|
  {}

  lemma LeftFitsAt(n: Node, slot: nat, sep: Key, newPid: PID)
    requires WF(n) && Free(n) >= 0 && SplitPoint(n, slot, sep)
    requires |sep| <= |n.keys[if n.isLeaf then slot + 1 else slot]|
    ensures Free(SplitLeft(n, slot, sep, newPid)) >= 0
  {
    hide EntryBytes, Rank, Sorted, Covers, TotalLen, Free, Prefix;
    var l := SplitLeft(n, slot, sep, newPid);
    var m := if n.isLeaf then slot + 1 else slot;
    assert |l.keys| == m;
    PrefixAtMost(n);
    SplitPrefixesGrow(n, slot, sep, newPid);
    LeftSpace(n, slot, sep, newPid);
    EntryBytesAtLeast(n, m, m);
    ProductNonNegative(m, Prefix(l) - Prefix(n));
    assert Free(l) >= Free(n) + |n.upper| - Prefix(n);
  }

  /** The right half of any split fits. */
  lemma RightFits(n: Node, ordered: bool)
    requires WF(n) && Free(n) >= 0 && |n.keys| > 1
    requires n.isLeaf ==> |n.keys| > 2
    ensures Free(SplitRight(n, FindSeparator(n, ordered).slot, Separator(n, ordered))) >= 0
  {
    SeparatorIsSplitPoint(n, ordered);
    RightFitsAt(n, FindSeparator(n, ordered).slot, Separator(n, ordered));
  }

  /** An inner node's left half always fits: the separator leaves as a key before it
      comes back as a fence. */
  lemma InnerLeftFits(n: Node, ordered: bool, newPid: PID)
    requires WF(n) && Free(n) >= 0 && |n.keys| > 1 && !n.isLeaf
    ensures Free(SplitLeft(n, FindSeparator(n, ordered).slot, Separator(n, ordered), newPid)) >= 0
  {
    SeparatorIsSplitPoint(n, ordered);
    LeftFitsAt(n, FindSeparator(n, ordered).slot, Separator(n, ordered), newPid);
  }

  /** What the left half of a leaf has to pay for: the new fence beyond the old one,
      less one longer prefix per key it keeps. */
  function FenceCost(n: Node, slot: nat, sep: Key): int {
    |sep| - |n.upper| - (slot + 1) * (Common(n.lower, sep) - Prefix(n))
  }

  /** The left half of a leaf does not always fit. It does exactly if the fence is paid
      for by the free space and the entries that leave ... */
  lemma LeafLeftFitsIff(n: Node, ordered: bool, newPid: PID)
    requires WF(n) && |n.keys| > 2 && n.isLeaf
    ensures var s, sep := FindSeparator(n, ordered).slot, Separator(n, ordered);
            Free(SplitLeft(n, s, sep, newPid)) >= 0 <==> FenceCost(n, s, sep) <= Free(n) + EntryBytes(n, s + 1)
  {
    SeparatorIsSplitPoint(n, ordered);
    LeftSpace(n, FindSeparator(n, ordered).slot, Separator(n, ordered), newPid);
  }

  /** ... which can only go wrong in one situation: the next key ends one byte past the
      part it shares with the key at the split point, and is shorter than that key. */
  ghost predicate ShortNextKey(n: Node, slot: nat)
    requires slot + 1 < |n.keys|
  {
    EndsEarly(n.keys[slot], n.keys[slot + 1])
  }

  /** b ends one byte past what it shares with a, and a goes on. */
  predicate EndsEarly(a: Key, b: Key) { Common(a, b) + 1 == |b| < |a| }

  lemma LeafLeftFits(n: Node, ordered: bool, newPid: PID)
    requires WF(n) && Free(n) >= 0 && |n.keys| > 2 && n.isLeaf
    requires !ShortNextKey(n, FindSeparator(n, ordered).slot)
    ensures Free(SplitLeft(n, FindSeparator(n, ordered).slot, Separator(n, ordered), newPid)) >= 0
  {
    var s, sep := FindSeparator(n, ordered).slot, Separator(n, ordered);
    SeparatorIsSplitPoint(n, ordered);
    var a, b := n.keys[s], n.keys[s + 1];
    assert Less(a, b);
    if Common(a, b) == |b| {
      assert b <= a;
      if b != a { ProperPrefixLess(b, a); }
    }
    LeftFitsAt(n, s, sep, newPid);
  }

  /** No key of the set ends early after a smaller one: what a caller can look at before the calls. */
  ghost predicate Harmless(ks: set<Key>) { forall a, b | a in ks && b in ks && Less(a, b) :: !EndsEarly(a, b) }

  lemma HarmlessHasNoShortNextKey(n: Node, slot: nat, ks: set<Key>)
    requires WF(n) && slot + 1 < |n.keys| && Harmless(ks) && n.keys[slot] in ks && n.keys[slot + 1] in ks
    ensures !ShortNextKey(n, slot)
  {
    assert Less(n.keys[slot], n.keys[slot + 1]);
  }

  /** Keys of one length are harmless, ... */
  lemma EqualLengthsAreHarmless(ks: set<Key>, len: nat)
    requires forall k | k in ks :: |k| == len
    ensures Harmless(ks)
  {}

  /** ... and so are strings of any lengths that are stored with a closing zero byte. */
  lemma TerminatedKeysAreHarmless(ks: set<Key>)
    requires forall k | k in ks :: k != [] && k[|k| - 1] == 0
    ensures Harmless(ks)
  {
    forall a, b | a in ks && b in ks && Less(a, b) ensures !EndsEarly(a, b) {
      var c := Common(a, b);
      if c + 1 == |b| < |a| { FirstDifference(b, a, c); }
    }
  }

  function Repeat(b: byte, len: nat): (k: Key)
    ensures |k| == len
  {
    seq(len, _ => b)
  }

  /** Four keys of 792 bytes and a one-byte key: in sequential-insert mode the fourth
      key is copied into the upper fence of the left half, which cannot hold it. */
  function OverflowingLeaf(): Node {
    Node(true, [], [], [Repeat(1, 792), Repeat(2, 792), Repeat(3, 792), Repeat(4, 792), Repeat(5, 1)],
         [[], [], [], [], []], NO_NEIGHBOUR)
  }

  lemma OverflowingLeafKeys()
    ensures WF(OverflowingLeaf())
    ensures Common(OverflowingLeaf().keys[3], OverflowingLeaf().keys[4]) == 0
  {
    var n := OverflowingLeaf();
    forall i, j | 0 <= i < j < 5 ensures Less(n.keys[i], n.keys[j]) {
      FirstDifference(n.keys[i], n.keys[j], 0);
    }
    CommonUnique(n.keys[3], n.keys[4], 0);
  }

  lemma OverflowingLeafLengths()
    ensures TotalLen(OverflowingLeaf().keys) == 3169
    ensures TotalLen(OverflowingLeaf().keys[..4]) == 3168
    ensures TotalLen(OverflowingLeaf().pays) == 0
    ensures TotalLen(OverflowingLeaf().pays[..4]) == 0
  {
    var n := OverflowingLeaf();
    TotalLenAtMost(n.keys[..4], 792);
    TotalLenAtLeast(n.keys[..4], 792);
    TotalLenSplit(n.keys, 4);
    assert n.keys[4..] == [n.keys[4]];
    TotalLenAtMost(n.pays, 0);
    TotalLenAtMost(n.pays[..4], 0);
  }

  /** A full, legal leaf whose split overflows its left half although no key and payload
      together exceed 792 bytes. */
  lemma LeftHalfCanOverflow()
    ensures var n := OverflowingLeaf();
            && WF(n) && Free(n) >= 0 && !HasSpaceFor(n, 792, 0)
            && ShortNextKey(n, FindSeparator(n, true).slot)
            && Free(SplitLeft(n, FindSeparator(n, true).slot, Separator(n, true), 7)) < 0
  {
    var n := OverflowingLeaf();
    OverflowingLeafKeys();
    OverflowingLeafLengths();
    assert FindSeparator(n, true) == SeparatorInfo(792, 3, false);
    assert Separator(n, true) == n.keys[3];
    assert n.keys[..3 + 1] == n.keys[..4] && n.pays[..3 + 1] == n.pays[..4];
  }

  // ---------------------------------------------------------------- the parent of a split

  function SetChild(n: Node, i: nat, pid: PID): Node
    requires |n.keys| == |n.pays| && i <= |n.keys|
  {
    if i == |n.keys| then n.(ext := pid) else n.(pays := n.pays[i := EncodePid(pid)])
  }

  /** The slot that led to the node now leads to the new right half; a new slot before
      it, keyed by the separator, leads to the left half. */
  function SplitParent(par: Node, sep: Key, leftPid: PID, newPid: PID): Node
    requires |par.keys| == |par.pays|
  {
    Insert(SetChild(par, LowerBound(par.keys, sep), newPid), sep, EncodePid(leftPid))
  }

  ghost predicate StrictlyInside(k: Key, lower: Key, upper: Key) {
    Less(lower, k) && (upper == [] || Less(k, upper))
  }

  lemma SeparatorSlot(par: Node, i: nat, sep: Key)
    requires WF(par) && !par.isLeaf && i <= |par.keys|
    requires StrictlyInside(sep, SlotLower(par, i), SlotUpper(par, i))
    ensures LowerBound(par.keys, sep) == i
    ensures FitsBetween(par.keys, i, sep)
    ensures sep !in par.keys && sep != []
    ensures StrictlyInside(sep, par.lower, par.upper)
  {
    forall j | 0 <= j < i ensures Less(par.keys[j], sep) {
      if j < i - 1 { assert Less(par.keys[j], par.keys[i - 1]); }
    }
    forall j | i <= j < |par.keys| ensures Less(sep, par.keys[j]) {
      if i < j { assert Less(par.keys[i], par.keys[j]); }
    }
    LowerBoundUnique(par.keys, sep, i);
    if i > 0 { assert Covers(par, par.keys[i - 1]); }
    if i < |par.keys| { assert Covers(par, par.keys[i]); }
  }

  lemma SetChildKeepsWF(n: Node, i: nat, pid: PID)
    requires WF(n) && !n.isLeaf && i <= |n.keys|
    ensures WF(SetChild(n, i, pid))
    ensures forall j | 0 <= j <= |n.keys| :: Child(SetChild(n, i, pid), j) == if j == i then pid else Child(n, j)
  {}

  ghost predicate SplitKids(par: Node, q: Node, i: nat, leftPid: PID, newPid: PID)
    requires WF(par) && !par.isLeaf && WF(q) && !q.isLeaf && |q.keys| == |par.keys| + 1 && i <= |par.keys|
  {
    forall j {:trigger Child(q, j)} | 0 <= j <= |q.keys| ::
      Child(q, j) == if j < i then Child(par, j) else if j == i then leftPid
                     else if j == i + 1 then newPid else Child(par, j - 1)
  }

  lemma SplitParentShape(par: Node, i: nat, sep: Key, leftPid: PID, newPid: PID)
    requires WF(par) && !par.isLeaf && i <= |par.keys|
    requires StrictlyInside(sep, SlotLower(par, i), SlotUpper(par, i))
    ensures var q := SplitParent(par, sep, leftPid, newPid);
            && WF(q) && |q.keys| == |par.keys| + 1
            && q == par.(keys := q.keys, pays := q.pays, ext := q.ext)
            && (forall j {:trigger q.keys[j]} | 0 <= j < |q.keys| ::
                q.keys[j] == if j < i then par.keys[j] else if j == i then sep else par.keys[j - 1])
            && SplitKids(par, q, i, leftPid, newPid)
  {
    hide Rank, DecodePid, Common, LexLess, FitsBetween, LowerBound;
    SeparatorSlot(par, i, sep);
    SetChildKeepsWF(par, i, newPid);
    InsertKeepsWF(SetChild(par, i, newPid), sep, EncodePid(leftPid));
    InsertedKids(SetChild(par, i, newPid), i, sep, leftPid);
  }

  lemma InsertedKids(r: Node, i: nat, sep: Key, leftPid: PID)
    requires WF(r) && !r.isLeaf && i <= |r.keys| && WF(InsertAt(r, i, sep, EncodePid(leftPid)))
    ensures var q := InsertAt(r, i, sep, EncodePid(leftPid));
            forall j {:trigger Child(q, j)} | 0 <= j <= |q.keys| ::
              Child(q, j) == if j < i then Child(r, j) else if j == i then leftPid else Child(r, j - 1)
  {}

  lemma SplitParentSpace(par: Node, sep: Key, leftPid: PID, newPid: PID)
    requires WF(par) && !par.isLeaf
    ensures Free(SplitParent(par, sep, leftPid, newPid)) == Free(par) - SpaceNeeded(par, |sep|, PID_SIZE)
  {
    var i := LowerBound(par.keys, sep);
    SetChildSpace(par, i, newPid);
    InsertSpace(SetChild(par, i, newPid), i, sep, EncodePid(leftPid));
  }

  lemma SetChildSpace(n: Node, i: nat, pid: PID)
    requires WF(n) && !n.isLeaf && i <= |n.keys|
    ensures Free(SetChild(n, i, pid)) == Free(n)
  {
    if i < |n.pays| {
      TotalLenSplit(n.pays, i);
      TotalLenSplit(SetChild(n, i, pid).pays, i);
      assert SetChild(n, i, pid).pays[..i] == n.pays[..i];
      assert SetChild(n, i, pid).pays[i..][1..] == n.pays[i..][1..];
    }
  }

  // ---------------------------------------------------------------- merging leaves

  /** The left leaf takes over the right leaf's entries, upper fence and neighbour. */
  function Merged(l: Node, r: Node): Node {
    Node(true, l.lower, r.upper, l.keys + r.keys, l.pays + r.pays, r.ext)
  }

  /** mergeNodes' estimate of the page space that the merged leaf needs. */
  function MergeBound(l: Node, r: Node): int {
    var p := Common(l.lower, r.upper);
    SpaceUsed(l) + SpaceUsed(r) + HEADER_SIZE + SLOT_SIZE * (|l.keys| + |r.keys|)
    + (Prefix(l) - p) * |l.keys| + (Prefix(r) - p) * |r.keys|
  }

  ghost predicate Adjacent(l: Node, r: Node) {
    WF(l) && WF(r) && l.isLeaf && r.isLeaf && l.upper != [] && l.upper == r.lower
  }

  lemma MergedWF(l: Node, r: Node)
    requires Adjacent(l, r)
    ensures WF(Merged(l, r))
  {
    var m := Merged(l, r);
    forall i | 0 <= i < |m.keys|
      ensures Covers(m, m.keys[i])
      ensures if i < |l.keys| then AtMost(m.keys[i], l.upper) else Less(l.upper, m.keys[i])
    {
      if i < |l.keys| {
        assert Covers(l, l.keys[i]);
      } else {
        assert Covers(r, r.keys[i - |l.keys|]);
      }
    }
    assert Sorted(m.keys) by {
      forall i, j | 0 <= i < j < |m.keys| ensures Less(m.keys[i], m.keys[j]) {
        if j < |l.keys| { assert Less(l.keys[i], l.keys[j]); }
        else if i >= |l.keys| { assert Less(r.keys[i - |l.keys|], r.keys[j - |l.keys|]); }
      }
    }
  }

  /** When the estimate passes, the merged page really fits, although the common prefix
      may shrink and every stored key may grow: the estimate still counts the inner fence twice. */
  lemma MergeFits(l: Node, r: Node)
    requires Adjacent(l, r)
    ensures Free(Merged(l, r)) == PAGE_SIZE - MergeBound(l, r) + 2 * |l.upper|
    ensures MergeBound(l, r) <= PAGE_SIZE ==> Free(Merged(l, r)) >= 0
    ensures Prefix(Merged(l, r)) <= Prefix(l) && Prefix(Merged(l, r)) <= Prefix(r)
  {
    hide Rank, Common, TotalLen, Sorted, Covers;
    var p := Common(l.lower, r.upper);
    if l.lower != [] && r.upper != [] {
      NestedPrefix(l.lower, l.upper, r.upper);
    }
    TotalLenConcat(l.keys, r.keys);
    TotalLenConcat(l.pays, r.pays);
    CommonOfNothing(l.lower, r.upper);
    MergeArithmetic(|l.keys|, |r.keys|, p, Prefix(l), Prefix(r));
  }

  lemma CommonOfNothing(a: Bytes, b: Bytes)
    ensures a == [] || b == [] ==> Common(a, b) == 0
  {}

  lemma MergeArithmetic(a: nat, b: nat, p: nat, q: nat, r: nat)
    ensures (a + b) * p == a * p + b * p
    ensures (q - p) * a == a * q - a * p
    ensures (r - p) * b == b * r - b * p
  {}

  /** The parent's slot for the right leaf is redirected to the merged one, and the slot
      of the left leaf, with the separator between them, is dropped. */
  function MergedParent(par: Node, pos: nat, leftPid: PID): Node
    requires |par.keys| == |par.pays| && pos + 1 <= |par.keys|
  {
    RemoveAt(SetChild(par, pos + 1, leftPid), pos)
  }

  ghost predicate MergedKids(par: Node, q: Node, pos: nat, leftPid: PID)
    requires WF(par) && !par.isLeaf && WF(q) && !q.isLeaf && |q.keys| + 1 == |par.keys|
  {
    forall j {:trigger Child(q, j)} | 0 <= j <= |q.keys| ::
      Child(q, j) == if j < pos then Child(par, j) else if j == pos then leftPid else Child(par, j + 1)
  }

  lemma MergedParentShape(par: Node, pos: nat, leftPid: PID)
    requires WF(par) && !par.isLeaf && pos + 1 <= |par.keys|
    ensures var q := MergedParent(par, pos, leftPid);
            && WF(q) && |q.keys| == |par.keys| - 1
            && q == par.(keys := q.keys, pays := q.pays, ext := q.ext)
            && (forall j {:trigger q.keys[j]} | 0 <= j < |q.keys| ::
                q.keys[j] == par.keys[if j < pos then j else j + 1])
            && MergedKids(par, q, pos, leftPid)
  {
    SetChildKeepsWF(par, pos + 1, leftPid);
    var r, q := SetChild(par, pos + 1, leftPid), MergedParent(par, pos, leftPid);
    RemoveKeepsWF(r, pos);
    forall j {:trigger Child(q, j)} | 0 <= j <= |q.keys|
      ensures Child(q, j) == if j < pos then Child(par, j) else if j == pos then leftPid else Child(par, j + 1)
    {
      assert Child(q, j) == Child(r, if j < pos then j else j + 1);
    }
  }
}
