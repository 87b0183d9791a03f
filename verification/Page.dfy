/** The slotted page itself, changed in place. `slot` and `heap` are two views of the same
    bytes in the source; here they are two arrays, and `Layout` keeps the parts in use apart. */
module Pages {
  import opened Lex
  import opened Nodes
  import opened Splitting
  import opened PageImage

  // ---------------------------------------------------------------- searching

  lemma PartsDecide(a: Bytes, b: Bytes)
    ensures var m := if |a| < |b| then |a| else |b|;
            var c := MemCmp(a[..m], b[..m]);
            && (Less(a, b) <==> c < 0 || (c == 0 && |a| < |b|))
            && (Less(b, a) <==> c > 0 || (c == 0 && |b| < |a|))
            && (a == b <==> c == 0 && |a| == |b|)
  {
    var m := if |a| < |b| then |a| else |b|;
    var c := Common(a[..m], b[..m]);
    if c < m {
      FirstDifference(a[..m], b[..m], c);
      assert a[..c] == a[..m][..c] && b[..c] == b[..m][..c];
      FirstDifference(a, b, c);
    } else if |a| == m {
      assert a == b[..m];
      if a != b { ProperPrefixLess(a, b); }
    } else {
      assert b == a[..m];
      ProperPrefixLess(b, a);
    }
  }

  /** Everything below lo is smaller than the key, everything from hi on is not. */
  ghost predicate Narrowed(rests: seq<Bytes>, key: Bytes, lo: int, hi: int) {
    && 0 <= lo <= hi <= |rests|
    && (forall i | 0 <= i < lo :: Less(rests[i], key))
    && (forall i | hi <= i < |rests| :: Less(key, rests[i]))
  }

  lemma NarrowUp(rests: seq<Bytes>, key: Bytes, lo: int, hi: int, mid: int)
    requires Sorted(rests) && Narrowed(rests, key, lo, hi) && lo <= mid < hi && Less(rests[mid], key)
    ensures Narrowed(rests, key, mid + 1, hi)
  {}

  lemma NarrowDown(rests: seq<Bytes>, key: Bytes, lo: int, hi: int, mid: int)
    requires Sorted(rests) && Narrowed(rests, key, lo, hi) && lo <= mid < hi && Less(key, rests[mid])
    ensures Narrowed(rests, key, lo, mid)
  {}

  /** The remainders behind the common prefix are sorted like the full keys, and finding the
      remainder of a key among them is finding the key. */
  lemma RestsSorted(prefix: Bytes, rests: seq<Bytes>, keys: seq<Key>)
    requires |keys| == |rests| && forall i | 0 <= i < |keys| :: keys[i] == prefix + rests[i]
    requires Sorted(keys)
    ensures Sorted(rests)
  {
    forall i, j | 0 <= i < j < |rests| ensures Less(rests[i], rests[j]) {
      assert Less(keys[i], keys[j]);
      PrefixCancels(prefix, rests[i], rests[j]);
    }
  }

  lemma NarrowedIsLowerBound(prefix: Bytes, rests: seq<Bytes>, keys: seq<Key>, key: Bytes, lo: nat)
    requires |keys| == |rests| && forall i | 0 <= i < |keys| :: keys[i] == prefix + rests[i]
    requires Sorted(keys) && Narrowed(rests, key, lo, lo)
    ensures Nodes.LowerBound(keys, prefix + key) == lo
    ensures lo < |keys| ==> keys[lo] != prefix + key
  {
    forall i | 0 <= i < |keys| ensures i < lo ==> Less(keys[i], prefix + key)
      ensures lo <= i ==> Less(prefix + key, keys[i])
    {
      PrefixCancels(prefix, rests[i], key);
      PrefixCancels(prefix, key, rests[i]);
    }
    LowerBoundUnique(keys, prefix + key, lo);
  }

  lemma ExactIsLowerBound(keys: seq<Key>, key: Key, i: nat)
    requires Sorted(keys) && i < |keys| && keys[i] == key
    ensures Nodes.LowerBound(keys, key) == i
  {
    LowerBoundUnique(keys, key, i);
  }

  /** A key that differs from the prefix, or is a proper piece of it, lies on one side of all keys. */
  lemma BesidePrefix(prefix: Bytes, keys: seq<Key>, key: Key)
    requires forall i | 0 <= i < |keys| :: prefix <= keys[i]
    requires Sorted(keys)
    ensures var m := if |key| < |prefix| then |key| else |prefix|;
            var c := MemCmp(key[..m], prefix[..m]);
            && (c < 0 || (c == 0 && |key| < |prefix|) ==>
                  Nodes.LowerBound(keys, key) == 0 && (keys != [] ==> keys[0] != key))
            && (c > 0 ==> Nodes.LowerBound(keys, key) == |keys|)
  {
    var m := if |key| < |prefix| then |key| else |prefix|;
    var c := MemCmp(key[..m], prefix[..m]);
    var d := Common(key[..m], prefix[..m]);
    forall i | 0 <= i < |keys|
      ensures c < 0 || (c == 0 && |key| < |prefix|) ==> Less(key, keys[i])
      ensures c > 0 ==> Less(keys[i], key)
    {
      var k := keys[i];
      if d < m {
        FirstDifference(key[..m], prefix[..m], d);
        assert key[..d] == key[..m][..d] == prefix[..m][..d] == prefix[..d] == k[..d];
        FirstDifference(key, k, d);
        FirstDifference(k, key, d);
      } else if |key| < |prefix| {
        assert key == key[..m] == prefix[..m] == k[..m];
        ProperPrefixLess(key, k);
      }
    }
    if c < 0 || (c == 0 && |key| < |prefix|) { LowerBoundUnique(keys, key, 0); }
    if c > 0 { LowerBoundUnique(keys, key, |keys|); }
  }

  /** Hint i is the head found i+1 strides into the slots; pages with few slots do not use hints. */
  ghost predicate HintsOk(hint: seq<nat>, slots: seq<Slot>, count: nat)
    requires |hint| == HINTS && |slots| == MAX_SLOTS && count <= MAX_SLOTS
  {
    count > 2 * HINTS ==> HintsExact(hint, slots, count)
  }

  ghost predicate HintsExact(hint: seq<nat>, slots: seq<Slot>, count: nat)
    requires |hint| == HINTS && |slots| == MAX_SLOTS && count <= MAX_SLOTS
  {
    forall i | 0 <= i < HINTS :: hint[i] == slots[Stride(count, i)].head
  }

  function Stride(count: nat, i: nat): (r: nat)
    requires count <= MAX_SLOTS && i < HINTS
    ensures r < MAX_SLOTS && (count > 0 ==> r < count)
  {
    StrideBound(count / (HINTS + 1), i + 1, HINTS);
    count / (HINTS + 1) * (i + 1)
  }

  lemma StrideBound(d: nat, a: nat, b: nat)
    requires a <= b
    ensures d * a <= d * b
  {}

  lemma ProductBelow(d: nat, a: nat, b: nat)
    requires a < b
    ensures d * a + d <= d * b
  {
    StrideBound(d, a + 1, b);
    assert d * (a + 1) == d * a + d;
  }

  lemma DivideDown(d: nat, s: nat)
    requires d > 0
    ensures d * (s / d) <= s
  {}

  /** The hints that updateHint skips point below the slot that was inserted. */
  lemma SkippedHintBelow(count: nat, slotId: nat, i: nat)
    requires 2 * HINTS + 1 < count <= MAX_SLOTS && i < HINTS && i + 1 < slotId / (count / (HINTS + 1))
    ensures Stride(count, i) < slotId
  {
    var d := count / (HINTS + 1);
    DivideDown(d, slotId);
    ProductBelow(d, i + 1, slotId / d);
  }

  ghost predicate HintHeads(hint: seq<nat>, rests: seq<Bytes>) {
    && 2 * HINTS < |rests| <= MAX_SLOTS && |hint| == HINTS
    && (forall i | 0 <= i < HINTS :: hint[i] == Head(rests[Stride(|rests|, i)]))
  }

  /** Where hint i points; position -1 is before the first slot, HINTS behind the last. */
  function HintSlot(count: nat, i: int): (r: nat)
    requires count <= MAX_SLOTS && -1 <= i <= HINTS
    ensures r <= count
  {
    if i < 0 then 0 else if i == HINTS then count else if count == 0 then 0 else Stride(count, i)
  }

  lemma HintSlotIs(count: nat, i: int)
    requires 0 < count <= MAX_SLOTS && -1 <= i <= HINTS
    ensures i < HINTS ==> HintSlot(count, i) == (i + 1) * (count / (HINTS + 1))
  {
    Commute(count / (HINTS + 1), i + 1);
  }

  lemma Commute(a: nat, b: nat)
    ensures a * b == b * a
  {}

  /** What lies below a hint that is too small need not be searched, */
  lemma LowHint(hint: seq<nat>, rests: seq<Bytes>, key: Bytes, i: int)
    requires HintHeads(hint, rests) && Sorted(rests) && -1 <= i < HINTS && (i >= 0 ==> hint[i] < Head(key))
    ensures Narrowed(rests, key, HintSlot(|rests|, i), |rests|)
  {
    if i >= 0 {
      var s := Stride(|rests|, i);
      HeadOrder(rests[s], key);
      NarrowUp(rests, key, 0, |rests|, s);
    }
  }

  /** nor what lies above one that is too large. */
  lemma HighHint(hint: seq<nat>, rests: seq<Bytes>, key: Bytes, i: int)
    requires HintHeads(hint, rests) && Sorted(rests) && 0 <= i <= HINTS && (i < HINTS ==> Head(key) < hint[i])
    ensures Narrowed(rests, key, 0, HintSlot(|rests|, i))
  {
    if i < HINTS {
      var s := Stride(|rests|, i);
      HeadOrder(key, rests[s]);
      NarrowDown(rests, key, 0, |rests|, s);
    }
  }

  lemma HintsSorted(hint: seq<nat>, rests: seq<Bytes>, i: nat, j: nat)
    requires HintHeads(hint, rests) && Sorted(rests) && i <= j < HINTS
    ensures hint[i] <= hint[j]
    ensures Stride(|rests|, i) <= Stride(|rests|, j)
  {
    var a, b := Stride(|rests|, i), Stride(|rests|, j);
    StrideBound(|rests| / (HINTS + 1), i + 1, j + 1);
    assert a < b ==> Less(rests[a], rests[b]);
    HeadOrder(rests[a], rests[b]);
  }

  lemma BothEnds(rests: seq<Bytes>, key: Bytes, lo: nat, hi: nat)
    requires Narrowed(rests, key, lo, |rests|) && Narrowed(rests, key, 0, hi) && lo <= hi
    ensures Narrowed(rests, key, lo, hi)
  {}

  lemma HintsAreHeads(g: Image, hint: seq<nat>, rests: seq<Bytes>)
    requires Layout(g, g.count) && |rests| == g.count && g.count > 2 * HINTS && |hint| == HINTS
    requires forall j | 0 <= j < g.count :: rests[j] == Rest(g, g.slots[j])
    requires HintsExact(hint, g.slots, g.count)
    ensures HintHeads(hint, rests)
  {}

  /** pos is the first hint not below the key's head, pos2 the first from there on that differs. */
  lemma HintRange(hint: seq<nat>, rests: seq<Bytes>, key: Bytes, pos: nat, pos2: nat)
    requires HintHeads(hint, rests) && Sorted(rests) && pos <= pos2 <= HINTS
    requires pos > 0 ==> hint[pos - 1] < Head(key)
    requires pos < HINTS ==> Head(key) <= hint[pos]
    requires pos2 < HINTS ==> hint[pos2] != Head(key)
    ensures Narrowed(rests, key, HintSlot(|rests|, pos - 1), HintSlot(|rests|, pos2))
  {
    if pos2 < HINTS { HintsSorted(hint, rests, pos, pos2); }
    if 0 < pos && pos2 < HINTS { HintsSorted(hint, rests, pos - 1, pos2); }
    LowHint(hint, rests, key, pos - 1);
    HighHint(hint, rests, key, pos2);
    BothEnds(rests, key, HintSlot(|rests|, pos - 1), HintSlot(|rests|, pos2));
  }

  /** Comparing the key with the page's prefix decides the search unless the key has that prefix. */
  lemma PrefixDecides(g: Image, skey: Key)
    requires Shape(g, g.count) && Sorted(Meaning(g, g.count).keys)
    ensures var keys := Meaning(g, g.count).keys;
            var m := if |skey| < g.prefixLen then |skey| else g.prefixLen;
            var c := MemCmp(skey[..m], KeyPrefix(g)[..m]);
            && (c < 0 || (c == 0 && |skey| < g.prefixLen) ==>
                  Nodes.LowerBound(keys, skey) == 0 && (g.count > 0 ==> keys[0] != skey))
            && (c > 0 ==> Nodes.LowerBound(keys, skey) == g.count)
            && (c == 0 && |skey| >= g.prefixLen ==> skey == KeyPrefix(g) + skey[g.prefixLen..])
  {
    BesidePrefix(KeyPrefix(g), Meaning(g, g.count).keys, skey);
    PrefixStripped(KeyPrefix(g), skey);
  }

  lemma PrefixStripped(prefix: Bytes, key: Bytes)
    ensures |key| >= |prefix| && MemCmp(key[..|prefix|], prefix[..|prefix|]) == 0 ==> key == prefix + key[|prefix|..]
  {
    assert prefix[..|prefix|] == prefix;
    assert |key| >= |prefix| ==> key == key[..|prefix|] + key[|prefix|..];
  }

  // ---------------------------------------------------------------- copying

  lemma SliceOfSlice(h: seq<byte>, o: nat, len: nat, p: nat, m: nat)
    requires o + len <= |h| && m <= p <= len
    ensures h[o..o + m] == h[o..o + len][..p][..m]
  {
    assert h[o..o + len][..p] == h[o..o + p];
  }

  /** A legal page without holes whose first n slots store m. */
  ghost predicate Holds(g: Image, n: nat, m: Node) { Layout(g, n) && Meaning(g, n) == m && Compact(g) }

  lemma TakesEntry(g: Image, n: nat, m: Node, k: Key, pay: Bytes)
    requires Holds(g, n, m) && SharesPrefix(m, k) && HasSpaceFor(m, |k|, |pay|)
    ensures |g.slots| == MAX_SLOTS && |g.heap| == PAGE_SIZE && g.prefixLen == Prefix(m)
    ensures g.prefixLen <= |k| && n < MAX_SLOTS && |k| - g.prefixLen + |pay| <= g.dataOffset <= PAGE_SIZE
    ensures n == |m.keys| == |m.pays|
    ensures Holds(Put(g, n, k[g.prefixLen..], pay), n + 1, InsertAt(m, n, k, pay))
  {
    PutAppends(g, n, k, pay);
  }

  lemma SlicesAt(h: seq<byte>, o: nat, keyLen: nat, payLen: nat, diff: nat)
    requires o + keyLen + payLen <= |h| && diff <= keyLen
    ensures h[o + diff..o + keyLen + payLen][..keyLen - diff] == h[o..o + keyLen][diff..]
    ensures h[o + diff..o + keyLen + payLen][keyLen - diff..] == h[o + keyLen..o + keyLen + payLen]
  {}

  /** The entries from..i of the page src stand behind those of m; those up to end will fit, too. */
  ghost predicate Copying(src: Image, g: Image, at: nat, m: Node, from: nat, i: nat, end: nat) {
    && Shape(src, src.count) && from <= i <= end <= src.count && |m.keys| == |m.pays| && at == |m.keys| + i - from
    && var n := Meaning(src, src.count);
       && Holds(g, at, Extended(m, n, from, i)) && Free(Extended(m, n, from, end)) >= 0
       && (forall j | from <= j < end :: SharesPrefix(m, n.keys[j]))
  }

  function FullKeyOf(src: Image, i: nat): (k: Key)
    requires |src.slots| == MAX_SLOTS && i < MAX_SLOTS && SlotInHeap(src, src.slots[i])
    requires InHeap(src, src.lower.offset, src.lower.len) && src.prefixLen <= src.lower.len
    ensures |k| == src.prefixLen + src.slots[i].keyLen
  {
    KeyPrefix(src) + Rest(src, src.slots[i])
  }

  /** Slot i of src can be copied as it stands. */
  predicate Copyable(src: Image, i: nat, g: Image, at: nat) {
    && |src.slots| == MAX_SLOTS && i < MAX_SLOTS && SlotInHeap(src, src.slots[i])
    && InHeap(src, src.lower.offset, src.lower.len) && src.prefixLen <= src.lower.len
    && at < MAX_SLOTS && |g.slots| == MAX_SLOTS && |g.heap| == PAGE_SIZE
    && g.prefixLen <= src.prefixLen + src.slots[i].keyLen
    && src.prefixLen + src.slots[i].keyLen - g.prefixLen + src.slots[i].payLen <= g.dataOffset <= PAGE_SIZE
  }

  function Copied(src: Image, i: nat, g: Image, at: nat): Image
    requires Copyable(src, i, g, at)
  {
    Put(g, at, FullKeyOf(src, i)[g.prefixLen..], Payload(src, src.slots[i]))
  }

  lemma CopyStep(src: Image, i: nat, g: Image, at: nat, m: Node, from: nat, end: nat)
    requires Copying(src, g, at, m, from, i, end) && i < end
    ensures Copyable(src, i, g, at)
    ensures Copying(src, Copied(src, i, g, at), at + 1, m, from, i + 1, end)
  {
    hide Holds, HasSpaceFor, Free;
    var n := Meaning(src, src.count);
    var e := Extended(m, n, from, i);
    assert SlotInHeap(src, src.slots[i]);
    assert n.keys[i] == FullKeyOf(src, i) && n.pays[i] == Payload(src, src.slots[i]);
    assert SharesPrefix(m, n.keys[i]) && SharesPrefix(e, n.keys[i]);
    ExtendRoom(m, n, from, i, end);
    TakesEntry(g, at, e, n.keys[i], n.pays[i]);
    ExtendOne(m, n, from, i);
  }

  /** The page g after n entries of src, from slot `from` on, have been copied to slot `at` and up. */
  ghost function CopiedRange(src: Image, g: Image, at: nat, from: nat, n: nat): Image {
    if n == 0 then g else
      var h := CopiedRange(src, g, at, from, n - 1);
      if Copyable(src, from + n - 1, h, at + n - 1) then Copied(src, from + n - 1, h, at + n - 1) else h
  }

  ghost predicate CanCopyRange(src: Image, g: Image, at: nat, from: nat, n: nat) {
    forall i | 0 <= i < n :: Copyable(src, from + i, CopiedRange(src, g, at, from, i), at + i)
  }

  /** If the entries fit and start with the other page's prefix, they can all be copied, and
      the other page stores them behind its own. */
  lemma {:induction false} CopyRange(src: Image, g: Image, at: nat, m: Node, from: nat, i: nat, end: nat)
    requires Copying(src, g, at, m, from, from, end) && i <= end - from
    ensures Copying(src, CopiedRange(src, g, at, from, i), at + i, m, from, from + i, end)
    ensures CanCopyRange(src, g, at, from, i)
  {
    hide Copying, Copyable, CopiedRange, CanCopyRange;
    if i > 0 {
      CopyRange(src, g, at, m, from, i - 1, end);
      CopyOneMore(src, g, at, m, from, i - 1, end);
      CanCopyOneMore(src, g, at, from, i - 1);
    } else {
      CopyNone(src, g, at, from);
    }
  }

  lemma CopyNone(src: Image, g: Image, at: nat, from: nat)
    ensures CopiedRange(src, g, at, from, 0) == g && CanCopyRange(src, g, at, from, 0)
  {}

  lemma CopyOneMore(src: Image, g: Image, at: nat, m: Node, from: nat, i: nat, end: nat)
    requires Copying(src, CopiedRange(src, g, at, from, i), at + i, m, from, from + i, end) && from + i < end
    ensures Copyable(src, from + i, CopiedRange(src, g, at, from, i), at + i)
    ensures Copying(src, CopiedRange(src, g, at, from, i + 1), at + i + 1, m, from, from + i + 1, end)
  {
    hide Copying, Copyable, Copied;
    CopyStep(src, from + i, CopiedRange(src, g, at, from, i), at + i, m, from, end);
  }

  lemma CanCopyOneMore(src: Image, g: Image, at: nat, from: nat, n: nat)
    requires CanCopyRange(src, g, at, from, n) && Copyable(src, from + n, CopiedRange(src, g, at, from, n), at + n)
    ensures CanCopyRange(src, g, at, from, n + 1)
  {
    hide Copyable, CopiedRange;
    forall i | 0 <= i < n + 1 ensures Copyable(src, from + i, CopiedRange(src, g, at, from, i), at + i) {}
  }

  /** A new page gets fences and the entries from..end of another page. */
  lemma FilledFrom(src: Image, g: Image, lower: Key, upper: Key, from: nat, end: nat)
    requires Shape(src, src.count) && from <= end <= src.count
    requires |g.heap| == PAGE_SIZE && |g.slots| == MAX_SLOTS && |lower| + |upper| <= PAGE_SIZE - HEADER_SIZE
    requires var m, n := Node(g.isLeaf, lower, upper, [], [], g.ext), Meaning(src, src.count);
             && Free(Extended(m, n, from, end)) >= 0
             && (forall j | from <= j < end :: SharesPrefix(m, n.keys[j]))
    ensures var m, n, f := Node(g.isLeaf, lower, upper, [], [], g.ext), Meaning(src, src.count),
            Fenced(g, lower, upper);
            && CanCopyRange(src, f, 0, from, end - from)
            && Holds(CopiedRange(src, f, 0, from, end - from), end - from, Extended(m, n, from, end))
  {
    hide Holds, Fenced, Free, CanCopyRange, CopiedRange;
    var m, f := Node(g.isLeaf, lower, upper, [], [], g.ext), Fenced(g, lower, upper);
    FencedHolds(g, lower, upper);
    assert Extended(m, Meaning(src, src.count), from, from) == m;
    CopyRange(src, f, 0, m, from, end - from, end);
  }

  lemma FencedHolds(g: Image, lower: Key, upper: Key)
    requires |g.heap| == PAGE_SIZE && |g.slots| == MAX_SLOTS && |lower| + |upper| <= PAGE_SIZE - HEADER_SIZE
    ensures Holds(Fenced(g, lower, upper), 0, Node(g.isLeaf, lower, upper, [], [], g.ext))
  {
    hide Fenced, Layout;
    FencedKeeps(g, lower, upper);
  }

  /** Fences of a node that fits leave room for the header. */
  lemma FencesFit(m: Node)
    requires |m.keys| == |m.pays| && Free(m) >= 0 && forall j | 0 <= j < |m.keys| :: SharesPrefix(m, m.keys[j])
    ensures |m.lower| + |m.upper| <= PAGE_SIZE - HEADER_SIZE
  {
    TotalLenAtLeast(m.keys, Prefix(m));
  }

  lemma KeysShareOwnPrefix(g: Image, n: nat)
    requires Layout(g, n)
    ensures forall j | 0 <= j < n :: SharesPrefix(Meaning(g, n), Meaning(g, n).keys[j])
    ensures Free(Meaning(g, n)) >= 0
  {
    var m := Meaning(g, n);
    forall j | 0 <= j < n ensures SharesPrefix(m, m.keys[j]) {
      assert m.keys[j] == KeyPrefix(g) + Rest(g, g.slots[j]);
    }
  }

  /** What is left of a full key behind a longer prefix is what is left of the remainder. */
  lemma CopiedShortened(src: Image, i: nat, g: Image, at: nat, bytes: Bytes)
    requires Copyable(src, i, g, at) && src.prefixLen <= g.prefixLen && |src.heap| == PAGE_SIZE
    requires var s := src.slots[i];
             bytes == src.heap[s.offset + (g.prefixLen - src.prefixLen)..s.offset + s.keyLen + s.payLen]
    ensures var n := src.slots[i].keyLen - (g.prefixLen - src.prefixLen);
            Copied(src, i, g, at) == Put(g, at, bytes[..n], bytes[n..])
  {
    hide Put;
    var s, diff := src.slots[i], g.prefixLen - src.prefixLen;
    SlicesAt(src.heap, s.offset, s.keyLen, s.payLen, diff);
    DropBehindPrefix(KeyPrefix(src), Rest(src, s), diff);
    assert |KeyPrefix(src)| + diff == g.prefixLen;
  }

  lemma DropBehindPrefix(p: Bytes, r: Bytes, d: nat)
    requires d <= |r|
    ensures (p + r)[|p| + d..] == r[d..]
  {}

  /** What compactify writes: the page's own fences and entries on a new page g. */
  lemma CompactKeeps(src: Image, g: Image)
    requires Layout(src, src.count) && |g.heap| == PAGE_SIZE && |g.slots| == MAX_SLOTS && g.isLeaf == src.isLeaf
    ensures Shape(src, src.count) && src.count <= MAX_SLOTS
            && |LowerKey(src)| + |UpperKey(src)| <= PAGE_SIZE - HEADER_SIZE
    ensures CanCopyRange(src, Fenced(g, LowerKey(src), UpperKey(src)), 0, 0, src.count)
    ensures var h := CopiedRange(src, Fenced(g, LowerKey(src), UpperKey(src)), 0, 0, src.count).(count := src.count,
            ext := src.ext);
            Layout(h, src.count) && Compact(h) && Meaning(h, src.count) == Meaning(src, src.count)
                && h.prefixLen == src.prefixLen
  {
    hide Layout, Fenced, Free, CopiedRange, Disjoint, HeadsOk, Common, Rank, CanCopyRange;
    HasShape(src, src.count);
    var n := Meaning(src, src.count);
    var m := Node(g.isLeaf, n.lower, n.upper, [], [], g.ext);
    KeysShareOwnPrefix(src, src.count);
    FencesFit(n);
    assert Extended(m, n, 0, src.count) == n.(ext := g.ext);
    ExtIsFree(n, g.ext);
    FilledFrom(src, g, n.lower, n.upper, 0, src.count);
    var h := CopiedRange(src, Fenced(g, n.lower, n.upper), 0, 0, src.count);
    HeaderIsFree(h, h.(count := src.count, ext := src.ext), src.count);
    PrefixIsCommon(src, src.count);
    PrefixIsCommon(h, src.count);
  }

  lemma PrefixIsCommon(g: Image, n: nat)
    requires Layout(g, n)
    ensures Shape(g, n) && g.prefixLen == Common(Meaning(g, n).lower, Meaning(g, n).upper)
  {}

  lemma ExtIsFree(n: Node, ext: PID)
    requires |n.keys| == |n.pays|
    ensures Free(n.(ext := ext)) == Free(n)
  {}

  // ---------------------------------------------------------------- what a page can hold

  /** A page with the fences of n and no entry. */
  lemma BlankPage(n: Node) returns (g: Image)
    requires WF(n) && Free(n) >= 0
    ensures Holds(g, 0, n.(keys := [], pays := []))
  {
    hide Layout, Free, Fenced, WFInner, Rank;
    CoveredKeysShare(n, n.keys);
    FencesFit(n);
    var blank := Image(n.isLeaf, n.ext, FenceSlot(0, 0), FenceSlot(0, 0), 0, 0, PAGE_SIZE, 0,
                       seq(MAX_SLOTS, _ => Slot(0, 0, 0, 0)), seq(PAGE_SIZE, _ => 0));
    g := Fenced(blank, n.lower, n.upper);
    FencedHolds(blank, n.lower, n.upper);
  }

  /** A page with the first k entries of n. */
  lemma {:induction false} FillPage(n: Node, k: nat) returns (g: Image)
    requires WF(n) && Free(n) >= 0 && k <= |n.keys|
    ensures Holds(g, k, Extended(n.(keys := [], pays := []), n, 0, k))
  {
    hide Layout, Free, Fenced, WFInner, Put, Rank;
    var m := n.(keys := [], pays := []);
    CoveredKeysShare(n, n.keys);
    if k == 0 {
      g := BlankPage(n);
      assert Extended(m, n, 0, 0) == m;
    } else {
      var h := FillPage(n, k - 1);
      var e := Extended(m, n, 0, k - 1);
      assert Extended(m, n, 0, |n.keys|) == n;
      assert SharesPrefix(n, n.keys[k - 1]) && SharesPrefix(e, n.keys[k - 1]);
      ExtendRoom(m, n, 0, k - 1, |n.keys|);
      TakesEntry(h, k - 1, e, n.keys[k - 1], n.pays[k - 1]);
      g := Put(h, k - 1, n.keys[k - 1][h.prefixLen..], n.pays[k - 1]);
      ExtendOne(m, n, 0, k - 1);
    }
  }

  /** A node can be stored in a page exactly if its accounts do not go below zero: the byte
      count that the tree works with is neither too strict nor too generous. */
  lemma FitsPageIff(n: Node)
    requires WF(n)
    ensures Free(n) >= 0 <==> exists g :: IsImageOf(g, n)
  {
    hide Layout, Free, Rank, WF;
    if Free(n) >= 0 {
      WholeNode(n);
      var g := FillPage(n, |n.keys|);
      HeaderIsFree(g, g.(count := |n.keys|, ext := n.ext), |n.keys|);
      assert IsImageOf(g.(count := |n.keys|, ext := n.ext), n);
    }
    if exists g :: IsImageOf(g, n) {
      var g :| IsImageOf(g, n);
      KeysShareOwnPrefix(g, g.count);
    }
  }

  lemma WholeNode(n: Node)
    requires WF(n)
    ensures |n.keys| == |n.pays| && Extended(n.(keys := [], pays := []), n, 0, |n.keys|) == n
  {}

  // ---------------------------------------------------------------- merging

  lemma CoveredKeysShare(m: Node, keys: seq<Key>)
    requires forall j | 0 <= j < |keys| :: Covers(m, keys[j])
    ensures forall j | 0 <= j < |keys| :: SharesPrefix(m, keys[j])
  {
    forall j | 0 <= j < |keys| ensures SharesPrefix(m, keys[j]) { CoveredSharesPrefix(m, keys[j]); }
  }

  /** The page's own figures, in terms of what it stores. */
  lemma Figures(g: Image)
    requires Layout(g, g.count)
    ensures var n := Meaning(g, g.count);
            && g.spaceUsed == SpaceUsed(n) && g.prefixLen == Prefix(n) && g.count == |n.keys| == |n.pays| <= MAX_SLOTS
            && n.lower == LowerKey(g) && n.upper == UpperKey(g) && n.isLeaf == g.isLeaf && n.ext == g.ext
  {}

  lemma {:induction false} FillingUp(m: Node, n: Node, from: nat, to: nat, end: nat)
    requires |n.keys| == |n.pays| && from <= to <= end <= |n.keys| && |m.keys| == |m.pays|
    requires forall i | from <= i < end :: Prefix(m) <= |n.keys[i]|
    ensures Free(Extended(m, n, from, end)) <= Free(Extended(m, n, from, to))
    decreases end - to
  {
    if to < end {
      ExtendOne(m, n, from, to);
      InsertSpace(Extended(m, n, from, to), |m.keys| + to - from, n.keys[to], n.pays[to]);
      FillingUp(m, n, from, to + 1, end);
    }
  }

  ghost predicate IsImageOf(g: Image, n: Node) { Layout(g, g.count) && Meaning(g, g.count) == n }

  lemma MergedFits(l: Node, r: Node, ext: PID)
    requires Adjacent(l, r) && MergeBound(l, r) <= PAGE_SIZE && |l.keys| == |l.pays| && |r.keys| == |r.pays|
    ensures var m := Node(true, l.lower, r.upper, [], [], ext);
            var e := Extended(m, l, 0, |l.keys|);
            && (forall j | 0 <= j < |l.keys| :: SharesPrefix(m, l.keys[j]))
            && (forall j | 0 <= j < |r.keys| :: SharesPrefix(e, r.keys[j]))
            && Free(e) >= 0 && Free(Extended(e, r, 0, |r.keys|)) >= 0
            && Extended(e, r, 0, |r.keys|) == Merged(l, r).(ext := ext)
  {
    var m := Node(true, l.lower, r.upper, [], [], ext);
    hide Adjacent, MergeBound, Free, Sorted, InRange, Common;
    var e, all := Extended(m, l, 0, |l.keys|), Merged(l, r);
    MergedWF(l, r);
    MergeFits(l, r);
    forall j | 0 <= j < |l.keys| ensures SharesPrefix(m, l.keys[j]) {
      assert all.keys[j] == l.keys[j] && Covers(all, all.keys[j]);
      CoveredSharesPrefix(all, l.keys[j]);
    }
    forall j | 0 <= j < |r.keys| ensures SharesPrefix(e, r.keys[j]) {
      assert all.keys[|l.keys| + j] == r.keys[j] && Covers(all, all.keys[|l.keys| + j]);
      CoveredSharesPrefix(all, r.keys[j]);
    }
    assert l.keys[0..|l.keys|] == l.keys && l.pays[0..|l.pays|] == l.pays && r.keys[0..|r.keys|] == r.keys
        && r.pays[0..|r.pays|] == r.pays;
    assert Extended(e, r, 0, |r.keys|) == all.(ext := ext);
    ExtIsFree(all, ext);
    FillingUp(e, r, 0, 0, |r.keys|);
    assert Extended(e, r, 0, 0) == e;
  }

  /** What mergeNodes writes on a new page: the left entries, then the right ones. */
  lemma MergedImage(l: Image, r: Image, g: Image)
    requires Layout(l, l.count) && Layout(r, r.count) && |g.heap| == PAGE_SIZE && |g.slots| == MAX_SLOTS && g.isLeaf
    requires Adjacent(Meaning(l, l.count), Meaning(r, r.count))
    requires MergeBound(Meaning(l, l.count), Meaning(r, r.count)) <= PAGE_SIZE
    requires |LowerKey(l)| + |UpperKey(r)| <= PAGE_SIZE - HEADER_SIZE
    ensures CanCopyRange(l, Fenced(g, LowerKey(l), UpperKey(r)), 0, 0, l.count)
    ensures var h := CopiedRange(l, Fenced(g, LowerKey(l), UpperKey(r)), 0, 0, l.count).(count := l.count);
            && CanCopyRange(r, h, l.count, 0, r.count)
            && IsImageOf(CopiedRange(r, h, l.count, 0, r.count).(count := l.count + r.count, ext := r.ext),
                         Merged(Meaning(l, l.count), Meaning(r, r.count)))
  {
    hide Layout, Fenced, CopiedRange, CanCopyRange, Adjacent, MergeBound, Free, Merged, Holds, SharesPrefix, Extended,
         IsImageOf;
    Figures(l);
    Figures(r);
    HasShape(l, l.count);
    HasShape(r, r.count);
    var ln, rn := Meaning(l, l.count), Meaning(r, r.count);
    var m := Node(g.isLeaf, ln.lower, rn.upper, [], [], g.ext);
    MergedFits(ln, rn, g.ext);
    FilledFrom(l, g, ln.lower, rn.upper, 0, l.count);
    var c := CopiedRange(l, Fenced(g, ln.lower, rn.upper), 0, 0, l.count);
    var e := Extended(m, ln, 0, l.count);
    HoldsCounted(c, c.(count := l.count), l.count, e);
    MergedExt(ln, rn, g.ext, r.ext);
    assert Extended(e, rn, 0, r.count).(ext := r.ext) == Merged(ln, rn);
    ExtendedBy(r, c.(count := l.count), l.count, e, r.count, l.count + r.count, r.ext);
  }

  lemma HoldsCounted(g: Image, g': Image, n: nat, m: Node)
    requires Holds(g, n, m) && g' == g.(count := g'.count)
    ensures Holds(g', n, m) && |m.keys| == |m.pays| == n
  {
    HeaderIsFree(g, g', n);
  }

  /** All entries of src go behind those of the page g, which then gets a new count and extra page id. */
  lemma ExtendedBy(src: Image, g: Image, at: nat, m: Node, end: nat, count: nat, ext: PID)
    requires Shape(src, src.count) && end <= src.count && Holds(g, at, m) && at == |m.keys| == |m.pays|
             && count == at + end
    requires Free(Extended(m, Meaning(src, src.count), 0, end)) >= 0
    requires forall j | 0 <= j < end :: SharesPrefix(m, Meaning(src, src.count).keys[j])
    ensures CanCopyRange(src, g, at, 0, end)
    ensures IsImageOf(CopiedRange(src, g, at, 0, end).(count := count, ext := ext),
                      Extended(m, Meaning(src, src.count), 0, end).(ext := ext))
  {
    hide Layout, CopiedRange, CanCopyRange, Free, SharesPrefix;
    assert Extended(m, Meaning(src, src.count), 0, 0) == m;
    CopyRange(src, g, at, m, 0, end, end);
    var d := CopiedRange(src, g, at, 0, end);
    HeaderIsFree(d, d.(count := count, ext := ext), count);
  }

  lemma MergedExt(l: Node, r: Node, e1: PID, e2: PID)
    requires e2 == r.ext
    ensures Merged(l, r).(ext := e1).(ext := e2) == Merged(l, r)
  {}

  /** mergeNodes computes its estimate from the two pages' figures. */
  lemma MergeFigures(l: Image, r: Image)
    requires Layout(l, l.count) && Layout(r, r.count)
    ensures Shape(l, l.count) && Shape(r, r.count)
    ensures MergeBound(Meaning(l, l.count), Meaning(r, r.count))
         == l.spaceUsed + r.spaceUsed + HEADER_SIZE + SLOT_SIZE * (l.count + r.count)
            + (l.prefixLen - Common(LowerKey(l), UpperKey(r))) * l.count
                + (r.prefixLen - Common(LowerKey(l), UpperKey(r))) * r.count
  {
    hide SpaceUsed, Layout, Common, Meaning;
    HasShape(l, l.count);
    HasShape(r, r.count);
    Figures(l);
    Figures(r);
  }

  lemma MergeSizes(l: Image, r: Image)
    requires Layout(l, l.count) && Layout(r, r.count)
    ensures Shape(l, l.count) && Shape(r, r.count) && l.count <= MAX_SLOTS
    ensures Meaning(l, l.count).lower == LowerKey(l) && Meaning(r, r.count).upper == UpperKey(r)
  {}

  lemma ImageLimits(g: Image, n: Node)
    requires IsImageOf(g, n)
    ensures Layout(g, g.count) && g.count <= MAX_SLOTS && Meaning(g, g.count) == n
  {}

  lemma MergePrefix(g: Image, lower: Key, upper: Key)
    requires |g.heap| == PAGE_SIZE && |lower| + |upper| <= PAGE_SIZE
    ensures Fenced(g, lower, upper).prefixLen == Common(lower, upper)
  {}

  // ---------------------------------------------------------------- splitting

  /** A new page g gets fences and some entries of src, a count and an extra page id. */
  lemma HalfImage(src: Image, g: Image, lower: Key, upper: Key, from: nat, end: nat, ext: PID, half: Node)
    requires Shape(src, src.count) && from <= end <= src.count && |g.heap| == PAGE_SIZE && |g.slots| == MAX_SLOTS
    requires half == Extended(Node(g.isLeaf, lower, upper, [], [], ext), Meaning(src, src.count), from, end)
    requires Free(half) >= 0 && WF(half)
    ensures |lower| + |upper| <= PAGE_SIZE - HEADER_SIZE
    ensures CanCopyRange(src, Fenced(g, lower, upper), 0, from, end - from)
    ensures IsImageOf(CopiedRange(src, Fenced(g, lower, upper), 0, from, end - from).(count := end - from, ext := ext),
            half)
  {
    hide Layout, Fenced, CopiedRange, CanCopyRange, Free, WFInner, Sorted, Meaning;
    MeaningSize(src);
    var n := Meaning(src, src.count);
    var m := Node(g.isLeaf, lower, upper, [], [], g.ext);
    CoveredKeysShare(half, half.keys);
    FencesFit(half);
    assert Extended(m, n, from, end) == half.(ext := g.ext);
    ExtIsFree(half, g.ext);
    forall j | from <= j < end ensures SharesPrefix(m, n.keys[j]) { assert half.keys[j - from] == n.keys[j]; }
    FilledFrom(src, g, lower, upper, from, end);
    var c := CopiedRange(src, Fenced(g, lower, upper), 0, from, end - from);
    HeaderIsFree(c, c.(count := end - from, ext := ext), end - from);
  }

  lemma MeaningSize(g: Image)
    requires Shape(g, g.count)
    ensures |Meaning(g, g.count).keys| == |Meaning(g, g.count).pays| == g.count
  {}

  function LeftCount(n: Node, slot: nat): nat { if n.isLeaf then slot + 1 else slot }

  lemma HalvesAreRanges(n: Node, slot: nat, sep: Key, newPid: PID)
    requires WF(n) && SplitPoint(n, slot, sep)
    ensures var l, r := SplitLeft(n, slot, sep, newPid), SplitRight(n, slot, sep);
            && l == Extended(Node(n.isLeaf, n.lower, sep, [], [], l.ext), n, 0, LeftCount(n, slot))
            && r == Extended(Node(n.isLeaf, sep, n.upper, [], [], n.ext), n, slot + 1, |n.keys|)
  {
    var m := LeftCount(n, slot);
    assert n.keys[0..m] == n.keys[..m] && n.pays[0..m] == n.pays[..m];
    assert n.keys[slot + 1..|n.keys|] == n.keys[slot + 1..] && n.pays[slot + 1..|n.keys|] == n.pays[slot + 1..];
  }

  /** f is the new page g with fences and nothing else. */
  ghost predicate Blank(f: Image, g: Image, isLeaf: bool, lower: Key, upper: Key) {
    && |g.heap| == PAGE_SIZE && |g.slots| == MAX_SLOTS && |lower| + |upper| <= PAGE_SIZE
    && g.isLeaf == isLeaf && f.count == 0 && f == Fenced(g, lower, upper)
  }

  /** Both halves, as the ranges of entries that splitNode copies. */
  lemma SplitHalves(n: Node, slot: nat, sep: Key, newPid: PID)
    requires CanHalve(n, slot, sep, newPid)
    ensures slot < |n.keys| == |n.pays| && (!n.isLeaf ==> |n.pays[slot]| == PID_SIZE)
    ensures var l, r := SplitLeft(n, slot, sep, newPid), SplitRight(n, slot, sep);
            && l == Extended(Node(n.isLeaf, n.lower, sep, [], [], l.ext), n, 0, LeftCount(n, slot))
            && r == Extended(Node(n.isLeaf, sep, n.upper, [], [], n.ext), n, slot + 1, |n.keys|)
            && l.ext == (if n.isLeaf then newPid else Child(n, slot)) && r.ext == n.ext
            && Free(l) >= 0 && WF(l) && Free(r) >= 0 && WF(r)
  {
    hide Free, Extended, Rank;
    SplitKeepsWF(n, slot, sep, newPid);
    HalvesAreRanges(n, slot, sep, newPid);
  }

  /** n can be split at the slot, and both halves fit a page. */
  ghost predicate CanHalve(n: Node, slot: nat, sep: Key, newPid: PID) {
    && WF(n) && SplitPoint(n, slot, sep)
    && Free(SplitLeft(n, slot, sep, newPid)) >= 0 && Free(SplitRight(n, slot, sep)) >= 0
  }

  lemma HalvesFences(n: Node, slot: nat, sep: Key, newPid: PID)
    requires CanHalve(n, slot, sep, newPid)
    ensures slot < |n.keys| == |n.pays| && (!n.isLeaf ==> |n.pays[slot]| == PID_SIZE)
    ensures |n.lower| + |sep| <= PAGE_SIZE - HEADER_SIZE && |sep| + |n.upper| <= PAGE_SIZE - HEADER_SIZE
  {
    hide Free, Sorted, Less, AtMost;
    var l, r := SplitLeft(n, slot, sep, newPid), SplitRight(n, slot, sep);
    SplitKeepsWF(n, slot, sep, newPid);
    CoveredKeysShare(l, l.keys);
    CoveredKeysShare(r, r.keys);
    FencesFit(l);
    FencesFit(r);
  }

  lemma SpaceForSame(a: Node, b: Node, keyLen: nat, payLen: nat)
    requires HasSpaceFor(a, keyLen, payLen) && Free(a) == Free(b) && a.lower == b.lower && a.upper == b.upper
    ensures HasSpaceFor(b, keyLen, payLen)
  {}

  lemma KeyIsFullKey(g: Image, i: nat)
    requires Shape(g, g.count) && i < g.count
    ensures SlotInHeap(g, g.slots[i]) && InHeap(g, g.lower.offset, g.lower.len) && g.prefixLen <= g.lower.len
            && i < MAX_SLOTS
    ensures Meaning(g, g.count).keys[i] == KeyPrefix(g) + Rest(g, g.slots[i])
  {}

  lemma SharedBehindPrefix(p: Bytes, a: Bytes, b: Bytes)
    ensures Common(p + a, p + b) == |p| + Common(a, b)
  {
    var c := Common(a, b);
    assert (p + a)[..|p| + c] == p + a[..c] && (p + b)[..|p| + c] == p + b[..c];
    CommonUnique(p + a, p + b, |p| + c);
  }

  /** Comparing stored remainders is comparing full keys without the prefix. */
  lemma RestBytes(g: Image, s: Slot)
    requires SlotInHeap(g, s)
    ensures forall j | 0 <= j < s.keyLen :: Rest(g, s)[j] == g.heap[s.offset + j]
  {}

  lemma OneMoreShared(a: Bytes, b: Bytes, i: nat)
    requires i < |a| && i < |b| && a[..i] == b[..i] && a[i] == b[i]
    ensures a[..i + 1] == b[..i + 1]
  {
    assert a[..i + 1] == a[..i] + [a[i]] && b[..i + 1] == b[..i] + [b[i]];
  }

  lemma SharedRests(g: Image, a: nat, b: nat)
    requires Layout(g, g.count) && a < g.count && b < g.count
    ensures SlotInHeap(g, g.slots[a]) && SlotInHeap(g, g.slots[b])
    ensures Common(Meaning(g, g.count).keys[a], Meaning(g, g.count).keys[b])
            == g.prefixLen + Common(Rest(g, g.slots[a]), Rest(g, g.slots[b]))
    ensures CommonSuffix(Meaning(g, g.count), a, b) == Common(Rest(g, g.slots[a]), Rest(g, g.slots[b]))
    ensures |Meaning(g, g.count).keys[a]| == g.prefixLen + g.slots[a].keyLen
            && |Meaning(g, g.count).keys[b]| == g.prefixLen + g.slots[b].keyLen
  {
    hide Disjoint, HeadsOk, SpaceUsed, Common;
    SharedBehindPrefix(KeyPrefix(g), Rest(g, g.slots[a]), Rest(g, g.slots[b]));
  }

  // ---------------------------------------------------------------- inserting

  /** The page's own figures tell whether an entry fits, and whether it fits as things lie. */
  lemma Room(g: Image, key: Key, pay: Bytes)
    requires Layout(g, g.count) && SharesPrefix(Meaning(g, g.count), key)
    ensures g.prefixLen == Prefix(Meaning(g, g.count)) <= |key|
    ensures g.count == |Meaning(g, g.count).keys| == |Meaning(g, g.count).pays| <= MAX_SLOTS
    ensures g.dataOffset <= PAGE_SIZE && g.spaceUsed >= 0
    ensures Compact(g) && HasSpaceFor(Meaning(g, g.count), |key|, |pay|) ==>
              SLOT_SIZE + (|key| - g.prefixLen) + |pay| <= g.dataOffset - HEADER_SIZE - SLOT_SIZE * g.count
  {
    UsedNonNegative(g, g.count);
  }

  lemma PayloadLength(g: Image, i: nat)
    requires Shape(g, g.count) && i < g.count
    ensures |Meaning(g, g.count).pays[i]| == g.slots[i].payLen
  {}

  lemma InsertedInSteps(g: Image, at: nat, key: Key, pay: Bytes)
    requires |g.slots| == MAX_SLOTS && at <= g.count < MAX_SLOTS && g.prefixLen <= |key|
    requires |key| - g.prefixLen + |pay| <= g.dataOffset <= |g.heap|
    ensures InsertedImage(g, at, key, pay)
         == Put(g.(slots := ShiftUp(g.slots, at, g.count)), at, key[g.prefixLen..], pay).(count := g.count + 1)
  {}

  lemma InsertedSlots(g: Image, at: nat, key: Key, pay: Bytes)
    requires |g.slots| == MAX_SLOTS && at <= g.count < MAX_SLOTS && g.prefixLen <= |key|
    requires |key| - g.prefixLen + |pay| <= g.dataOffset <= |g.heap|
    ensures var g' := InsertedImage(g, at, key, pay);
            |g'.slots| == MAX_SLOTS && g'.count == g.count + 1 && forall i | 0 <= i < at :: g'.slots[i] == g.slots[i]
  {}

  // ---------------------------------------------------------------- the page object

  class BTreeNode {
    var isLeaf: bool
    /** upperInnerNode of an inner node, nextLeafNode of a leaf */
    var ext: PID
    var lowerFence: FenceSlot
    var upperFence: FenceSlot
    var count: nat
    var spaceUsed: int
    var dataOffset: int
    var prefixLen: nat
    const hint: array<nat>
    const slot: array<Slot>
    /** the page's bytes by page offset */
    const heap: array<byte>

    ghost predicate Arrays() {
      && hint.Length == HINTS && slot.Length == MAX_SLOTS && heap.Length == PAGE_SIZE
      && hint as object != heap as object && slot as object != heap as object && slot as object != hint as object
    }

    ghost function Img(): Image
      reads this, slot, heap
    {
      Image(isLeaf, ext, lowerFence, upperFence, count, spaceUsed, dataOffset, prefixLen, slot[..], heap[..])
    }

    ghost predicate Legal()
      reads this, slot, heap
    {
      Arrays() && Layout(Img(), count)
    }

    ghost predicate Valid()
      reads this, slot, heap, hint
    {
      Legal() && HintsOk(hint[..], slot[..], count)
    }

    ghost function Content(): Node
      requires Legal()
      reads this, slot, heap
    {
      Meaning(Img(), count)
    }

    lemma Sizes()
      requires Legal()
      ensures Shape(Img(), count) && |Content().keys| == |Content().pays| == count
      ensures Content().isLeaf == isLeaf && Content().ext == ext && Content().lower == LowerKey(Img())
              && Content().upper == UpperKey(Img())
    {}

    ghost function Repr(): set<object> { {this, hint, slot, heap} }

    constructor (isLeaf: bool)
      ensures Arrays() && fresh(Repr())
      ensures this.isLeaf == isLeaf && count == 0 && spaceUsed == 0 && dataOffset == PAGE_SIZE && prefixLen == 0
      ensures lowerFence == FenceSlot(0, 0) && upperFence == FenceSlot(0, 0)
    {
      this.isLeaf := isLeaf;
      ext := NO_NEIGHBOUR;
      lowerFence, upperFence := FenceSlot(0, 0), FenceSlot(0, 0);
      count, spaceUsed, dataOffset, prefixLen := 0, 0, PAGE_SIZE, 0;
      hint := new nat[HINTS](_ => 0);
      slot := new Slot[MAX_SLOTS](_ => Slot(0, 0, 0, 0));
      heap := new byte[PAGE_SIZE](_ => 0);
    }

    // -------------------------------------------------------------- hints

    method MakeHint()
      requires Arrays() && count <= MAX_SLOTS
      modifies hint
      ensures HintsExact(hint[..], slot[..], count) && HintsOk(hint[..], slot[..], count)
    {
      var dist := count / (HINTS + 1);
      for i := 0 to HINTS
        invariant forall j | 0 <= j < i :: hint[j] == slot[Stride(count, j)].head
      {
        assert Stride(count, i) == dist * (i + 1);
        hint[i] := slot[dist * (i + 1)].head;
      }
    }

    /** After an insertion at slotId only the hints from some point on are recomputed; the
        result is the same as recomputing all of them. */
    method UpdateHint(slotId: nat, ghost before: seq<Slot>)
      requires Arrays() && slotId < count <= MAX_SLOTS && |before| == MAX_SLOTS
      requires HintsOk(hint[..], before, count - 1)
      requires forall i | 0 <= i < slotId :: slot[i] == before[i]
      modifies hint
      ensures HintsExact(hint[..], slot[..], count) && HintsOk(hint[..], slot[..], count)
    {
      var dist := count / (HINTS + 1);
      var begin := 0;
      if count > HINTS * 2 + 1 && (count - 1) / (HINTS + 1) == dist && slotId / dist > 1 {
        begin := slotId / dist - 1;
        forall i | 0 <= i < HINTS && i < begin ensures hint[i] == slot[Stride(count, i)].head {
          SkippedHintBelow(count, slotId, i);
          assert Stride(count, i) == Stride(count - 1, i);
          assert hint[..][i] == before[Stride(count - 1, i)].head;
        }
      }
      var i := begin;
      while i < HINTS
        invariant begin <= i
        invariant forall j | 0 <= j < i && j < HINTS :: hint[j] == slot[Stride(count, j)].head
      {
        assert Stride(count, i) == dist * (i + 1);
        hint[i] := slot[dist * (i + 1)].head;
        i := i + 1;
      }
    }

    /** What is stored of the keys. */
    ghost function Rests(): (r: seq<Bytes>)
      requires Legal()
      reads this, slot, heap
      ensures |r| == count
    {
      var g, n := Img(), count;
      seq(n, i requires 0 <= i < n => Rest(g, g.slots[i]))
    }

    lemma RestsAreRemainders()
      requires Legal() && Sorted(Content().keys)
      ensures Remainders(Rests())
      ensures forall i | 0 <= i < count :: Content().keys[i] == KeyPrefix(Img()) + Rests()[i]
    {
      RestsSorted(KeyPrefix(Img()), Rests(), Content().keys);
    }

    ghost predicate Remainders(rests: seq<Bytes>)
      requires Legal()
      reads this, slot, heap
    {
      |rests| == count && (forall i | 0 <= i < count :: rests[i] == Rest(Img(), slot[i])) && Sorted(rests)
    }

    /** Narrows the search range without losing the key. */
    method SearchHint(keyHead: nat, ghost key: Bytes, ghost rests: seq<Bytes>) returns (lower: nat, upper: nat)
      requires hint.Length == HINTS && count <= MAX_SLOTS && |rests| == count && Sorted(rests)
      requires count > 2 * HINTS ==> HintHeads(hint[..], rests)
      requires keyHead == Head(key)
      ensures Narrowed(rests, key, lower, upper)
    {
      lower, upper := 0, count;
      if count > HINTS * 2 {
        var dist := upper / (HINTS + 1);
        var pos := 0;
        while pos < HINTS && hint[pos] < keyHead
          invariant 0 <= pos <= HINTS
          invariant pos > 0 ==> hint[pos - 1] < keyHead
        {
          pos := pos + 1;
        }
        var pos2 := pos;
        while pos2 < HINTS && hint[pos2] == keyHead
          invariant pos <= pos2 <= HINTS
        {
          pos2 := pos2 + 1;
        }
        HintRange(hint[..], rests, key, pos, pos2);
        HintSlotIs(count, pos - 1);
        HintSlotIs(count, pos2);
        lower := pos * dist;
        if pos2 < HINTS { upper := (pos2 + 1) * dist; }
      }
    }

    /** Compares with a stored remainder: the bytes that both have, then the lengths. */
    method CompareRest(key: Bytes, slotId: nat) returns (c: int)
      requires Legal() && slotId < count && slotId < MAX_SLOTS && SlotInHeap(Img(), slot[slotId])
      ensures var rest := Rest(Img(), slot[slotId]);
              (c < 0 <==> Less(key, rest)) && (c > 0 <==> Less(rest, key)) && (c == 0 <==> key == rest)
    {
      hide Rank, Common, MemCmp, Layout;
      var s := slot[slotId];
      var rest := heap[s.offset..s.offset + s.keyLen];
      assert rest == Rest(Img(), s);
      PartsDecide(key, rest);
      var m := if |key| < s.keyLen then |key| else s.keyLen;
      c := MemCmp(key[..m], rest[..m]);
      if c == 0 { c := |key| - s.keyLen; }
    }

    /** Hints, then a binary search that compares heads and looks at a remainder only when the
        heads agree. */
    method SearchRemainder(key: Bytes, ghost rests: seq<Bytes>) returns (r: nat, found: bool)
      requires Valid() && Remainders(rests)
      ensures if found then r < count && rests[r] == key else Narrowed(rests, key, r, r)
    {
      hide Rank, Common, Head, MemCmp;
      var keyHead := Head(key);
      if count > 2 * HINTS { HintsAreHeads(Img(), hint[..], rests); }
      var lower, upper := SearchHint(keyHead, key, rests);
      while lower < upper
        invariant Narrowed(rests, key, lower, upper)
      {
        var mid := (upper - lower) / 2 + lower;
        var s := slot[mid];
        assert s.head == Head(rests[mid]) && SlotInHeap(Img(), s);
        HeadOrder(key, rests[mid]);
        HeadOrder(rests[mid], key);
        if keyHead < s.head {
          NarrowDown(rests, key, lower, upper, mid);
          upper := mid;
        } else if keyHead > s.head {
          NarrowUp(rests, key, lower, upper, mid);
          lower := mid + 1;
        } else {
          var cmp := CompareRest(key, mid);
          if cmp < 0 {
            NarrowDown(rests, key, lower, upper, mid);
            upper := mid;
          } else if cmp > 0 {
            NarrowUp(rests, key, lower, upper, mid);
            lower := mid + 1;
          } else {
            return mid, true;
          }
        }
      }
      return lower, false;
    }

    /** The fast search: prefix, hints, heads, and only then full remainders. It returns what a
        plain lower bound over the full keys returns. */
    method LowerBound(skey: Key) returns (r: nat, found: bool)
      requires Valid() && Sorted(Content().keys)
      ensures r == Nodes.LowerBound(Content().keys, skey)
      ensures found <==> r < count && Content().keys[r] == skey
    {
      var m := if |skey| < prefixLen then |skey| else prefixLen;
      PrefixBytes(m);
      var cmp := MemCmp(skey[..m], heap[lowerFence.offset..lowerFence.offset + m]);
      PrefixDecides(Img(), skey);
      if cmp < 0 { return 0, false; }
      if cmp > 0 { return count, false; }
      if |skey| < prefixLen { return 0, false; }
      RestsAreRemainders();
      r, found := SearchRemainder(skey[prefixLen..], Rests());
      RemainderDecides(skey, r, found);
    }

    lemma PrefixBytes(m: nat)
      requires Arrays() && Shape(Img(), count) && m <= prefixLen
      ensures heap[lowerFence.offset..lowerFence.offset + m] == KeyPrefix(Img())[..m]
    {
      SliceOfSlice(heap[..], lowerFence.offset, lowerFence.len, prefixLen, m);
    }

    /** The second part of the search is right if the first part has not decided. */
    lemma RemainderDecides(skey: Key, r: nat, found: bool)
      requires Legal() && Sorted(Content().keys)
      requires prefixLen <= |skey| && skey == KeyPrefix(Img()) + skey[prefixLen..]
      requires if found then r < count && Rests()[r] == skey[prefixLen..]
               else Narrowed(Rests(), skey[prefixLen..], r, r)
      ensures r == Nodes.LowerBound(Content().keys, skey)
      ensures found <==> r < count && Content().keys[r] == skey
    {
      RestsAreRemainders();
      if found {
        ExactIsLowerBound(Content().keys, skey, r);
      } else {
        NarrowedIsLowerBound(KeyPrefix(Img()), Rests(), Content().keys, skey[prefixLen..], r);
      }
    }

    /** The child that covers the key. */
    method LookupInner(key: Key) returns (pid: PID)
      requires Valid() && !isLeaf && WF(Content())
      ensures pid == Next(Content(), key)
    {
      var pos, found := LowerBound(key);
      if pos >= count { return ext; }
      assert |Content().pays[pos]| == PID_SIZE;
      pid := GetChild(pos);
    }

    // -------------------------------------------------------------- storing entries

    method WriteBytes(offset: nat, b: Bytes)
      requires Arrays() && offset + |b| <= PAGE_SIZE
      modifies heap
      ensures heap[..] == PutBytes(old(heap[..]), offset, b)
    {
      forall i | 0 <= i < |b| { heap[offset + i] := b[i]; }
    }

    /** The remainder of the key and the payload go below the data. */
    method StoreBytes(slotId: nat, bytes: Bytes, keyLen: nat)
      requires Arrays() && slotId < MAX_SLOTS && keyLen <= |bytes| <= dataOffset <= PAGE_SIZE
      modifies this`dataOffset, this`spaceUsed, slot, heap
      ensures Img() == Put(old(Img()), slotId, bytes[..keyLen], bytes[keyLen..])
    {
      ghost var g := Img();
      dataOffset := dataOffset - |bytes|;
      spaceUsed := spaceUsed + |bytes|;
      slot[slotId] := Slot(dataOffset, keyLen, |bytes| - keyLen, Head(bytes[..keyLen]));
      WriteBytes(dataOffset, bytes);
      assert bytes[..keyLen] + bytes[keyLen..] == bytes;
    }

    method StoreKeyValue(slotId: nat, skey: Key, payload: Bytes)
      requires Arrays() && slotId < MAX_SLOTS && prefixLen <= |skey|
      requires |skey| - prefixLen + |payload| <= dataOffset <= PAGE_SIZE
      modifies this`dataOffset, this`spaceUsed, slot, heap
      ensures Img() == Put(old(Img()), slotId, skey[prefixLen..], payload)
    {
      var key := skey[prefixLen..];
      assert (key + payload)[..|key|] == key && (key + payload)[|key|..] == payload;
      StoreBytes(slotId, key + payload, |key|);
    }

    method InsertFence(key: Key) returns (fence: FenceSlot)
      requires Arrays() && |key| <= dataOffset <= PAGE_SIZE
      modifies this`dataOffset, this`spaceUsed, heap
      ensures dataOffset == old(dataOffset) - |key| && spaceUsed == old(spaceUsed) + |key|
      ensures fence == FenceSlot(dataOffset, |key|)
      ensures heap[..] == PutBytes(old(heap[..]), dataOffset, key)
    {
      dataOffset := dataOffset - |key|;
      spaceUsed := spaceUsed + |key|;
      fence := FenceSlot(dataOffset, |key|);
      WriteBytes(dataOffset, key);
    }

    /** Gives a new page its fences; the prefix is what they have in common. */
    method SetFences(lower: Key, upper: Key)
      requires Arrays() && count == 0 && spaceUsed == 0 && dataOffset == PAGE_SIZE
      requires |lower| + |upper| <= PAGE_SIZE - HEADER_SIZE
      modifies this, heap
      ensures Img() == Fenced(old(Img()), lower, upper)
      ensures isLeaf == old(isLeaf) && ext == old(ext) && count == old(count)
    {
      hide PutBytes;
      lowerFence := InsertFence(lower);
      upperFence := InsertFence(upper);
      prefixLen := 0;
      while prefixLen < |lower| && prefixLen < |upper| && lower[prefixLen] == upper[prefixLen]
        invariant prefixLen <= |lower| && prefixLen <= |upper| && lower[..prefixLen] == upper[..prefixLen]
        modifies this`prefixLen
      {
        assert lower[..prefixLen + 1] == lower[..prefixLen] + [lower[prefixLen]];
        assert upper[..prefixLen + 1] == upper[..prefixLen] + [upper[prefixLen]];
        prefixLen := prefixLen + 1;
      }
      CommonUnique(lower, upper, prefixLen);
    }

    // -------------------------------------------------------------- copying entries

    /** Copies an entry to a page with a longer prefix: the first bytes of the stored remainder
        are left out, the rest is copied together with the payload. */
    method CopyShortened(srcSlot: nat, dst: BTreeNode, dstSlot: nat, diff: nat)
      requires Arrays() && dst.Arrays() && Repr() !! dst.Repr()
      requires Copyable(Img(), srcSlot, dst.Img(), dstSlot) && dst.prefixLen == prefixLen + diff
      modifies dst`dataOffset, dst`spaceUsed, dst.slot, dst.heap
      ensures dst.Img() == Copied(Img(), srcSlot, old(dst.Img()), dstSlot)
    {
      hide Put, Copied;
      var s := slot[srcSlot];
      var bytes := heap[s.offset + diff..s.offset + s.keyLen + s.payLen];
      assert bytes == heap[..][s.offset + diff..s.offset + s.keyLen + s.payLen];
      CopiedShortened(Img(), srcSlot, dst.Img(), dstSlot, bytes);
      dst.StoreBytes(dstSlot, bytes, s.keyLen - diff);
    }

    method GetPayload(slotId: nat) returns (pay: Bytes)
      requires Arrays() && slotId < MAX_SLOTS && SlotInHeap(Img(), slot[slotId])
      ensures pay == Payload(Img(), slot[slotId])
    {
      var s := slot[slotId];
      pay := heap[s.offset + s.keyLen..s.offset + s.keyLen + s.payLen];
    }

    method FullKey(slotId: nat) returns (key: Key)
      requires Arrays() && slotId < MAX_SLOTS && SlotInHeap(Img(), slot[slotId])
      requires InHeap(Img(), lowerFence.offset, lowerFence.len) && prefixLen <= lowerFence.len
      ensures key == KeyPrefix(Img()) + Rest(Img(), slot[slotId])
    {
      var s := slot[slotId];
      var prefix := heap[lowerFence.offset..lowerFence.offset + prefixLen];
      assert prefix == KeyPrefix(Img());
      key := prefix + heap[s.offset..s.offset + s.keyLen];
    }

    /** Copies an entry to a page with a shorter prefix, by way of the full key. */
    method CopyKeyValue(srcSlot: nat, dst: BTreeNode, dstSlot: nat)
      requires Arrays() && dst.Arrays() && Repr() !! dst.Repr()
      requires Copyable(Img(), srcSlot, dst.Img(), dstSlot)
      modifies dst`dataOffset, dst`spaceUsed, dst.slot, dst.heap
      ensures dst.Img() == Copied(Img(), srcSlot, old(dst.Img()), dstSlot)
    {
      var key := FullKey(srcSlot);
      var pay := GetPayload(srcSlot);
      dst.StoreKeyValue(dstSlot, key, pay);
    }

    method CopyAllShortened(dst: BTreeNode, dstSlot: nat, srcSlot: nat, srcCount: nat, diff: nat)
      requires Arrays() && dst.Arrays() && Repr() !! dst.Repr() && dst.prefixLen == prefixLen + diff
      requires CanCopyRange(Img(), dst.Img(), dstSlot, srcSlot, srcCount)
      modifies dst`dataOffset, dst`spaceUsed, dst.slot, dst.heap
      ensures dst.Img() == CopiedRange(Img(), old(dst.Img()), dstSlot, srcSlot, srcCount)
    {
      hide Copyable, Copied, Img;
      ghost var src, g := Img(), dst.Img();
      for i := 0 to srcCount
        invariant Img() == src && dst.Img() == CopiedRange(src, g, dstSlot, srcSlot, i)
      {
        CopyShortened(srcSlot + i, dst, dstSlot + i, diff);
      }
    }

    method CopyKeyValues(dst: BTreeNode, dstSlot: nat, srcSlot: nat, srcCount: nat)
      requires Arrays() && dst.Arrays() && Repr() !! dst.Repr()
      requires CanCopyRange(Img(), dst.Img(), dstSlot, srcSlot, srcCount)
      modifies dst`dataOffset, dst`spaceUsed, dst.slot, dst.heap
      ensures dst.Img() == CopiedRange(Img(), old(dst.Img()), dstSlot, srcSlot, srcCount)
    {
      hide Copyable, Copied, Img;
      ghost var src, g := Img(), dst.Img();
      for i := 0 to srcCount
        invariant Img() == src && dst.Img() == CopiedRange(src, g, dstSlot, srcSlot, i)
      {
        CopyKeyValue(srcSlot + i, dst, dstSlot + i);
      }
    }

    /** Copies srcCount entries behind those of dst, whose prefix may be longer or shorter. */
    method CopyKeyValueRange(dst: BTreeNode, dstSlot: nat, srcSlot: nat, srcCount: nat)
      requires Arrays() && dst.Arrays() && Repr() !! dst.Repr()
      requires CanCopyRange(Img(), dst.Img(), dstSlot, srcSlot, srcCount)
      modifies dst`count, dst`dataOffset, dst`spaceUsed, dst.slot, dst.heap
      ensures dst.count == old(dst.count) + srcCount
      ensures dst.Img() == CopiedRange(Img(), old(dst.Img()), dstSlot, srcSlot, srcCount).(count := dst.count)
    {
      if prefixLen <= dst.prefixLen {
        CopyAllShortened(dst, dstSlot, srcSlot, srcCount, dst.prefixLen - prefixLen);
      } else {
        CopyKeyValues(dst, dstSlot, srcSlot, srcCount);
      }
      dst.count := dst.count + srcCount;
    }

    /** Takes over everything that the other page holds. */
    method CopyNode(src: BTreeNode)
      requires Arrays() && src.Arrays() && Repr() !! src.Repr()
      modifies this, slot, heap, hint
      ensures Img() == src.Img() && hint[..] == src.hint[..]
      ensures src.Valid() ==> Valid() && Content() == src.Content()
    {
      hide Layout, Meaning, HintsOk, Shape;
      isLeaf, ext, lowerFence, upperFence := src.isLeaf, src.ext, src.lowerFence, src.upperFence;
      count, spaceUsed, dataOffset, prefixLen := src.count, src.spaceUsed, src.dataOffset, src.prefixLen;
      forall i | 0 <= i < MAX_SLOTS { slot[i] := src.slot[i]; }
      forall i | 0 <= i < PAGE_SIZE { heap[i] := src.heap[i]; }
      forall i | 0 <= i < HINTS { hint[i] := src.hint[i]; }
      assert slot[..] == src.slot[..] && heap[..] == src.heap[..] && hint[..] == src.hint[..];
    }

    method LowerFence() returns (key: Key)
      requires Arrays() && Shape(Img(), count)
      ensures key == LowerKey(Img())
    {
      key := heap[lowerFence.offset..lowerFence.offset + lowerFence.len];
    }

    method UpperFence() returns (key: Key)
      requires Arrays() && Shape(Img(), count)
      ensures key == UpperKey(Img())
    {
      key := heap[upperFence.offset..upperFence.offset + upperFence.len];
    }

    /** Writes the page anew without holes; entries, fences, extra page id and prefix stay. */
    method Compactify()
      requires Legal()
      modifies this, slot, heap, hint
      ensures Valid() && Compact(Img())
      ensures Content() == old(Content())
      ensures count == old(count) && prefixLen == old(prefixLen)
    {
      hide Layout, Meaning, Shape, HintsOk, Compact;
      var tmp := CompactCopy();
      CopyNode(tmp);
      MakeHint();
    }

    /** A new page with the same entries and fences, but without holes. */
    method CompactCopy() returns (tmp: BTreeNode)
      requires Legal()
      ensures fresh(tmp.Repr()) && tmp.Legal() && Compact(tmp.Img())
      ensures tmp.Content() == Content() && tmp.count == count <= MAX_SLOTS && tmp.prefixLen == prefixLen
    {
      hide Layout, CopiedRange, Fenced, CanCopyRange, Meaning, Shape;
      ghost var src := Img();
      tmp := new BTreeNode(isLeaf);
      CompactKeeps(src, tmp.Img());
      var lower := LowerFence();
      var upper := UpperFence();
      tmp.SetFences(lower, upper);
      CopyKeyValueRange(tmp, 0, 0, count);
      tmp.ext := ext;
    }

    // -------------------------------------------------------------- changing entries

    /** Free space in one piece, between the slots and the data. */
    function FreeSpace(): int
      reads this
    {
      dataOffset - HEADER_SIZE - SLOT_SIZE * count
    }

    /** Inserts an entry at its place; the page is compacted first if the free space is in pieces. */
    method InsertInPage(key: Key, payload: Bytes)
      requires Valid() && Sorted(Content().keys) && SharesPrefix(Content(), key)
      requires HasSpaceFor(Content(), |key|, |payload|)
      modifies this, slot, heap, hint
      ensures Valid()
      ensures Content() == old(Insert(Content(), key, payload))
    {
      hide Layout, Meaning, Shape, HintsOk, SharesPrefix, HasSpaceFor, Sorted;
      Room(Img(), key, payload);
      var needed := SLOT_SIZE + (|key| - prefixLen) + |payload|;
      if needed > FreeSpace() {
        Compactify();
        Room(Img(), key, payload);
      }
      var slotId, found := LowerBound(key);
      InsertAtSlot(slotId, key, payload);
    }

    method InsertAtSlot(slotId: nat, key: Key, payload: Bytes)
      requires Valid() && slotId <= count && SharesPrefix(Content(), key) && prefixLen <= |key|
      requires SLOT_SIZE + (|key| - prefixLen) + |payload| <= FreeSpace()
      modifies this, slot, heap, hint
      ensures Valid() && |old(Content()).keys| == |old(Content()).pays| == old(count)
      ensures Content() == InsertAt(old(Content()), slotId, key, payload)
    {
      hide Layout, Meaning, Shape, HintsOk, InsertedImage, Put, InsertAt, ShiftUp, SharesPrefix;
      ghost var g := Img();
      Room(g, key, payload);
      InsertedImageKeeps(g, slotId, key, payload);
      HasShape(g, count);
      MakeGap(slotId);
      StoreKeyValue(slotId, key, payload);
      count := count + 1;
      assert Img() == InsertedImage(g, slotId, key, payload) by { InsertedInSteps(g, slotId, key, payload); }
      InsertedSlots(g, slotId, key, payload);
      UpdateHint(slotId, g.slots);
    }

    method MakeGap(slotId: nat)
      requires Arrays() && slotId <= count < MAX_SLOTS
      modifies slot
      ensures slot[..] == ShiftUp(old(slot[..]), slotId, count)
    {
      forall i | slotId < i <= count { slot[i] := slot[i - 1]; }
    }

    /** Drops a slot; the bytes it used are lost until the page is compacted. */
    method RemoveSlot(slotId: nat)
      requires Legal() && slotId < count
      modifies this, slot, hint
      ensures Valid()
      ensures Content() == old(RemoveAt(Content(), slotId))
    {
      hide Layout, Meaning, Shape;
      RemovedImageKeeps(Img(), slotId);
      spaceUsed := spaceUsed - slot[slotId].keyLen;
      spaceUsed := spaceUsed - slot[slotId].payLen;
      forall i | slotId <= i < count - 1 { slot[i] := slot[i + 1]; }
      count := count - 1;
      assert slot[..] == ShiftDown(old(slot[..]), slotId, old(count));
      assert Img() == RemovedImage(old(Img()), slotId);
      MakeHint();
    }

    /** True exactly if the key was there; then it is gone. */
    method RemoveInPage(key: Key) returns (found: bool)
      requires Valid() && Sorted(Content().keys)
      modifies this, slot, hint
      ensures Valid() && found == old(Has(Content(), key))
      ensures Content() == if found then old(RemoveAt(Content(), Nodes.LowerBound(Content().keys, key)))
              else old(Content())
    {
      var slotId;
      slotId, found := LowerBound(key);
      if found { RemoveSlot(slotId); }
    }

    /** Overwrites a payload by one of the same length. */
    method SetPayload(slotId: nat, pay: Bytes)
      requires Valid() && slotId < count && |pay| == |Content().pays[slotId]|
      modifies heap
      ensures Valid()
      ensures Content() == old(Content().(pays := Content().pays[slotId := pay]))
    {
      hide Layout, Meaning, PutBytes;
      HasShape(Img(), count);
      PayloadLength(Img(), slotId);
      var s := slot[slotId];
      ghost var g := Img();
      assert SlotInHeap(g, g.slots[slotId]);
      WriteBytes(s.offset + s.keyLen, pay);
      OverwrittenKeeps(g, Img(), count, slotId, pay);
    }

    /** Redirects a child pointer. */
    method SetChildAt(pos: nat, pid: PID)
      requires Valid() && !isLeaf && WF(Content()) && pos <= count
      modifies this, heap
      ensures Valid()
      ensures count == old(count) && |old(Content()).keys| == |old(Content()).pays| == count
      ensures Content() == SetChild(old(Content()), pos, pid)
    {
      MeaningSize(Img());
      if pos == count {
        ghost var g := Img();
        ext := pid;
        HeaderIsFree(g, Img(), count);
      } else {
        SetPayload(pos, EncodePid(pid));
      }
    }

    // -------------------------------------------------------------- merging

    /** The page space that the merged leaf needs at most, when prefixes shrink to newPrefixLen. */
    method MergeEstimate(right: BTreeNode, newPrefixLen: nat) returns (spaceUpperBound: int)
      requires Legal() && right.Legal() && newPrefixLen == Common(Content().lower, right.Content().upper)
      ensures spaceUpperBound == MergeBound(Content(), right.Content())
    {
      hide Layout, Meaning, Shape, MergeBound, Common;
      MergeSizes(Img(), right.Img());
      MergeFigures(Img(), right.Img());
      var leftGrow := (prefixLen - newPrefixLen) * count;
      var rightGrow := (right.prefixLen - newPrefixLen) * right.count;
      spaceUpperBound := spaceUsed + right.spaceUsed + HEADER_SIZE + SLOT_SIZE * (count + right.count) + leftGrow
          + rightGrow;
    }

    /** Copies the entries of this leaf and its right neighbour to the new page tmp. */
    method CollectBoth(right: BTreeNode, tmp: BTreeNode, ghost g: Image)
      requires Repr() !! tmp.Repr() && right.Repr() !! tmp.Repr() && Legal() && right.Legal() && tmp.Arrays()
      requires Adjacent(Content(), right.Content())
      requires MergeBound(Content(), right.Content()) <= PAGE_SIZE
      requires |g.heap| == PAGE_SIZE && |g.slots| == MAX_SLOTS && g.isLeaf && g.count == 0
      requires |LowerKey(Img())| + |UpperKey(right.Img())| <= PAGE_SIZE - HEADER_SIZE
      requires tmp.count == 0 && tmp.Img() == Fenced(g, LowerKey(Img()), UpperKey(right.Img()))
      modifies tmp, tmp.slot, tmp.heap, tmp.hint
      ensures tmp.Valid() && tmp.Content() == Merged(Content(), right.Content())
    {
      hide Layout, Meaning, Shape, Fenced, CopiedRange, CanCopyRange, MergeBound, Merged, Adjacent, IsImageOf, HintsOk;
      MergedImage(Img(), right.Img(), g);
      CopyKeyValueRange(tmp, 0, 0, count);
      right.CopyKeyValueRange(tmp, count, 0, right.count);
      tmp.ext := right.ext;
      ImageLimits(tmp.Img(), Merged(Content(), right.Content()));
      tmp.MakeHint();
    }

    /** The slot behind slotId now leads to pid, and slotId is dropped. */
    method DropLeft(slotId: nat, pid: PID)
      requires Valid() && !isLeaf && WF(Content()) && slotId + 1 < count
      modifies this, slot, heap, hint
      ensures Valid() && |old(Content()).keys| == |old(Content()).pays| == old(count)
      ensures Content() == MergedParent(old(Content()), slotId, pid)
    {
      SetChildAt(slotId + 1, pid);
      RemoveSlot(slotId);
    }

    /** A new leaf with the outer fences of this leaf and its right neighbour. */
    method NewMerged(right: BTreeNode) returns (tmp: BTreeNode, ghost g: Image)
      requires Legal() && right.Legal() && isLeaf
               && |Content().lower| + |right.Content().upper| <= PAGE_SIZE - HEADER_SIZE
      ensures fresh(tmp.Repr()) && tmp.Arrays() && tmp.count == 0
      ensures Shape(Img(), count) && Shape(right.Img(), right.count)
      ensures |g.heap| == PAGE_SIZE && |g.slots| == MAX_SLOTS && g.isLeaf && g.count == 0
      ensures Content().lower == LowerKey(Img()) && right.Content().upper == UpperKey(right.Img())
      ensures tmp.Img() == Fenced(g, LowerKey(Img()), UpperKey(right.Img()))
      ensures tmp.prefixLen == Common(Content().lower, right.Content().upper)
    {
      hide Layout, Meaning, Shape, Fenced, Common;
      MergeSizes(Img(), right.Img());
      tmp := new BTreeNode(isLeaf);
      g := tmp.Img();
      var lower := LowerFence();
      var upper := right.UpperFence();
      tmp.SetFences(lower, upper);
      MergePrefix(g, lower, upper);
    }

    /** A new page with the entries of this leaf and its right neighbour, if the estimate fits a page. */
    method BuildMerged(right: BTreeNode) returns (tmp: BTreeNode, fits: bool)
      requires Repr() !! right.Repr() && Legal() && right.Legal() && isLeaf && Adjacent(Content(), right.Content())
      requires |Content().lower| + |right.Content().upper| <= PAGE_SIZE - HEADER_SIZE
      ensures fresh(tmp.Repr()) && tmp.Arrays()
      ensures fits <==> MergeBound(Content(), right.Content()) <= PAGE_SIZE
      ensures fits ==> tmp.Valid() && tmp.Content() == Merged(Content(), right.Content())
    {
      hide Layout, Img, Content, Meaning, Shape, WF, Fenced, MergeBound, Merged, SpaceUsed, Adjacent, Common, HintsOk,
           Rank, LexLess, DecodePid;
      ghost var g;
      tmp, g := NewMerged(right);
      var spaceUpperBound := MergeEstimate(right, tmp.prefixLen);
      fits := spaceUpperBound <= PAGE_SIZE;
      if fits { CollectBoth(right, tmp, g); }
    }

    /** Moves the right leaf's entries into this page if the estimate fits a page; the parent's
        slot for the right leaf then leads here. Inner pages are left as they are. */
    method MergeNodes(slotId: nat, parent: BTreeNode, right: BTreeNode, pid: PID) returns (done: bool)
      requires Repr() !! parent.Repr() && Repr() !! right.Repr() && parent.Repr() !! right.Repr()
      requires Valid() && parent.Valid() && right.Valid()
      requires isLeaf ==>
               Adjacent(Content(), right.Content()) && !parent.isLeaf && WF(parent.Content())
                   && slotId + 1 < parent.count
      requires isLeaf ==> |Content().lower| + |right.Content().upper| <= PAGE_SIZE - HEADER_SIZE
      modifies this, slot, heap, hint, parent, parent.slot, parent.heap, parent.hint
      ensures Valid() && parent.Valid() && right.Valid()
      ensures old(!isLeaf) ==> done && Content() == old(Content()) && parent.Content() == old(parent.Content())
      ensures old(isLeaf) ==> (done <==> MergeBound(old(Content()), old(right.Content())) <= PAGE_SIZE)
      ensures |old(parent.Content()).keys| == |old(parent.Content()).pays| == old(parent.count)
      ensures old(isLeaf) && done ==>
                && Content() == Merged(old(Content()), old(right.Content()))
                && parent.Content() == MergedParent(old(parent.Content()), slotId, pid)
      ensures !done ==> Content() == old(Content()) && parent.Content() == old(parent.Content())
    {
      hide Layout, Img, Content, Meaning, Shape, WF, Fenced, MergeBound, Merged, SpaceUsed, Adjacent, MergedParent,
           Common, HintsOk, Rank, LexLess, DecodePid;
      parent.Sizes();
      if !isLeaf { return true; }
      var tmp;
      tmp, done := BuildMerged(right);
      if done {
        parent.DropLeft(slotId, pid);
        CopyNode(tmp);
      }
    }

    // -------------------------------------------------------------- splitting

    /** Two new pages with the separator as the fence between them. */
    method NewHalves(sep: Key) returns (nodeLeft: BTreeNode, nodeRight: BTreeNode, ghost gl: Image, ghost gr: Image)
      requires Legal() && |Content().lower| + |sep| <= PAGE_SIZE - HEADER_SIZE
               && |sep| + |Content().upper| <= PAGE_SIZE - HEADER_SIZE
      ensures fresh(nodeLeft.Repr()) && fresh(nodeRight.Repr()) && nodeLeft.Repr() !! nodeRight.Repr()
      ensures nodeLeft.Arrays() && Blank(nodeLeft.Img(), gl, isLeaf, Content().lower, sep)
      ensures nodeRight.Arrays() && Blank(nodeRight.Img(), gr, isLeaf, sep, Content().upper)
    {
      hide Layout, Meaning, Shape, Fenced;
      HasShape(Img(), count);
      Figures(Img());
      nodeLeft := new BTreeNode(isLeaf);
      nodeRight := new BTreeNode(isLeaf);
      gl, gr := nodeLeft.Img(), nodeRight.Img();
      var lower := LowerFence();
      var upper := UpperFence();
      nodeLeft.SetFences(lower, sep);
      nodeRight.SetFences(sep, upper);
    }

    /** Fills a new page that has its fences with some entries of this page. */
    method FillHalf(dst: BTreeNode, srcSlot: nat, srcCount: nat, newExt: PID, ghost g: Image, ghost lower: Key,
          ghost upper: Key, ghost half: Node)
      requires Repr() !! dst.Repr() && Legal() && dst.Arrays()
               && srcSlot + srcCount <= count == |Content().keys| == |Content().pays|
      requires Blank(dst.Img(), g, isLeaf, lower, upper)
      requires half == Extended(Node(isLeaf, lower, upper, [], [], newExt), Content(), srcSlot, srcSlot + srcCount)
      requires Free(half) >= 0 && WF(half)
      modifies dst, dst.slot, dst.heap, dst.hint
      ensures dst.Valid() && dst.Content() == half && dst.count == srcCount
    {
      hide Layout, Meaning, Shape, Fenced, CopiedRange, CanCopyRange, Free, WF, Rank, HintsOk, IsImageOf, Extended;
      HasShape(Img(), count);
      HalfImage(Img(), g, lower, upper, srcSlot, srcSlot + srcCount, newExt, half);
      CopyKeyValueRange(dst, 0, srcSlot, srcCount);
      dst.ext := newExt;
      ImageLimits(dst.Img(), half);
      dst.MakeHint();
    }

    /** Distributes the entries over two new pages; an inner page's middle entry goes to neither. */
    method FillHalves(nodeLeft: BTreeNode, nodeRight: BTreeNode, sepSlot: nat, ghost sep: Key, newPid: PID,
          ghost gl: Image, ghost gr: Image)
      requires Repr() !! nodeLeft.Repr() && Repr() !! nodeRight.Repr() && nodeLeft.Repr() !! nodeRight.Repr()
      requires Legal() && nodeLeft.Arrays() && nodeRight.Arrays() && CanHalve(Content(), sepSlot, sep, newPid)
      requires Blank(nodeLeft.Img(), gl, isLeaf, Content().lower, sep)
               && Blank(nodeRight.Img(), gr, isLeaf, sep, Content().upper)
      modifies nodeLeft, nodeLeft.slot, nodeLeft.heap, nodeLeft.hint, nodeRight, nodeRight.slot, nodeRight.heap,
          nodeRight.hint
      ensures nodeLeft.Valid() && nodeLeft.Content() == SplitLeft(Content(), sepSlot, sep, newPid)
      ensures nodeRight.Valid() && nodeRight.Content() == SplitRight(Content(), sepSlot, sep)
    {
      hide Layout, Img, Content, Meaning, Shape, Fenced, Free, WF, SplitPoint, CanHalve, SplitLeft, SplitRight, Rank,
           HintsOk, Extended, Blank, LexLess, DecodePid;
      Sizes();
      ghost var n := Content();
      SplitHalves(n, sepSlot, sep, newPid);
      ghost var l, r := SplitLeft(n, sepSlot, sep, newPid), SplitRight(n, sepSlot, sep);
      if isLeaf {
        FillHalf(nodeLeft, 0, sepSlot + 1, newPid, gl, n.lower, sep, l);
        FillHalf(nodeRight, nodeLeft.count, count - nodeLeft.count, ext, gr, sep, n.upper, r);
      } else {
        var child := GetChild(sepSlot);
        FillHalf(nodeLeft, 0, sepSlot, child, gl, n.lower, sep, l);
        FillHalf(nodeRight, nodeLeft.count + 1, count - nodeLeft.count - 1, ext, gr, sep, n.upper, r);
      }
    }

    method GetChild(slotId: nat) returns (pid: PID)
      requires Legal() && slotId < count && slotId < |Content().pays| && |Content().pays[slotId]| == PID_SIZE
      ensures |Content().keys| == |Content().pays| == count && pid == Child(Content(), slotId)
    {
      PayloadLength(Img(), slotId);
      var pay := GetPayload(slotId);
      pid := DecodePid(pay);
    }

    /** The slot that led to the page now leads to newPid; a new slot before it, keyed by the
        separator, leads to leftPid. */
    method RouteToHalves(sep: Key, leftPid: PID, newPid: PID)
      requires Valid() && !isLeaf && WF(Content()) && Covers(Content(), sep)
      requires HasSpaceFor(Content(), |sep|, PID_SIZE)
      modifies this, slot, heap, hint
      ensures Valid() && |old(Content()).keys| == |old(Content()).pays| == old(count)
      ensures Content() == SplitParent(old(Content()), sep, leftPid, newPid)
    {
      hide Layout, Meaning, Shape, SpaceNeeded, Free, Covers;
      HasShape(Img(), count);
      Figures(Img());
      ghost var n := Content();
      SetChildSpace(n, Nodes.LowerBound(n.keys, sep), newPid);
      CoveredSharesPrefix(n, sep);
      var oldParentSlot, found := LowerBound(sep);
      SetChildAt(oldParentSlot, newPid);
      HasShape(Img(), count);
      SpaceForSame(n, Content(), |sep|, PID_SIZE);
      InsertInPage(sep, EncodePid(leftPid));
    }

    /** Splits the page at sepSlot: it keeps the left half, a new page gets the right half, and
        the parent routes to both. */
    method SplitNode(parent: BTreeNode, sepSlot: nat, sep: Key, leftPid: PID, newPid: PID)
      returns (nodeRight: BTreeNode)
      requires Repr() !! parent.Repr() && Valid() && parent.Valid()
      requires 0 < sepSlot && CanHalve(Content(), sepSlot, sep, newPid)
      requires !parent.isLeaf && WF(parent.Content()) && Covers(parent.Content(), sep)
      requires |parent.Content().keys| == |parent.Content().pays|
      requires Next(parent.Content(), sep) == leftPid && HasSpaceFor(parent.Content(), |sep|, PID_SIZE)
      modifies this, slot, heap, hint, parent, parent.slot, parent.heap, parent.hint
      ensures fresh(nodeRight.Repr()) && Valid() && nodeRight.Valid() && parent.Valid()
      ensures Content() == old(SplitLeft(Content(), sepSlot, sep, newPid))
      ensures nodeRight.Content() == old(SplitRight(Content(), sepSlot, sep))
      ensures parent.Content() == old(SplitParent(parent.Content(), sep, leftPid, newPid))
    {
      hide Layout, Img, Content, Meaning, Shape, Fenced, Free, SplitLeft, SplitRight, SplitParent, SplitPoint, WF,
           Covers, HasSpaceFor, CanHalve, Next, HintsOk, Rank;
      Sizes();
      HalvesFences(Content(), sepSlot, sep, newPid);
      var nodeLeft;
      ghost var gl, gr;
      nodeLeft, nodeRight, gl, gr := NewHalves(sep);
      parent.RouteToHalves(sep, leftPid, newPid);
      FillHalves(nodeLeft, nodeRight, sepSlot, sep, newPid, gl, gr);
      CopyNode(nodeLeft);
    }

    /** How many leading bytes two stored remainders share. */
    method CommonPrefix(slotA: nat, slotB: nat) returns (i: nat)
      requires Legal() && slotA < count && slotB < count
      ensures i == CommonSuffix(Content(), slotA, slotB)
    {
      hide Layout, Meaning, CommonSuffix, Shape, Common, InHeap, Rest;
      HasShape(Img(), count);
      SharedRests(Img(), slotA, slotB);
      var a, b := slot[slotA], slot[slotB];
      ghost var ra, rb := Rest(Img(), a), Rest(Img(), b);
      RestBytes(Img(), a);
      RestBytes(Img(), b);
      i := 0;
      while i < a.keyLen && i < b.keyLen && heap[a.offset + i] == heap[b.offset + i]
        invariant i <= a.keyLen && i <= b.keyLen && ra[..i] == rb[..i]
      {
        OneMoreShared(ra, rb, i);
        i := i + 1;
      }
      CommonUnique(ra, rb, i);
    }

    /** Chooses where to split a leaf; in the middle the choice favours a short separator. */
    method FindBestSlot(splitOrdered: bool) returns (bestSlot: nat)
      requires Legal() && count > 1
      ensures bestSlot == BestSlot(Content(), splitOrdered)
    {
      hide Layout, Meaning, CommonSuffix, Shape, Rest;
      HasShape(Img(), count);
      MeaningSize(Img());
      if splitOrdered {
        bestSlot := count - 2;
      } else if count > 16 {
        var lower, upper := count / 2 - count / 16, count / 2;
        var bestPrefixLen := CommonPrefix(lower, 0);
        bestSlot := lower;
        var last := CommonPrefix(upper - 1, 0);
        if bestPrefixLen != last {
          bestSlot := lower + 1;
          while bestSlot < upper
            invariant lower + 1 <= bestSlot <= upper
            invariant Advance(Content(), lower + 1, upper, bestPrefixLen)
                      == Advance(Content(), bestSlot, upper, bestPrefixLen)
          {
            var c := CommonPrefix(bestSlot, 0);
            if c != bestPrefixLen { break; }
            bestSlot := bestSlot + 1;
          }
        }
      } else {
        bestSlot := (count - 1) / 2;
      }
    }

    method FindSeparator(splitOrdered: bool) returns (info: SeparatorInfo)
      requires Legal() && count > 1
      ensures info == Splitting.FindSeparator(Content(), splitOrdered)
    {
      hide Layout, BestSlot, Meaning, Shape, CommonSuffix, Common, Rest;
      HasShape(Img(), count);
      Figures(Img());
      if !isLeaf {
        SharedRests(Img(), count / 2, count / 2);
        return SeparatorInfo(prefixLen + slot[count / 2].keyLen, count / 2, false);
      }
      var bestSlot := FindBestSlot(splitOrdered);
      SharedRests(Img(), bestSlot, bestSlot + 1);
      var common := CommonPrefix(bestSlot, bestSlot + 1);
      if slot[bestSlot].keyLen > common && slot[bestSlot + 1].keyLen > common + 1 {
        return SeparatorInfo(prefixLen + common + 1, bestSlot, true);
      }
      return SeparatorInfo(prefixLen + slot[bestSlot].keyLen, bestSlot, false);
    }

    /** Puts the separator together from the prefix and a piece of a stored remainder. */
    method GetSep(info: SeparatorInfo) returns (sep: Key)
      requires Legal() && info.slot + (if info.truncated then 1 else 0) < count
      requires prefixLen <= info.len <= |Content().keys[info.slot + (if info.truncated then 1 else 0)]|
      ensures |Content().keys| == count && sep == Splitting.GetSep(Content(), info)
    {
      hide Layout, Shape, Rank, Common, Meaning, KeyPrefix, Rest;
      HasShape(Img(), count);
      MeaningSize(Img());
      var i := info.slot + (if info.truncated then 1 else 0);
      KeyIsFullKey(Img(), i);
      var key := FullKey(i);
      sep := key[..info.len];
    }
  }
}
