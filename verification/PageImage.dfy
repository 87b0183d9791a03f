/** The bytes of a slotted page and what they mean. Slots grow upwards behind the header,
    keys and payloads grow downwards from the end of the page. */
module PageImage {
  import opened Lex
  import opened Nodes

  const MAX_SLOTS: nat := (PAGE_SIZE - HEADER_SIZE) / SLOT_SIZE
  const HINTS: nat := 16

  datatype FenceSlot = FenceSlot(offset: nat, len: nat)

  datatype Slot = Slot(offset: nat, keyLen: nat, payLen: nat, head: nat)

  /** Everything stored in a page but the hints. */
  datatype Image = Image(isLeaf: bool, ext: PID, lower: FenceSlot, upper: FenceSlot, count: nat,
                         spaceUsed: int, dataOffset: int, prefixLen: nat, slots: seq<Slot>, heap: seq<byte>)

  // ---------------------------------------------------------------- heads

  /** The first four bytes, most significant first, missing bytes as zero. */
  function Head(key: Bytes): nat {
    match |key|
    case 0 => 0
    case 1 => key[0] as int * 0x100_0000
    case 2 => key[0] as int * 0x100_0000 + key[1] as int * 0x1_0000
    case 3 => key[0] as int * 0x100_0000 + key[1] as int * 0x1_0000 + key[2] as int * 0x100
    case _ => key[0] as int * 0x100_0000 + key[1] as int * 0x1_0000 + key[2] as int * 0x100 + key[3] as int
  }

  /** The same, byte by byte. */
  function HeadOf(key: Bytes, n: nat): nat {
    if n == 0 || key == [] then 0 else Pow256(n - 1) * key[0] + HeadOf(key[1..], n - 1)
  }

  lemma {:induction false} HeadOfBound(key: Bytes, n: nat)
    ensures HeadOf(key, n) < Pow256(n)
  {
    if n > 0 {
      HeadOfBound(if key == [] then [] else key[1..], n - 1);
      if key != [] { DigitBound(Pow256(n - 1), key[0]); }
    }
  }

  lemma DigitBound(p: nat, d: byte)
    ensures p * d <= 255 * p
  {}

  lemma HeadIsHeadOf(key: Bytes)
    ensures Head(key) == HeadOf(key, 4)
  {
    assert Pow256(0) == 1 && Pow256(1) == 0x100 && Pow256(2) == 0x1_0000 && Pow256(3) == 0x100_0000;
    if |key| > 0 {
      assert HeadOf(key, 4) == 0x100_0000 * key[0] + HeadOf(key[1..], 3);
      if |key| > 1 {
        assert HeadOf(key[1..], 3) == 0x1_0000 * key[1] + HeadOf(key[1..][1..], 2);
        if |key| > 2 {
          assert HeadOf(key[1..][1..], 2) == 0x100 * key[2] + HeadOf(key[1..][1..][1..], 1);
          if |key| > 3 { assert HeadOf(key[1..][1..][1..], 1) == key[3]; }
        }
      }
    }
  }

  lemma DigitOrder(p: nat, a: byte, b: byte, x: nat, y: nat)
    requires p * a + x < p * b + y && y < p
    ensures a <= b
    ensures a == b ==> x < y
  {
    if b < a { MulStep(p, b, a); }
  }

  lemma MulStep(p: nat, b: nat, a: nat)
    requires b < a
    ensures p * b + p <= p * a
  {
    Distribute(p, b, a - b - 1);
    assert b + 1 + (a - b - 1) == a;
  }

  lemma Distribute(p: nat, b: nat, d: nat)
    ensures p * (b + 1 + d) == p * b + p + p * d >= p * b + p
  {}

  lemma {:induction false} HeadOfOrder(a: Bytes, b: Bytes, n: nat)
    requires HeadOf(a, n) < HeadOf(b, n)
    ensures LexLess(a, b)
  {
    if a != [] {
      HeadOfBound(b[1..], n - 1);
      DigitOrder(Pow256(n - 1), a[0], b[0], HeadOf(a[1..], n - 1), HeadOf(b[1..], n - 1));
      if a[0] == b[0] { HeadOfOrder(a[1..], b[1..], n - 1); }
    }
  }

  /** A smaller head means a smaller key; equal keys have equal heads. */
  lemma HeadOrder(a: Bytes, b: Bytes)
    ensures Head(a) < Head(b) ==> Less(a, b)
    ensures AtMost(a, b) ==> Head(a) <= Head(b)
  {
    HeadIsHeadOf(a);
    HeadIsHeadOf(b);
    LessIsLexicographic(a, b);
    LessIsLexicographic(b, a);
    if Head(a) < Head(b) { HeadOfOrder(a, b, 4); }
    if Head(b) < Head(a) { HeadOfOrder(b, a, 4); }
  }

  /** The first four bytes, filled up with zeros. */
  function FirstFour(key: Bytes): (b: Bytes)
    ensures |b| == 4
  {
    seq(4, i requires 0 <= i < 4 => if i < |key| then key[i] else 0)
  }

  /** No two different beginnings have the same head. */
  lemma HeadTellsApart(a: Bytes, b: Bytes)
    ensures Head(a) == Head(b) <==> FirstFour(a) == FirstFour(b)
  {
    var f, g := FirstFour(a), FirstFour(b);
    HeadInBytes(a);
    HeadInBytes(b);
    if Head(a) == Head(b) {
      assert f[0] == g[0];
      assert f[1] == g[1];
      assert f[2] == g[2];
      assert f[3] == g[3];
    }
  }

  lemma HeadInBytes(key: Bytes)
    ensures var f := FirstFour(key);
            Head(key) == f[0] as int * 0x100_0000 + f[1] as int * 0x1_0000 + f[2] as int * 0x100 + f[3] as int
  {}

  // ---------------------------------------------------------------- layout

  function Piece(h: seq<byte>, offset: nat, len: nat): (b: Bytes)
    requires offset + len <= |h|
    ensures |b| == len
  {
    h[offset..offset + len]
  }

  predicate InHeap(g: Image, offset: nat, len: nat) {
    (len > 0 ==> g.dataOffset <= offset) && offset + len <= |g.heap|
  }

  predicate SlotInHeap(g: Image, s: Slot) { g.dataOffset <= s.offset && s.offset + s.keyLen + s.payLen <= |g.heap| }

  function Rest(g: Image, s: Slot): (b: Bytes)
    requires SlotInHeap(g, s)
    ensures |b| == s.keyLen
  {
    Piece(g.heap, s.offset, s.keyLen)
  }

  function Payload(g: Image, s: Slot): (b: Bytes)
    requires SlotInHeap(g, s)
    ensures |b| == s.payLen
  {
    Piece(g.heap, s.offset + s.keyLen, s.payLen)
  }

  /** The first n slots and the two fences lie in the heap, the slots below it. */
  predicate Shape(g: Image, n: nat) {
    && |g.slots| == MAX_SLOTS && |g.heap| == PAGE_SIZE && n <= MAX_SLOTS
    && HEADER_SIZE + SLOT_SIZE * n <= g.dataOffset <= PAGE_SIZE
    && InHeap(g, g.lower.offset, g.lower.len) && InHeap(g, g.upper.offset, g.upper.len)
    && g.prefixLen <= g.lower.len
    && (forall i | 0 <= i < n :: SlotInHeap(g, g.slots[i]))
  }

  function LowerKey(g: Image): Key
    requires InHeap(g, g.lower.offset, g.lower.len)
  {
    Piece(g.heap, g.lower.offset, g.lower.len)
  }

  function UpperKey(g: Image): Key
    requires InHeap(g, g.upper.offset, g.upper.len)
  {
    Piece(g.heap, g.upper.offset, g.upper.len)
  }

  function KeyPrefix(g: Image): Bytes
    requires InHeap(g, g.lower.offset, g.lower.len) && g.prefixLen <= g.lower.len
  {
    LowerKey(g)[..g.prefixLen]
  }

  /** The page as a node, with n entries. */
  function Meaning(g: Image, n: nat): Node
    requires Shape(g, n)
  {
    Node(g.isLeaf, LowerKey(g), UpperKey(g),
         seq(n, i requires 0 <= i < n => KeyPrefix(g) + Rest(g, g.slots[i])),
         seq(n, i requires 0 <= i < n => Payload(g, g.slots[i])), g.ext)
  }

  predicate Separate(a: nat, la: nat, b: nat, lb: nat) { la == 0 || lb == 0 || a + la <= b || b + lb <= a }

  function SlotLen(s: Slot): nat { s.keyLen + s.payLen }

  /** No two stored pieces share a byte. */
  ghost predicate Disjoint(g: Image, n: nat)
    requires |g.slots| == MAX_SLOTS && n <= MAX_SLOTS
  {
    && Separate(g.lower.offset, g.lower.len, g.upper.offset, g.upper.len)
    && (forall i | 0 <= i < n ::
          && Separate(g.slots[i].offset, SlotLen(g.slots[i]), g.lower.offset, g.lower.len)
          && Separate(g.slots[i].offset, SlotLen(g.slots[i]), g.upper.offset, g.upper.len))
    && (forall i, j | 0 <= i < j < n ::
          Separate(g.slots[i].offset, SlotLen(g.slots[i]), g.slots[j].offset, SlotLen(g.slots[j])))
  }

  ghost predicate HeadsOk(g: Image, n: nat)
    requires Shape(g, n)
  {
    forall i | 0 <= i < n :: g.slots[i].head == Head(Rest(g, g.slots[i]))
  }

  /** A legal page with n entries: nothing overlaps, the byte count is exact, the heads
      are the heads of the stored remainders, and the prefix is that of the fences. */
  ghost predicate Layout(g: Image, n: nat) {
    && Shape(g, n) && Disjoint(g, n) && HeadsOk(g, n)
    && g.prefixLen == Common(LowerKey(g), UpperKey(g))
    && g.spaceUsed == SpaceUsed(Meaning(g, n))
    && g.dataOffset + g.spaceUsed <= PAGE_SIZE
  }

  /** No holes: all reclaimable space is free space. */
  predicate Compact(g: Image) { g.dataOffset + g.spaceUsed == PAGE_SIZE }

  function FreeSpace(g: Image): int { g.dataOffset - HEADER_SIZE - SLOT_SIZE * g.count }

  function FreeSpaceAfterCompaction(g: Image): int { PAGE_SIZE - HEADER_SIZE - SLOT_SIZE * g.count - g.spaceUsed }

  /** The page's own space figures are those of the node that it stores. */
  lemma SpaceFiguresExact(g: Image)
    requires Layout(g, g.count)
    ensures FreeSpaceAfterCompaction(g) == Free(Meaning(g, g.count))
    ensures 0 <= FreeSpace(g) <= FreeSpaceAfterCompaction(g)
    ensures Compact(g) ==> FreeSpace(g) == FreeSpaceAfterCompaction(g)
    ensures g.spaceUsed >= 0
  {
    UsedNonNegative(g, g.count);
  }

  lemma UsedNonNegative(g: Image, n: nat)
    requires Shape(g, n)
    ensures g.prefixLen == Common(LowerKey(g), UpperKey(g)) ==> SpaceUsed(Meaning(g, n)) >= 0
  {
    var m := Meaning(g, n);
    TotalLenAtLeast(m.keys, g.prefixLen);
  }

  // The checks that keep a reader without a lock inside the page, in terms of header fields alone.

  function SafeCount(count: nat): (r: nat)
    ensures r <= MAX_SLOTS
  {
    if count < MAX_SLOTS then count else MAX_SLOTS
  }

  predicate SlotInPage(s: Slot) { s.offset >= HEADER_SIZE && s.offset + s.keyLen + s.payLen <= PAGE_SIZE }

  predicate FenceInPage(f: FenceSlot) { f.offset + f.len <= PAGE_SIZE }

  /** On a legal page none of the checks fires: a reader of a page that nobody changes is never sent
      back by them. */
  lemma RangeChecksPass(g: Image)
    requires Layout(g, g.count)
    ensures SafeCount(g.count) == g.count
    ensures forall i | 0 <= i < g.count :: SlotInPage(g.slots[i])
    ensures FenceInPage(g.lower) && FenceInPage(g.upper)
  {
    forall i | 0 <= i < g.count ensures SlotInPage(g.slots[i]) {
      assert SlotInHeap(g, g.slots[i]);
    }
  }

  // ---------------------------------------------------------------- storing an entry

  function PutBytes(h: seq<byte>, offset: nat, b: Bytes): (r: seq<byte>)
    requires offset + |b| <= |h|
    ensures |r| == |h|
  {
    h[..offset] + b + h[offset + |b|..]
  }

  lemma PieceAfterPut(h: seq<byte>, offset: nat, b: Bytes, o: nat, len: nat)
    requires offset + |b| <= |h| && o + len <= |h|
    ensures Separate(o, len, offset, |b|) ==> Piece(PutBytes(h, offset, b), o, len) == Piece(h, o, len)
    ensures offset <= o && o + len <= offset + |b| ==>
            Piece(PutBytes(h, offset, b), o, len) == b[o - offset..o - offset + len]
  {
    var h' := PutBytes(h, offset, b);
    forall i | 0 <= i < |h| ensures h'[i] == if offset <= i < offset + |b| then b[i - offset] else h[i] {}
    if offset <= o && o + len <= offset + |b| {
      assert forall i | 0 <= i < len :: Piece(h', o, len)[i] == b[o - offset..o - offset + len][i];
    }
    if Separate(o, len, offset, |b|) {
      assert forall i | 0 <= i < len :: Piece(h', o, len)[i] == Piece(h, o, len)[i];
    }
  }

  /** g' is g with one more entry, written just below the data and entered at slot `at`. */
  ghost predicate StoredIn(g: Image, g': Image, n: nat, at: nat, rest: Bytes, pay: Bytes) {
    && Shape(g, n) && at <= n && n < MAX_SLOTS
    && HEADER_SIZE + SLOT_SIZE * (n + 1) <= g.dataOffset - |rest| - |pay|
    && g' == g.(dataOffset := g.dataOffset - |rest| - |pay|, spaceUsed := g.spaceUsed + |rest| + |pay|,
                heap := PutBytes(g.heap, g.dataOffset - |rest| - |pay|, rest + pay), slots := g'.slots,
                    count := g'.count)
    && |g'.slots| == MAX_SLOTS
    && (forall i | 0 <= i < at :: g'.slots[i] == g.slots[i])
    && g'.slots[at] == Slot(g.dataOffset - |rest| - |pay|, |rest|, |pay|, Head(rest))
    && (forall i | at < i <= n :: g'.slots[i] == g.slots[i - 1])
  }

  /** Slot i of the page before the entry at `at` was stored. */
  function Before(at: nat, i: nat): nat
    requires i != at
  {
    if i < at then i else i - 1
  }

  lemma StoredOther(g: Image, g': Image, n: nat, at: nat, rest: Bytes, pay: Bytes, i: nat)
    requires StoredIn(g, g', n, at, rest, pay) && i <= n && i != at
    ensures g'.slots[i] == g.slots[Before(at, i)] && SlotInHeap(g, g'.slots[i]) && SlotInHeap(g', g'.slots[i])
    ensures Rest(g', g'.slots[i]) == Rest(g, g'.slots[i]) && Payload(g', g'.slots[i]) == Payload(g, g'.slots[i])
  {
    var s := g.slots[Before(at, i)];
    assert SlotInHeap(g, s);
    PieceAfterPut(g.heap, g'.dataOffset, rest + pay, s.offset, s.keyLen);
    PieceAfterPut(g.heap, g'.dataOffset, rest + pay, s.offset + s.keyLen, s.payLen);
  }

  lemma StoredShape(g: Image, g': Image, n: nat, at: nat, rest: Bytes, pay: Bytes)
    requires StoredIn(g, g', n, at, rest, pay)
    ensures Shape(g', n + 1)
    ensures LowerKey(g') == LowerKey(g) && UpperKey(g') == UpperKey(g)
    ensures Rest(g', g'.slots[at]) == rest && Payload(g', g'.slots[at]) == pay
  {
    var d, b := g'.dataOffset, rest + pay;
    PieceAfterPut(g.heap, d, b, g.lower.offset, g.lower.len);
    PieceAfterPut(g.heap, d, b, g.upper.offset, g.upper.len);
    PieceAfterPut(g.heap, d, b, d, |rest|);
    PieceAfterPut(g.heap, d, b, d + |rest|, |pay|);
    assert b[..|rest|] == rest && b[|rest|..] == pay;
    forall i | 0 <= i < n + 1 ensures SlotInHeap(g', g'.slots[i]) {
      if i != at { StoredOther(g, g', n, at, rest, pay, i); }
    }
  }

  lemma StoredMeaning(g: Image, g': Image, n: nat, at: nat, rest: Bytes, pay: Bytes)
    requires StoredIn(g, g', n, at, rest, pay)
    ensures Shape(g', n + 1)
    ensures Meaning(g', n + 1) == InsertAt(Meaning(g, n), at, KeyPrefix(g) + rest, pay)
  {
    hide PutBytes, Piece, InHeap;
    StoredShape(g, g', n, at, rest, pay);
    var m, m' := Meaning(g, n), Meaning(g', n + 1);
    var e := InsertAt(m, at, KeyPrefix(g) + rest, pay);
    forall i | 0 <= i <= n ensures m'.keys[i] == e.keys[i] && m'.pays[i] == e.pays[i] {
      if i != at {
        StoredOther(g, g', n, at, rest, pay, i);
        assert e.keys[i] == m.keys[Before(at, i)] && e.pays[i] == m.pays[Before(at, i)];
      }
    }
    assert m'.keys == e.keys && m'.pays == e.pays;
  }

  lemma StoredDisjoint(g: Image, g': Image, n: nat, at: nat, rest: Bytes, pay: Bytes)
    requires StoredIn(g, g', n, at, rest, pay) && Disjoint(g, n)
    ensures Disjoint(g', n + 1)
  {
    forall i, j | 0 <= i < j < n + 1
      ensures Separate(g'.slots[i].offset, SlotLen(g'.slots[i]), g'.slots[j].offset, SlotLen(g'.slots[j]))
    {
      var a, b := if i < at then i else i - 1, if j < at then j else j - 1;
      if i != at && j != at {
        assert g'.slots[i] == g.slots[a] && g'.slots[j] == g.slots[b];
      }
    }
  }

  /** Storing an entry keeps the page legal and adds exactly that entry. */
  lemma StoredKeeps(g: Image, g': Image, n: nat, at: nat, rest: Bytes, pay: Bytes)
    requires StoredIn(g, g', n, at, rest, pay) && Layout(g, n)
    ensures Layout(g', n + 1)
    ensures Meaning(g', n + 1) == InsertAt(Meaning(g, n), at, KeyPrefix(g) + rest, pay)
    ensures Compact(g) ==> Compact(g')
  {
    StoredShape(g, g', n, at, rest, pay);
    StoredMeaning(g, g', n, at, rest, pay);
    StoredDisjoint(g, g', n, at, rest, pay);
    InsertSpace(Meaning(g, n), at, KeyPrefix(g) + rest, pay);
    assert SpaceUsed(Meaning(g', n + 1)) == SpaceUsed(Meaning(g, n)) + |rest| + |pay|;
    forall i | 0 <= i < n + 1 ensures g'.slots[i].head == Head(Rest(g', g'.slots[i])) {
      if i != at { StoredOther(g, g', n, at, rest, pay, i); }
    }
  }

  // ---------------------------------------------------------------- removing a slot

  ghost predicate RemovedFrom(g: Image, g': Image, n: nat, at: nat) {
    && Shape(g, n) && at < n
    && g' == g.(spaceUsed := g.spaceUsed - SlotLen(g.slots[at]), slots := g'.slots, count := g'.count)
    && |g'.slots| == MAX_SLOTS
    && (forall i | 0 <= i < at :: g'.slots[i] == g.slots[i])
    && (forall i | at <= i < n - 1 :: g'.slots[i] == g.slots[i + 1])
  }

  lemma RemovedKeeps(g: Image, g': Image, n: nat, at: nat)
    requires RemovedFrom(g, g', n, at) && Layout(g, n)
    ensures Layout(g', n - 1)
    ensures Meaning(g', n - 1) == RemoveAt(Meaning(g, n), at)
  {
    RemovedMeaning(g, g', n, at);
    RemovedDisjoint(g, g', n, at);
    RemoveSpace(Meaning(g, n), at);
    assert SpaceUsed(Meaning(g', n - 1)) == SpaceUsed(Meaning(g, n)) - SlotLen(g.slots[at]);
    forall i | 0 <= i < n - 1 ensures g'.slots[i].head == Head(Rest(g', g'.slots[i])) {
      assert g'.slots[i] == g.slots[if i < at then i else i + 1];
    }
  }

  lemma RemovedMeaning(g: Image, g': Image, n: nat, at: nat)
    requires RemovedFrom(g, g', n, at)
    ensures Shape(g', n - 1) && Meaning(g', n - 1) == RemoveAt(Meaning(g, n), at)
  {
    forall i | 0 <= i < n - 1 ensures SlotInHeap(g', g'.slots[i]) {
      assert g'.slots[i] == g.slots[if i < at then i else i + 1];
    }
    var m', e := Meaning(g', n - 1), RemoveAt(Meaning(g, n), at);
    assert m'.keys == e.keys && m'.pays == e.pays;
  }

  lemma RemovedDisjoint(g: Image, g': Image, n: nat, at: nat)
    requires RemovedFrom(g, g', n, at) && Disjoint(g, n)
    ensures Disjoint(g', n - 1)
  {
    forall i, j | 0 <= i < j < n - 1
      ensures Separate(g'.slots[i].offset, SlotLen(g'.slots[i]), g'.slots[j].offset, SlotLen(g'.slots[j]))
    {
      var a, b := if i < at then i else i + 1, if j < at then j else j + 1;
      assert g'.slots[i] == g.slots[a] && g'.slots[j] == g.slots[b];
    }
  }

  // ---------------------------------------------------------------- overwriting a payload

  /** The payload of slot `at` is overwritten in place by as many bytes. */
  ghost predicate Overwritten(g: Image, g': Image, n: nat, at: nat, pay: Bytes) {
    && Shape(g, n) && at < n && |pay| == g.slots[at].payLen
    && g' == g.(heap := PutBytes(g.heap, g.slots[at].offset + g.slots[at].keyLen, pay))
  }

  /** Because pieces are disjoint, nothing else on the page changes. */
  lemma OverwrittenKeeps(g: Image, g': Image, n: nat, at: nat, pay: Bytes)
    requires Overwritten(g, g', n, at, pay) && Layout(g, n)
    ensures Layout(g', n)
    ensures Meaning(g', n) == Meaning(g, n).(pays := Meaning(g, n).pays[at := pay])
  {
    OverwrittenFences(g, g', n, at, pay);
    OverwrittenMeaning(g, g', n, at, pay);
    SameLengthSpace(Meaning(g, n), at, pay);
  }

  lemma OverwrittenFences(g: Image, g': Image, n: nat, at: nat, pay: Bytes)
    requires Overwritten(g, g', n, at, pay) && Disjoint(g, n)
    ensures Shape(g', n) && Disjoint(g', n)
    ensures LowerKey(g') == LowerKey(g) && UpperKey(g') == UpperKey(g)
  {
    var o := g.slots[at].offset + g.slots[at].keyLen;
    PieceAfterPut(g.heap, o, pay, g.lower.offset, g.lower.len);
    PieceAfterPut(g.heap, o, pay, g.upper.offset, g.upper.len);
  }

  lemma SameLengthSpace(m: Node, at: nat, b: Bytes)
    requires at < |m.pays| && |b| == |m.pays[at]|
    ensures SpaceUsed(m.(pays := m.pays[at := b])) == SpaceUsed(m)
  {
    var s := m.pays;
    TotalLenSplit(s, at);
    TotalLenSplit(s[at := b], at);
    assert s[at := b][..at] == s[..at] && s[at := b][at..][1..] == s[at..][1..];
  }

  lemma OverwrittenMeaning(g: Image, g': Image, n: nat, at: nat, pay: Bytes)
    requires Overwritten(g, g', n, at, pay) && Disjoint(g, n) && Shape(g', n)
    requires LowerKey(g') == LowerKey(g) && UpperKey(g') == UpperKey(g)
    ensures Meaning(g', n) == Meaning(g, n).(pays := Meaning(g, n).pays[at := pay])
    ensures HeadsOk(g, n) ==> HeadsOk(g', n)
  {
    var m, m' := Meaning(g, n), Meaning(g', n);
    forall i | 0 <= i < n
      ensures Rest(g', g'.slots[i]) == Rest(g, g.slots[i]) && m'.keys[i] == m.keys[i]
              && m'.pays[i] == m.pays[at := pay][i]
    {
      OverwrittenSlot(g, g', n, at, pay, i);
    }
    assert m'.keys == m.keys && m'.pays == m.pays[at := pay];
  }

  lemma SlotsApart(g: Image, n: nat, a: nat, b: nat)
    requires |g.slots| == MAX_SLOTS && n <= MAX_SLOTS && Disjoint(g, n) && a < n && b < n && a != b
    ensures Separate(g.slots[a].offset, SlotLen(g.slots[a]), g.slots[b].offset, SlotLen(g.slots[b]))
  {
    var i, j := if a < b then a else b, if a < b then b else a;
    assert Separate(g.slots[i].offset, SlotLen(g.slots[i]), g.slots[j].offset, SlotLen(g.slots[j]));
  }

  lemma OverwrittenSlot(g: Image, g': Image, n: nat, at: nat, pay: Bytes, i: nat)
    requires Overwritten(g, g', n, at, pay) && Disjoint(g, n) && i < n
    ensures Rest(g', g.slots[i]) == Rest(g, g.slots[i])
    ensures Payload(g', g.slots[i]) == if i == at then pay else Payload(g, g.slots[i])
  {
    hide PutBytes, Piece, Separate;
    if i != at { SlotsApart(g, n, at, i); }
    OverwrittenPiece(g.heap, g.slots[at], g.slots[i], pay, i == at);
  }

  /** Overwriting the payload of slot s leaves the pieces of any other slot t alone. */
  lemma OverwrittenPiece(h: seq<byte>, s: Slot, t: Slot, pay: Bytes, same: bool)
    requires s.offset + s.keyLen + s.payLen <= |h| && t.offset + t.keyLen + t.payLen <= |h| && |pay| == s.payLen
    requires if same then s == t else Separate(s.offset, SlotLen(s), t.offset, SlotLen(t))
    ensures var h' := PutBytes(h, s.offset + s.keyLen, pay);
            && Piece(h', t.offset, t.keyLen) == Piece(h, t.offset, t.keyLen)
            && Piece(h', t.offset + t.keyLen, t.payLen) == if same then pay else Piece(h, t.offset + t.keyLen, t.payLen)
  {
    hide PutBytes, Piece;
    assert pay[0..|pay|] == pay;
    PieceAfterPut(h, s.offset + s.keyLen, pay, t.offset, t.keyLen);
    PieceAfterPut(h, s.offset + s.keyLen, pay, t.offset + t.keyLen, t.payLen);
  }

  // ---------------------------------------------------------------- filling a page

  /** An entry is written just below the data and entered at slot `at`. */
  function Put(g: Image, at: nat, rest: Bytes, pay: Bytes): Image
    requires at < |g.slots| && |rest| + |pay| <= g.dataOffset <= |g.heap|
  {
    var d := g.dataOffset - |rest| - |pay|;
    g.(dataOffset := d, spaceUsed := g.spaceUsed + |rest| + |pay|, heap := PutBytes(g.heap, d, rest + pay),
       slots := g.slots[at := Slot(d, |rest|, |pay|, Head(rest))])
  }

  /** A key can be stored without its first bytes if those are the page's prefix. */
  predicate SharesPrefix(m: Node, k: Key) { Prefix(m) <= |k| && k[..Prefix(m)] == m.lower[..Prefix(m)] }

  lemma PrefixOfMeaning(g: Image, n: nat, k: Key)
    requires Layout(g, n) && SharesPrefix(Meaning(g, n), k)
    ensures g.prefixLen <= |k| && KeyPrefix(g) + k[g.prefixLen..] == k
  {}

  /** There is room for an entry where the accounts say so, once all free space is in one piece. */
  lemma RoomToPut(g: Image, n: nat, rest: Bytes, pay: Bytes)
    requires Layout(g, n) && Compact(g) && SLOT_SIZE + |rest| + |pay| <= Free(Meaning(g, n))
    ensures n < MAX_SLOTS && HEADER_SIZE + SLOT_SIZE * (n + 1) <= g.dataOffset - |rest| - |pay|
  {}

  lemma PutAppends(g: Image, n: nat, k: Key, pay: Bytes)
    requires Layout(g, n) && Compact(g) && SharesPrefix(Meaning(g, n), k) && HasSpaceFor(Meaning(g, n), |k|, |pay|)
    ensures g.prefixLen <= |k| && n < MAX_SLOTS && |k| - g.prefixLen + |pay| <= g.dataOffset
    ensures var g' := Put(g, n, k[g.prefixLen..], pay);
            Layout(g', n + 1) && Compact(g') && Meaning(g', n + 1) == InsertAt(Meaning(g, n), n, k, pay)
  {
    PrefixOfMeaning(g, n, k);
    var rest := k[g.prefixLen..];
    RoomToPut(g, n, rest, pay);
    StoredKeeps(g, Put(g, n, rest, pay), n, n, rest, pay);
  }

  /** A page that has only its fences. */
  function Fenced(g: Image, lower: Key, upper: Key): Image
    requires |g.heap| == PAGE_SIZE && |lower| + |upper| <= PAGE_SIZE
  {
    var a, b := PAGE_SIZE - |lower|, PAGE_SIZE - |lower| - |upper|;
    g.(lower := FenceSlot(a, |lower|), upper := FenceSlot(b, |upper|), dataOffset := b, spaceUsed := |lower| + |upper|,
       prefixLen := Common(lower, upper), heap := PutBytes(PutBytes(g.heap, a, lower), b, upper))
  }

  lemma FencedKeeps(g: Image, lower: Key, upper: Key)
    requires |g.heap| == PAGE_SIZE && |g.slots| == MAX_SLOTS && |lower| + |upper| <= PAGE_SIZE - HEADER_SIZE
    ensures var g' := Fenced(g, lower, upper);
            Layout(g', 0) && Compact(g') && Meaning(g', 0) == Node(g.isLeaf, lower, upper, [], [], g.ext)
  {
    var a, b := PAGE_SIZE - |lower|, PAGE_SIZE - |lower| - |upper|;
    hide PutBytes;
    var g' := Fenced(g, lower, upper);
    assert lower[0..|lower|] == lower && upper[0..|upper|] == upper;
    PieceAfterPut(g.heap, a, lower, a, |lower|);
    PieceAfterPut(PutBytes(g.heap, a, lower), b, upper, a, |lower|);
    PieceAfterPut(PutBytes(g.heap, a, lower), b, upper, b, |upper|);
    assert LowerKey(g') == lower && UpperKey(g') == upper;
    assert Meaning(g', 0) == Node(g.isLeaf, lower, upper, [], [], g.ext);
  }

  /** m with the entries from..to of n behind its own. */
  function Extended(m: Node, n: Node, from: nat, to: nat): Node
    requires |n.keys| == |n.pays| && from <= to <= |n.keys|
  {
    m.(keys := m.keys + n.keys[from..to], pays := m.pays + n.pays[from..to])
  }

  lemma ExtendOne(m: Node, n: Node, from: nat, to: nat)
    requires |n.keys| == |n.pays| && from <= to < |n.keys| && |m.keys| == |m.pays|
    ensures InsertAt(Extended(m, n, from, to), |m.keys| + to - from, n.keys[to], n.pays[to])
            == Extended(m, n, from, to + 1)
  {
    var e, c := Extended(m, n, from, to), |m.keys| + to - from;
    assert e.keys[..c] == e.keys && e.keys[c..] == [] && e.pays[..c] == e.pays && e.pays[c..] == [];
    assert n.keys[from..to] + [n.keys[to]] == n.keys[from..to + 1]
        && n.pays[from..to] + [n.pays[to]] == n.pays[from..to + 1];
    assert m.keys + n.keys[from..to] + [n.keys[to]] == m.keys + n.keys[from..to + 1];
    assert m.pays + n.pays[from..to] + [n.pays[to]] == m.pays + n.pays[from..to + 1];
  }

  /** If all the entries fit, each of them fits when its turn comes. */
  lemma {:induction false} ExtendRoom(m: Node, n: Node, from: nat, to: nat, end: nat)
    requires |n.keys| == |n.pays| && from <= to < end <= |n.keys| && |m.keys| == |m.pays|
    requires forall i | from <= i < end :: Prefix(m) <= |n.keys[i]|
    requires Free(Extended(m, n, from, end)) >= 0
    ensures HasSpaceFor(Extended(m, n, from, to), |n.keys[to]|, |n.pays[to]|)
    decreases end - to
  {
    ExtendOne(m, n, from, to);
    InsertSpace(Extended(m, n, from, to), |m.keys| + to - from, n.keys[to], n.pays[to]);
    if to + 1 < end { ExtendRoom(m, n, from, to + 1, end); }
  }

  /** A page's count and its extra page id can change without touching what it stores. */
  lemma HeaderIsFree(g: Image, g': Image, n: nat)
    requires Layout(g, n) && g' == g.(count := g'.count, ext := g'.ext)
    ensures Layout(g', n) && Meaning(g', n) == Meaning(g, n).(ext := g'.ext)
    ensures Compact(g) ==> Compact(g')
  {
    assert Meaning(g', n).keys == Meaning(g, n).keys && Meaning(g', n).pays == Meaning(g, n).pays;
  }

  // ---------------------------------------------------------------- inserting and removing

  /** Makes room for a slot at `at`. */
  function ShiftUp(slots: seq<Slot>, at: nat, n: nat): (r: seq<Slot>)
    requires at <= n < |slots|
    ensures |r| == |slots|
  {
    seq(|slots|, i requires 0 <= i < |slots| => if at < i <= n then slots[i - 1] else slots[i])
  }

  /** Drops the slot at `at`. */
  function ShiftDown(slots: seq<Slot>, at: nat, n: nat): (r: seq<Slot>)
    requires at < n <= |slots|
    ensures |r| == |slots|
  {
    seq(|slots|, i requires 0 <= i < |slots| => if at <= i < n - 1 then slots[i + 1] else slots[i])
  }

  function InsertedImage(g: Image, at: nat, key: Key, pay: Bytes): Image
    requires at <= g.count < |g.slots| && g.prefixLen <= |key|
             && |key| - g.prefixLen + |pay| <= g.dataOffset <= |g.heap|
  {
    Put(g.(slots := ShiftUp(g.slots, at, g.count)), at, key[g.prefixLen..], pay).(count := g.count + 1)
  }

  lemma InsertedImageKeeps(g: Image, at: nat, key: Key, pay: Bytes)
    requires Layout(g, g.count) && at <= g.count && SharesPrefix(Meaning(g, g.count), key)
    requires HEADER_SIZE + SLOT_SIZE * (g.count + 1) <= g.dataOffset - (|key| - g.prefixLen) - |pay|
    ensures g.prefixLen <= |key| && g.count < MAX_SLOTS && |key| - g.prefixLen + |pay| <= g.dataOffset <= |g.heap|
    ensures var g' := InsertedImage(g, at, key, pay);
            Layout(g', g'.count) && Meaning(g', g'.count) == InsertAt(Meaning(g, g.count), at, key, pay)
  {
    hide Layout, StoredIn, SharesPrefix, InsertAt;
    PrefixOfMeaning(g, g.count, key);
    HasShape(g, g.count);
    InsertedIsStored(g, at, key, pay);
    StoredKeeps(g, InsertedImage(g, at, key, pay), g.count, at, key[g.prefixLen..], pay);
  }

  lemma HasShape(g: Image, n: nat)
    requires Layout(g, n)
    ensures Shape(g, n) && Disjoint(g, n) && HeadsOk(g, n)
  {}

  lemma InsertedIsStored(g: Image, at: nat, key: Key, pay: Bytes)
    requires Shape(g, g.count) && at <= g.count < MAX_SLOTS && g.prefixLen <= |key|
    requires HEADER_SIZE + SLOT_SIZE * (g.count + 1) <= g.dataOffset - (|key| - g.prefixLen) - |pay|
    ensures StoredIn(g, InsertedImage(g, at, key, pay), g.count, at, key[g.prefixLen..], pay)
  {}

  function RemovedImage(g: Image, at: nat): Image
    requires at < g.count <= |g.slots|
  {
    g.(spaceUsed := g.spaceUsed - SlotLen(g.slots[at]), slots := ShiftDown(g.slots, at, g.count), count := g.count - 1)
  }

  lemma RemovedImageKeeps(g: Image, at: nat)
    requires Layout(g, g.count) && at < g.count
    ensures |g.slots| == MAX_SLOTS >= g.count
    ensures var g' := RemovedImage(g, at);
            Layout(g', g'.count) && Meaning(g', g'.count) == RemoveAt(Meaning(g, g.count), at)
  {
    hide Layout, RemovedFrom, RemoveAt;
    HasShape(g, g.count);
    RemovedIsRemoved(g, at);
    RemovedKeeps(g, RemovedImage(g, at), g.count, at);
  }

  lemma RemovedIsRemoved(g: Image, at: nat)
    requires Shape(g, g.count) && at < g.count
    ensures RemovedFrom(g, RemovedImage(g, at), g.count, at)
  {}
}
