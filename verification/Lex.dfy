/** Byte-string keys and their order: memcmp on the common part, then length. */
module Lex {

  type byte = x: int | 0 <= x < 256
  type Bytes = seq<byte>
  type Key = Bytes

  /** Lexicographic order, written out byte by byte. */
  predicate LexLess(a: Key, b: Key) {
    b != [] &&
    (a == [] || a[0] < b[0] || (a[0] == b[0] && LexLess(a[1..], b[1..])))
  }

  /** Position of a key on the real line. Proofs compare positions, so that the
      order's algebra is plain arithmetic; `LessIsLexicographic` ties it to `LexLess`. */
  ghost function Rank(s: Key): (r: real)
    ensures 0.0 <= r < 1.0
    ensures r == 0.0 <==> s == []
  {
    if s == [] then 0.0 else (s[0] as real + 1.0 + Rank(s[1..])) / 257.0
  }

  ghost predicate Less(a: Key, b: Key) { Rank(a) < Rank(b) }

  ghost predicate AtMost(a: Key, b: Key) { Rank(a) <= Rank(b) }

  lemma {:induction false} LessIsLexicographic(a: Key, b: Key)
    ensures Less(a, b) <==> LexLess(a, b)
  {
    if a != [] && b != [] {
      LessIsLexicographic(a[1..], b[1..]);
    }
  }

  lemma {:induction false} RankInjective(a: Key, b: Key)
    requires Rank(a) == Rank(b)
    ensures a == b
  {
    if a != [] && b != [] {
      assert a[0] == b[0];
      RankInjective(a[1..], b[1..]);
      assert a == [a[0]] + a[1..] && b == [b[0]] + b[1..];
    }
  }

  /** A shared prefix does not influence the comparison. */
  lemma {:induction false} PrefixCancels(p: Key, a: Key, b: Key)
    ensures Less(p + a, p + b) <==> Less(a, b)
  {
    if p == [] {
      assert p + a == a && p + b == b;
    } else {
      PrefixCancels(p[1..], a, b);
      assert (p + a)[1..] == p[1..] + a && (p + b)[1..] == p[1..] + b;
    }
  }

  lemma {:induction false} ProperPrefixLess(p: Key, a: Key)
    requires p <= a && p != a
    ensures Less(p, a)
  {
    PrefixCancels(p, [], a[|p|..]);
    assert p + [] == p && p + a[|p|..] == a;
  }

  /** Length of the longest common prefix. */
  function Common(a: Bytes, b: Bytes): (c: nat)
    ensures c <= |a| && c <= |b|
    ensures a[..c] == b[..c]
    ensures c < |a| && c < |b| ==> a[c] != b[c]
  {
    if a == [] || b == [] || a[0] != b[0] then 0
    else
      var c := 1 + Common(a[1..], b[1..]);
      assert a[..c] == [a[0]] + a[1..][..c-1] && b[..c] == [b[0]] + b[1..][..c-1];
      c
  }

  lemma AgreeBelow(a: Bytes, b: Bytes, c: nat)
    requires c <= |a| && c <= |b| && a[..c] == b[..c]
    ensures forall i | 0 <= i < c :: a[i] == b[i]
  {
    forall i | 0 <= i < c ensures a[i] == b[i] {
      assert a[..c][i] == a[i] && b[..c][i] == b[i];
    }
  }

  lemma {:induction false} CommonUnique(a: Bytes, b: Bytes, c: nat)
    requires c <= |a| && c <= |b| && a[..c] == b[..c]
    requires c < |a| && c < |b| ==> a[c] != b[c]
    ensures Common(a, b) == c
  {
    AgreeBelow(a, b, Common(a, b));
    AgreeBelow(a, b, c);
  }

  /** memcmp on equally long buffers: negative, zero or positive. */
  function MemCmp(a: Bytes, b: Bytes): (r: int)
    requires |a| == |b|
    ensures r < 0 <==> Less(a, b)
    ensures r > 0 <==> Less(b, a)
    ensures r == 0 <==> a == b
  {
    var c := Common(a, b);
    if c == |a| then
      assert a == a[..c] && b == b[..c];
      0
    else
      FirstDifference(a, b, c);
      a[c] as int - b[c] as int
  }

  lemma {:induction false} FirstDifference(a: Bytes, b: Bytes, c: nat)
    requires c < |a| && c < |b| && a[..c] == b[..c] && a[c] != b[c]
    ensures Less(a, b) <==> a[c] < b[c]
    ensures a != b
    ensures Less(b, a) <==> b[c] < a[c]
  {
    PrefixCancels(a[..c], a[c..], b[c..]);
    PrefixCancels(a[..c], b[c..], a[c..]);
    assert a[..c] + a[c..] == a && a[..c] + b[c..] == b;
  }

  /** Whatever lies between two strings starts with their common prefix. */
  lemma {:induction false} BetweenSharesPrefix(a: Key, k: Key, b: Key)
    requires AtMost(a, k) && AtMost(k, b)
    ensures Common(a, b) <= |k| && k[..Common(a, b)] == a[..Common(a, b)]
  {
    var c := Common(a, b);
    if c > 0 {
      assert k != [] && k[0] == a[0];
      BetweenSharesPrefix(a[1..], k[1..], b[1..]);
      assert k[..c] == [k[0]] + k[1..][..c-1] && a[..c] == [a[0]] + a[1..][..c-1];
    }
  }

  /** Moving both ends towards each other only lengthens the common prefix. */
  lemma {:induction false} NestedPrefix(a: Key, b: Key, c: Key)
    requires AtMost(a, b) && AtMost(b, c)
    ensures Common(a, c) <= Common(a, b)
    ensures Common(a, c) <= Common(b, c)
  {
    BetweenSharesPrefix(a, b, c);
    var p := Common(a, c);
    SharedAtMostCommon(a, b, p);
    SharedAtMostCommon(b, c, p);
  }

  lemma {:induction false} SharedAtMostCommon(a: Bytes, b: Bytes, p: nat)
    requires p <= |a| && p <= |b| && a[..p] == b[..p]
    ensures p <= Common(a, b)
  {
    AgreeBelow(a, b, p);
  }
}
