/** What the page operations ask of their callers follows from the tree's invariant. */
module PageCalls {
  import opened Lex
  import opened Nodes
  import opened Splitting
  import opened Trees
  import opened TreeChanges
  import opened TreeSpace
  import opened PageImage
  import opened Pages

  /** Every page of the tree can be written down as 4096 bytes. */
  lemma PagesCanBeStored(t: Tree, p: PID)
    requires Inv(t) && Spacious(t) && p in t.pages
    ensures exists g :: IsImageOf(g, t.pages[p])
  {
    hide IsImageOf;
    assert Fits(t, p);
    FitsPageIff(t.pages[p]);
  }

  /** insertInPage: the key has the prefix that is cut off. */
  lemma InsertAllowed(t: Tree, p: PID, k: Key)
    requires Inv(t) && p in t.pages && Covers(t.pages[p], k)
    ensures Sorted(t.pages[p].keys) && SharesPrefix(t.pages[p], k)
  {
    CoveredSharesPrefix(t.pages[p], k);
  }

  /** findSeparator and getSep: the slots exist, and the separator is no shorter than the prefix. */
  lemma SeparatorAllowed(t: Tree, p: PID, ordered: bool)
    requires Inv(t) && p in t.pages && |t.pages[p].keys| > 1
    ensures var n, info := t.pages[p], FindSeparator(t.pages[p], ordered);
            && info.slot + (if info.truncated then 1 else 0) < |n.keys|
            && Prefix(n) <= info.len <= |n.keys[info.slot + (if info.truncated then 1 else 0)]|
  {
    hide Common;
    var n, info := t.pages[p], FindSeparator(t.pages[p], ordered);
    KeysSharePrefix(n);
    if info.truncated { SharedAtMostCommon(n.keys[info.slot], n.keys[info.slot + 1], Prefix(n)); }
  }

  /** splitNode: both halves fit, and the separator belongs into the parent, in front of the page's slot. */
  lemma SplitAllowed(t: Tree, par: PID, i: nat, node: PID, ordered: bool, newPid: PID)
    requires Inv(t) && Spacious(t) && par in t.pages && !t.pages[par].isLeaf && i <= |t.pages[par].keys|
    requires Child(t.pages[par], i) == node && node in t.pages && |t.pages[node].keys| > 1
    requires FindSeparator(t.pages[node], ordered).slot > 0
    requires Free(SplitLeft(t.pages[node], FindSeparator(t.pages[node], ordered).slot,
             Separator(t.pages[node], ordered), newPid)) >= 0
    ensures var sep := Separator(t.pages[node], ordered);
            && CanHalve(t.pages[node], FindSeparator(t.pages[node], ordered).slot, sep, newPid)
            && WF(t.pages[par]) && Covers(t.pages[par], sep) && Next(t.pages[par], sep) == node
  {
    hide Free, SplitLeft, SplitRight, Rank, LevelsApart, ChainOk;
    var n, slot, sep := t.pages[node], FindSeparator(t.pages[node], ordered).slot, Separator(t.pages[node], ordered);
    assert Fits(t, node) && Linked(t, par, i);
    SeparatorIsSplitPoint(n, ordered);
    RightFits(n, ordered);
    HalvesAreHalves(n, slot, sep, newPid);
    SeparatorSlot(t.pages[par], i, sep);
    InsideIsCovered(t.pages[par], sep);
  }

  lemma InsideIsCovered(n: Node, k: Key)
    requires StrictlyInside(k, n.lower, n.upper)
    ensures Covers(n, k)
  {}

  /** mergeNodes: the pages are neighbours, and the outer fences fit a page together. */
  lemma MergeAllowed(t: Tree, par: PID, pos: nat, node: PID, right: PID)
    requires Spacious(t) && CanMerge(t, par, pos, node, right)
    ensures Adjacent(t.pages[node], t.pages[right]) && WF(t.pages[par])
    ensures |t.pages[node].lower| + |t.pages[right].upper| <= 2 * MAX_KV_SIZE <= PAGE_SIZE - HEADER_SIZE
  {
    MergePagesIsMerge(t, par, pos, node, right);
    assert BoundedAt(t, node, MAX_KV_SIZE) && BoundedAt(t, right, MAX_KV_SIZE);
  }
}
