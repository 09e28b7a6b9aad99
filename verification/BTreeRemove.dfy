/**
 What a removal keeps, for every key: balance and occupancy, the key caches, and all entries but at
 most one; and the order of recut and joined neighbours.
 */
module BTreeRemove {
  import opened BTreeModel
  import opened BTreeInsert
  import opened BTreeInsertLinks
  import opened BTreeSearch
  import opened BTreeRemoveModel

  // ---------------------------------------------------------------- balance and caches

  lemma {:induction false} ShiftRightBalanced(d: nat, h: nat, l: Tree, sep: Key, r: Tree)
    requires d >= 2 && Balanced(d, h, l, d) && Balanced(d, h, r, d - 1) && Size(r) == d - 1
    requires Synced(l) && Synced(r)
    ensures l.Leaf? <==> r.Leaf?
    ensures var s := ShiftRight(l, sep, r);
            && Balanced(d, h, s.left, d - 1) && Balanced(d, h, s.right, d) && Synced(s.left) && Synced(s.right)
  {
  }

  lemma {:induction false} ShiftLeftBalanced(d: nat, h: nat, l: Tree, sep: Key, r: Tree)
    requires d >= 2 && Balanced(d, h, r, d) && Balanced(d, h, l, d - 1) && Size(l) == d - 1
    requires Synced(l) && Synced(r)
    ensures l.Leaf? <==> r.Leaf?
    ensures var s := ShiftLeft(l, sep, r);
            && Balanced(d, h, s.left, d) && Balanced(d, h, s.right, d - 1) && Synced(s.left) && Synced(s.right)
  {
  }

  lemma {:induction false} JoinBalanced(d: nat, h: nat, l: Tree, sep: Key, r: Tree)
    requires d >= 2 && Balanced(d, h, l, d - 1) && Balanced(d, h, r, d - 1)
    requires Size(l) == d - 1 && Size(r) == d - 1 && Synced(l) && Synced(r)
    ensures l.Leaf? <==> r.Leaf?
    ensures Balanced(d, h, Join(l, sep, r), d) && Synced(Join(l, sep, r))
  {
  }

  lemma {:induction false} WithPairBalanced(d: nat, h: nat, p: Tree, i: nat, s: Halves)
    requires Balanced(d, h, p, 1) && Synced(p) && p.Inner? && i + 1 < |p.children|
    requires Balanced(d, h - 1, s.left, d - 1) && Balanced(d, h - 1, s.right, d - 1) && Synced(s.left)
               && Synced(s.right)
    ensures Balanced(d, h, WithPair(p, i, s), Size(p)) && Synced(WithPair(p, i, s))
  {
  }

  lemma {:induction false} WithJoinedBalanced(d: nat, h: nat, p: Tree, i: nat, c: Tree)
    requires Balanced(d, h, p, 1) && Synced(p) && p.Inner? && i + 1 < |p.children|
    requires Balanced(d, h - 1, c, d - 1) && Synced(c)
    ensures Balanced(d, h, WithJoined(p, i, c), Size(p) - 1) && Synced(WithJoined(p, i, c))
  {
    var cs := WithJoined(p, i, c).children;
    forall j | 0 <= j < |cs|
      ensures Balanced(d, h - 1, cs[j], d - 1) && Synced(cs[j])
    {
      assert cs[j] == if j < i then p.children[j] else if j == i then c else p.children[j + 1];
    }
  }

  /** The step before a descent: the child taken has an entry to spare, the node loses at most one separator. */
  ghost predicate TurnReady(d: nat, h: nat, t: Tree, r: Turn) {
    && r.node.Inner? && r.child < |r.node.children| && r.node.id == t.id
    && Balanced(d, h, r.node, Size(t) - 1) && Size(r.node) <= Size(t) && Synced(r.node)
    && h > 0 && Balanced(d, h - 1, r.node.children[r.child], d) && Synced(r.node.children[r.child])
  }

  lemma {:induction false} BorrowPrevPrepared(d: nat, h: nat, t: Tree, i: nat, k: Key)
    requires d >= 2 && t.Inner? && Balanced(d, h, t, 1) && Synced(t) && Siblings(d, t)
    requires 0 < i < |t.children| && |t.children[i].keys| < d && |t.children[i - 1].keys| >= d
    ensures TurnReady(d, h, t, Turn(BorrowFromPrev(d, t, i), i, k, Borrow))
  {
    var l, r := t.children[i - 1], t.children[i];
    ChildFacts(d, h, t, i - 1);
    ChildFacts(d, h, t, i);
    ShiftRightBalanced(d, h - 1, l, t.keys[i - 1], r);
    WithPairBalanced(d, h, t, i - 1, ShiftRight(l, t.keys[i - 1], r));
  }

  lemma {:induction false} BorrowNextPrepared(d: nat, h: nat, t: Tree, i: nat, k: Key)
    requires d >= 2 && t.Inner? && Balanced(d, h, t, 1) && Synced(t) && Siblings(d, t)
    requires i + 1 < |t.children| && |t.children[i].keys| < d && |t.children[i + 1].keys| >= d
    ensures TurnReady(d, h, t, Turn(BorrowFromNext(d, t, i), i, k, Borrow))
  {
    var l, r := t.children[i], t.children[i + 1];
    ChildFacts(d, h, t, i);
    ChildFacts(d, h, t, i + 1);
    ShiftLeftBalanced(d, h - 1, l, t.keys[i], r);
    WithPairBalanced(d, h, t, i, ShiftLeft(l, t.keys[i], r));
  }

  lemma {:induction false} MergePrepared(d: nat, h: nat, t: Tree, i: nat, k: Key)
    requires d >= 2 && t.Inner? && Balanced(d, h, t, 1) && Synced(t) && Siblings(d, t)
    requires i + 1 < |t.children| && |t.children[i].keys| < d && |t.children[i + 1].keys| < d
    ensures TurnReady(d, h, t, Turn(Merge(d, t, i), i, k, Collapse))
  {
    var l, r := t.children[i], t.children[i + 1];
    ChildFacts(d, h, t, i);
    ChildFacts(d, h, t, i + 1);
    JoinBalanced(d, h - 1, l, t.keys[i], r);
    WithJoinedBalanced(d, h, t, i, Join(l, t.keys[i], r));
  }

  lemma {:induction false} ChildFacts(d: nat, h: nat, t: Tree, i: nat)
    requires t.Inner? && Balanced(d, h, t, 1) && Synced(t) && i < |t.children|
    ensures h > 0 && Balanced(d, h - 1, t.children[i], d - 1) && Synced(t.children[i])
    ensures |t.children[i].keys| == Size(t.children[i])
  {
  }

  lemma {:induction false} PrepareKeepsBalance(d: nat, h: nat, t: Tree, k: Key)
    requires d >= 2 && t.Inner? && Balanced(d, h, t, 1) && Synced(t)
    ensures Siblings(d, t) && TurnReady(d, h, t, Prepare(d, t, k))
  {
    BalancedSiblings(d, h, t);
    var i := LowerBound(t.keys, k);
    ChildFacts(d, h, t, i);
    if i < |t.keys| && t.keys[i] == k {
      ChildFacts(d, h, t, i + 1);
      if |t.children[i].keys| < d && |t.children[i + 1].keys| < d {
        MergePrepared(d, h, t, i, k);
      }
    } else if |t.children[i].keys| < d {
      BesidePrepared(d, h, t, i, k);
    }
  }

  lemma {:induction false} BesidePrepared(d: nat, h: nat, t: Tree, i: nat, k: Key)
    requires d >= 2 && t.Inner? && Balanced(d, h, t, 1) && Synced(t) && Siblings(d, t)
    requires i < |t.children| && |t.children[i].keys| < d
    ensures TurnReady(d, h, t, BesideSeparators(d, t, i, k))
  {
    if i > 0 && |t.children[i - 1].keys| >= d {
      BorrowPrevPrepared(d, h, t, i, k);
    } else if i + 1 < |t.children| && |t.children[i + 1].keys| >= d {
      BorrowNextPrepared(d, h, t, i, k);
    } else if i + 1 < |t.children| {
      MergePrepared(d, h, t, i, k);
    } else {
      MergePrepared(d, h, t, i - 1, k);
    }
  }

  // ---------------------------------------------------------------- removal

  /** Removes a key below a node. */
  ghost function RemoveFrom(d: nat, h: nat, t: Tree, k: Key): (t': Tree)
    requires d >= 2 && Balanced(d, h, t, RootMin(t)) && Synced(t)
    ensures t'.id == t.id && (t'.Leaf? <==> t.Leaf?)
    ensures Balanced(d, h, t', Size(t) - 1) && Size(t') <= Size(t) && Synced(t')
    decreases h
  {
    if t.Leaf? then RemoveFromLeaf(t, k)
    else
      PrepareKeepsBalance(d, h, t, k);
      var r := Prepare(d, t, k);
      BalancedMin(d, h - 1, r.node.children[r.child], d, RootMin(r.node.children[r.child]));
      var c := RemoveFrom(d, h - 1, r.node.children[r.child], r.key);
      WithChildBalanced(d, h, r.node, r.child, c, Size(t) - 1);
      WithChild(r.node, r.child, c)
  }

  lemma WithChildBalanced(d: nat, h: nat, p: Tree, j: nat, c: Tree, min: int)
    requires Balanced(d, h, p, min) && Synced(p) && p.Inner? && j < |p.children|
    requires h > 0 && Balanced(d, h - 1, c, d - 1) && Synced(c)
    ensures Balanced(d, h, WithChild(p, j, c), min) && Synced(WithChild(p, j, c))
  {
  }

  /** Removes a key from an index; an inner root left without separators gives way to its child. */
  ghost function Remove(d: nat, x: Index, k: Key): Index
    requires d >= 2 && (x.Rooted? ==> Balanced(d, Height(x.tree), x.tree, RootMin(x.tree)) && Synced(x.tree))
  {
    if x.Empty? then x
    else
      var t := RemoveFrom(d, Height(x.tree), x.tree, k);
      if t.Inner? && t.keys == [] then Rooted(t.children[0]) else Rooted(t)
  }

  // ---------------------------------------------------------------- contents

  lemma {:induction false} ShiftKeepsEntries(l: Tree, sep: Key, r: Tree)
    requires l.Leaf? <==> r.Leaf?
    ensures (if l.Leaf? then l.entries != [] else l.keys != [] && l.children != []) ==>
              var s := ShiftRight(l, sep, r); Entries(s.left) + Entries(s.right) == Entries(l) + Entries(r)
    ensures (if r.Leaf? then |r.entries| >= 2 else r.keys != [] && r.children != []) ==>
              var s := ShiftLeft(l, sep, r); Entries(s.left) + Entries(s.right) == Entries(l) + Entries(r)
    ensures Entries(Join(l, sep, r)) == Entries(l) + Entries(r)
  {
    if l.Inner? {
      hide EntriesOf;
      MoveKeepsEntries(l.children, r.children);
    }
  }

  /** Two lists of children with the last of the first, or the first of the second, moved across. */
  lemma {:induction false} MoveKeepsEntries(a: seq<Tree>, b: seq<Tree>)
    ensures EntriesOf(a + b) == EntriesOf(a) + EntriesOf(b)
    ensures a != [] ==> EntriesOf(a[..|a| - 1]) + EntriesOf([a[|a| - 1]] + b) == EntriesOf(a) + EntriesOf(b)
    ensures b != [] ==> EntriesOf(a + [b[0]]) + EntriesOf(b[1..]) == EntriesOf(a) + EntriesOf(b)
  {
    hide EntriesOf;
    EntriesOfConcat(a, b);
    if a != [] {
      var m := |a| - 1;
      EntriesOfConcat(a[..m], [a[m]] + b);
      assert a[..m] + ([a[m]] + b) == a + b;
    }
    if b != [] {
      EntriesOfConcat(a + [b[0]], b[1..]);
      assert (a + [b[0]]) + b[1..] == a + b;
    }
  }

  lemma {:induction false} EntriesOfPair(cs: seq<Tree>, i: nat)
    requires i + 1 < |cs|
    ensures EntriesOf(cs) == EntriesOf(cs[..i]) + (Entries(cs[i]) + Entries(cs[i + 1])) + EntriesOf(cs[i + 2..])
  {
    EntriesOfAt(cs, i);
    assert cs[i + 1..][0] == cs[i + 1] && cs[i + 1..][1..] == cs[i + 2..];
  }

  lemma {:induction false} WithPairEntries(p: Tree, i: nat, s: Halves)
    requires p.Inner? && i + 1 < |p.children| && i < |p.keys|
    requires Entries(s.left) + Entries(s.right) == Entries(p.children[i]) + Entries(p.children[i + 1])
    ensures Entries(WithPair(p, i, s)) == Entries(p)
  {
    var cs, cs' := p.children, WithPair(p, i, s).children;
    EntriesOfPair(cs, i);
    EntriesOfPair(cs', i);
    assert cs'[..i] == cs[..i] && cs'[i + 2..] == cs[i + 2..];
  }

  lemma {:induction false} WithJoinedEntries(p: Tree, i: nat, c: Tree)
    requires p.Inner? && i + 1 < |p.children| && i < |p.keys|
    requires Entries(c) == Entries(p.children[i]) + Entries(p.children[i + 1])
    ensures Entries(WithJoined(p, i, c)) == Entries(p)
  {
    var cs, cs' := p.children, WithJoined(p, i, c).children;
    EntriesOfPair(cs, i);
    EntriesOfAt(cs', i);
    assert cs'[..i] == cs[..i] && cs'[i + 1..] == cs[i + 2..];
  }

  /** Borrowing and merging conserve the left-to-right list of entries. */
  lemma {:induction false} BorrowAndMergeKeepEntries(d: nat, t: Tree, i: nat)
    requires d >= 2 && Siblings(d, t) && i < |t.children|
    ensures i > 0 && |t.children[i - 1].keys| >= d ==> Entries(BorrowFromPrev(d, t, i)) == Entries(t)
    ensures i + 1 < |t.children| && |t.children[i + 1].keys| >= d ==> Entries(BorrowFromNext(d, t, i)) == Entries(t)
    ensures i + 1 < |t.children| ==> Entries(Merge(d, t, i)) == Entries(t)
  {
    if i > 0 && |t.children[i - 1].keys| >= d {
      var l, r := t.children[i - 1], t.children[i];
      assert Sized(d, l);
      ShiftKeepsEntries(l, t.keys[i - 1], r);
      WithPairEntries(t, i - 1, ShiftRight(l, t.keys[i - 1], r));
    }
    if i + 1 < |t.children| {
      var l, r := t.children[i], t.children[i + 1];
      assert Sized(d, r);
      ShiftKeepsEntries(l, t.keys[i], r);
      WithJoinedEntries(t, i, Join(l, t.keys[i], r));
      if |r.keys| >= d {
        WithPairEntries(t, i, ShiftLeft(l, t.keys[i], r));
      }
    }
  }

  lemma {:induction false} PrepareKeepsEntries(d: nat, t: Tree, k: Key)
    requires d >= 2 && Siblings(d, t)
    ensures Entries(Prepare(d, t, k).node) == Entries(t)
  {
    var i := LowerBound(t.keys, k);
    BorrowAndMergeKeepEntries(d, t, i);
    if i > 0 {
      BorrowAndMergeKeepEntries(d, t, i - 1);
    }
  }

  /** The position of the entry that a removal takes out, or -1. */
  ghost function RemovedPosition(d: nat, h: nat, t: Tree, k: Key): int
    requires d >= 2 && Balanced(d, h, t, RootMin(t)) && Synced(t)
    decreases h
  {
    if t.Leaf? then FindEntry(t.entries, k)
    else
      PrepareKeepsBalance(d, h, t, k);
      var r := Prepare(d, t, k);
      var p := RemovedPosition(d, h - 1, r.node.children[r.child], r.key);
      if p < 0 then -1 else |EntriesOf(r.node.children[..r.child])| + p
  }

  /** A removal at an inner node is one step and a removal below. */
  lemma {:induction false} RemoveStep(d: nat, h: nat, t: Tree, k: Key)
    requires d >= 2 && Balanced(d, h, t, RootMin(t)) && Synced(t) && t.Inner?
    ensures h > 0 && Siblings(d, t)
    ensures var r := Prepare(d, t, k);
            var c := r.node.children[r.child];
            && r.node.id == t.id && Size(r.node) <= Size(t) && Balanced(d, h, r.node, Size(t) - 1) && Synced(r.node)
            && Balanced(d, h - 1, c, RootMin(c)) && Synced(c) && Size(c) >= d
            && RemoveFrom(d, h, t, k) == WithChild(r.node, r.child, RemoveFrom(d, h - 1, c, r.key))
            && var p := RemovedPosition(d, h - 1, c, r.key);
               RemovedPosition(d, h, t, k) == if p < 0 then -1 else |EntriesOf(r.node.children[..r.child])| + p
  {
    PrepareKeepsBalance(d, h, t, k);
    var r := Prepare(d, t, k);
    BalancedMin(d, h - 1, r.node.children[r.child], d, RootMin(r.node.children[r.child]));
  }

  /** `es'` is `es` without the entry at `p`, or all of `es` if `p` is -1. */
  ghost predicate Dropped(es: seq<Entry>, es': seq<Entry>, p: int) {
    -1 <= p < |es| && es' == DropAt(es, p)
  }

  /** Whatever the key, a removal takes out at most one entry and leaves the others in place. */
  lemma {:induction false} RemoveDropsOne(d: nat, h: nat, t: Tree, k: Key)
    requires d >= 2 && Balanced(d, h, t, RootMin(t)) && Synced(t)
    ensures Dropped(Entries(t), Entries(RemoveFrom(d, h, t, k)), RemovedPosition(d, h, t, k))
    decreases h
  {
    hide Prepare, Dropped, Entries, EntriesOf, RemoveFrom, RemovedPosition, Balanced, Synced;
    if t.Leaf? {
      LeafDropsOne(d, h, t, k);
    } else {
      RemoveStep(d, h, t, k);
      PrepareKeepsEntries(d, t, k);
      var r := Prepare(d, t, k);
      var c := r.node.children[r.child];
      RemoveDropsOne(d, h - 1, c, r.key);
      DropBelow(r.node, r.child, RemoveFrom(d, h - 1, c, r.key), RemovedPosition(d, h - 1, c, r.key));
    }
  }

  lemma LeafDropsOne(d: nat, h: nat, t: Tree, k: Key)
    requires d >= 2 && Balanced(d, h, t, RootMin(t)) && Synced(t) && t.Leaf?
    ensures Dropped(Entries(t), Entries(RemoveFrom(d, h, t, k)), RemovedPosition(d, h, t, k))
  {
  }

  lemma {:induction false} DropBelow(p: Tree, j: nat, c: Tree, m: int)
    requires p.Inner? && j < |p.children| && Dropped(Entries(p.children[j]), Entries(c), m)
    ensures Dropped(Entries(p), Entries(WithChild(p, j, c)), if m < 0 then -1 else |EntriesOf(p.children[..j])| + m)
  {
    hide EntriesOf, DropAt;
    EntriesOfAt(p.children, j);
    EntriesOfUpdate(p.children, j, c);
    DropMiddle(EntriesOf(p.children[..j]), Entries(p.children[j]), EntriesOf(p.children[j + 1..]), m);
  }

  lemma {:induction false} DropMiddle(a: seq<Entry>, es: seq<Entry>, b: seq<Entry>, m: int)
    requires -1 <= m < |es|
    ensures DropAt(a + es + b, if m < 0 then -1 else |a| + m) == a + DropAt(es, m) + b
  {
    if m >= 0 {
      var n := |a| + m;
      assert (a + es + b)[..n] == a + es[..m];
      assert (a + es + b)[n + 1..] == es[m + 1..] + b;
    }
  }

  // ---------------------------------------------------------------- order

  lemma {:induction false} LeafShiftOrdered(strict: bool, l: Tree, sep: Key, r: Tree, lo: Bound, hi: Bound)
    requires l.Leaf? && r.Leaf? && Ordered(strict, l, lo, At(sep)) && Ordered(strict, r, At(sep), hi)
    requires Above(lo, sep) && Below(false, sep, hi)
    ensures l.entries != [] ==> PairOrdered(strict, ShiftRight(l, sep, r), lo, hi)
    ensures |r.entries| >= 2 ==> PairOrdered(strict, ShiftLeft(l, sep, r), lo, hi)
    ensures Ordered(strict, Join(l, sep, r), lo, hi)
  {
    SortedConcat(strict, l.entries, r.entries, sep, lo, hi);
    LeafJoinOrdered(strict, l, r, sep, lo, hi);
    hide Ordered, PairOrdered, SortedEntries, Within;
    if l.entries != [] { LeafShiftRightOrdered(strict, l, sep, r, lo, hi); }
    if |r.entries| >= 2 { LeafShiftLeftOrdered(strict, l, sep, r, lo, hi); }
  }

  lemma {:induction false} LeafJoinOrdered(strict: bool, l: Tree, r: Tree, sep: Key, lo: Bound, hi: Bound)
    requires l.Leaf? && r.Leaf?
    requires SortedEntries(strict, l.entries + r.entries) && Within(strict, l.entries + r.entries, lo, hi)
    ensures Ordered(strict, Join(l, sep, r), lo, hi)
  {
  }

  lemma {:induction false} LeafShiftRightOrdered(strict: bool, l: Tree, sep: Key, r: Tree, lo: Bound, hi: Bound)
    requires l.Leaf? && r.Leaf? && l.entries != []
    requires SortedEntries(strict, l.entries + r.entries) && Within(strict, l.entries + r.entries, lo, hi)
    ensures PairOrdered(strict, ShiftRight(l, sep, r), lo, hi)
  {
    hide SortedEntries, Within;
    CutSorted(strict, l.entries + r.entries, |l.entries| - 1, lo, hi);
    CutBefore(l.entries, r.entries);
  }

  lemma {:induction false} LeafShiftLeftOrdered(strict: bool, l: Tree, sep: Key, r: Tree, lo: Bound, hi: Bound)
    requires l.Leaf? && r.Leaf? && |r.entries| >= 2
    requires SortedEntries(strict, l.entries + r.entries) && Within(strict, l.entries + r.entries, lo, hi)
    ensures PairOrdered(strict, ShiftLeft(l, sep, r), lo, hi)
  {
    hide SortedEntries, Within;
    CutSorted(strict, l.entries + r.entries, |l.entries| + 1, lo, hi);
    CutBehind(l.entries, r.entries);
  }

  lemma {:induction false} CutBefore(a: seq<Entry>, b: seq<Entry>)
    requires a != []
    ensures var n := |a| - 1; (a + b)[..n] == a[..n] && (a + b)[n..] == [a[n]] + b && (a + b)[n] == a[n]
  {
  }

  lemma {:induction false} CutBehind(a: seq<Entry>, b: seq<Entry>)
    requires |b| >= 2
    ensures var n := |a| + 1; (a + b)[..n] == a + [b[0]] && (a + b)[n..] == b[1..] && (a + b)[n] == b[1]
  {
  }

  /** Sorted entries cut at `n` are two parts separated by the first key of the right one. */
  lemma {:induction false} CutSorted(strict: bool, es: seq<Entry>, n: nat, lo: Bound, hi: Bound)
    requires n < |es| && SortedEntries(strict, es) && Within(strict, es, lo, hi)
    ensures SortedEntries(strict, es[..n]) && Within(strict, es[..n], lo, At(es[n].key))
    ensures SortedEntries(strict, es[n..]) && Within(strict, es[n..], At(es[n].key), hi)
    ensures Above(lo, es[n].key) && Below(false, es[n].key, hi)
  {
    assert forall i | 0 <= i < |es| - n :: es[n..][i] == es[n + i];
  }

  ghost predicate PairOrdered(strict: bool, s: Halves, lo: Bound, hi: Bound) {
    && Ordered(strict, s.left, lo, At(s.sep)) && Ordered(strict, s.right, At(s.sep), hi)
    && Above(lo, s.sep) && Below(false, s.sep, hi)
  }

  /** Two inner neighbours joined around their separator are ordered. */
  lemma {:induction false} InnerJoinOrdered(strict: bool, l: Tree, sep: Key, r: Tree, lo: Bound, hi: Bound)
    requires l.Inner? && r.Inner? && Ordered(strict, l, lo, At(sep)) && Ordered(strict, r, At(sep), hi)
    requires Above(lo, sep) && Below(false, sep, hi)
    ensures Ordered(strict, Join(l, sep, r), lo, hi)
  {
    var j := Join(l, sep, r);
    JoinSeparators(l.keys, sep, r.keys, lo, hi);
    forall i | 0 <= i < |j.children|
      ensures Ordered(strict, j.children[i], LoOf(j.keys, lo, i), HiOf(j.keys, hi, i))
    {
      var n := |l.children|;
      if i < n {
        assert j.children[i] == l.children[i];
        assert LoOf(j.keys, lo, i) == LoOf(l.keys, lo, i) && HiOf(j.keys, hi, i) == HiOf(l.keys, At(sep), i);
      } else {
        assert j.children[i] == r.children[i - n];
        assert LoOf(j.keys, lo, i) == LoOf(r.keys, At(sep), i - n) && HiOf(j.keys, hi, i) == HiOf(r.keys, hi, i - n);
      }
    }
  }

  lemma {:induction false} JoinSeparators(a: seq<Key>, sep: Key, b: seq<Key>, lo: Bound, hi: Bound)
    requires SeparatorsWithin(a, lo, At(sep)) && SeparatorsWithin(b, At(sep), hi)
    requires Above(lo, sep) && Below(false, sep, hi)
    ensures SeparatorsWithin(a + [sep] + b, lo, hi)
  {
    var c := a + [sep] + b;
    assert forall i | 0 <= i < |c| :: c[i] == if i < |a| then a[i] else if i == |a| then sep else b[i - |a| - 1];
  }

  /** An ordered inner node cut around its n-th separator. */
  lemma {:induction false} InnerCutOrdered(strict: bool, j: Tree, n: nat, lid: PageId, rid: PageId, lo: Bound,
      hi: Bound)
    requires j.Inner? && Ordered(strict, j, lo, hi) && n < |j.keys|
    ensures PairOrdered(strict, Halves(Inner(lid, j.keys[..n], j.children[..n + 1]), j.keys[n],
                                       Inner(rid, j.keys[n + 1..], j.children[n + 1..])), lo, hi)
  {
    LeftCutOrdered(strict, j, n, lid, lo, hi);
    RightCutOrdered(strict, j, n, rid, lo, hi);
    assert SeparatorsWithin(j.keys, lo, hi);
  }

  lemma {:induction false} LeftCutOrdered(strict: bool, j: Tree, n: nat, id: PageId, lo: Bound, hi: Bound)
    requires j.Inner? && Ordered(strict, j, lo, hi) && n < |j.keys|
    ensures Ordered(strict, Inner(id, j.keys[..n], j.children[..n + 1]), lo, At(j.keys[n]))
  {
    var l := Inner(id, j.keys[..n], j.children[..n + 1]);
    assert SeparatorsWithin(l.keys, lo, At(j.keys[n])) by { assert SeparatorsWithin(j.keys, lo, hi); }
    forall i | 0 <= i < |l.children|
      ensures Ordered(strict, l.children[i], LoOf(l.keys, lo, i), HiOf(l.keys, At(j.keys[n]), i))
    {
      assert l.children[i] == j.children[i];
      assert LoOf(l.keys, lo, i) == LoOf(j.keys, lo, i) && HiOf(l.keys, At(j.keys[n]), i) == HiOf(j.keys, hi, i);
    }
  }

  lemma {:induction false} RightCutOrdered(strict: bool, j: Tree, n: nat, id: PageId, lo: Bound, hi: Bound)
    requires j.Inner? && Ordered(strict, j, lo, hi) && n < |j.keys|
    ensures Ordered(strict, Inner(id, j.keys[n + 1..], j.children[n + 1..]), At(j.keys[n]), hi)
  {
    var r := Inner(id, j.keys[n + 1..], j.children[n + 1..]);
    assert SeparatorsWithin(r.keys, At(j.keys[n]), hi) by { assert SeparatorsWithin(j.keys, lo, hi); }
    forall i | 0 <= i < |r.children|
      ensures Ordered(strict, r.children[i], LoOf(r.keys, At(j.keys[n]), i), HiOf(r.keys, hi, i))
    {
      assert r.children[i] == j.children[n + 1 + i];
      assert LoOf(r.keys, At(j.keys[n]), i) == LoOf(j.keys, lo, n + 1 + i)
          && HiOf(r.keys, hi, i) == HiOf(j.keys, hi, n + 1 + i);
    }
  }

  lemma {:induction false} InnerShiftOrdered(strict: bool, l: Tree, sep: Key, r: Tree, lo: Bound, hi: Bound)
    requires l.Inner? && r.Inner? && Ordered(strict, l, lo, At(sep)) && Ordered(strict, r, At(sep), hi)
    requires Above(lo, sep) && Below(false, sep, hi)
    ensures l.keys != [] ==> PairOrdered(strict, ShiftRight(l, sep, r), lo, hi)
    ensures r.keys != [] ==> PairOrdered(strict, ShiftLeft(l, sep, r), lo, hi)
  {
    hide Ordered;
    if l.keys != [] { InnerShiftRightOrdered(strict, l, sep, r, lo, hi); }
    if r.keys != [] { InnerShiftLeftOrdered(strict, l, sep, r, lo, hi); }
  }

  lemma {:induction false} InnerShiftRightOrdered(strict: bool, l: Tree, sep: Key, r: Tree, lo: Bound, hi: Bound)
    requires l.Inner? && r.Inner? && Ordered(strict, l, lo, At(sep)) && Ordered(strict, r, At(sep), hi)
    requires Above(lo, sep) && Below(false, sep, hi) && l.keys != []
    ensures PairOrdered(strict, ShiftRight(l, sep, r), lo, hi)
  {
    InnerJoinOrdered(strict, l, sep, r, lo, hi);
    InnerSizes(strict, l, lo, At(sep));
    hide Ordered;
    var j := Join(l, sep, r);
    var n := |l.keys| - 1;
    InnerCutOrdered(strict, j, n, l.id, r.id, lo, hi);
    assert j.keys[..n] == l.keys[..n] && j.keys[n + 1..] == [sep] + r.keys;
    assert j.children[..n + 1] == l.children[..n + 1] && j.children[n + 1..] == [l.children[n + 1]] + r.children;
  }

  lemma {:induction false} InnerShiftLeftOrdered(strict: bool, l: Tree, sep: Key, r: Tree, lo: Bound, hi: Bound)
    requires l.Inner? && r.Inner? && Ordered(strict, l, lo, At(sep)) && Ordered(strict, r, At(sep), hi)
    requires Above(lo, sep) && Below(false, sep, hi) && r.keys != []
    ensures PairOrdered(strict, ShiftLeft(l, sep, r), lo, hi)
  {
    InnerJoinOrdered(strict, l, sep, r, lo, hi);
    InnerSizes(strict, l, lo, At(sep));
    InnerSizes(strict, r, At(sep), hi);
    hide Ordered;
    var j := Join(l, sep, r);
    var n := |l.keys| + 1;
    InnerCutOrdered(strict, j, n, l.id, r.id, lo, hi);
    assert j.keys[..n] == l.keys + [sep] && j.keys[n + 1..] == r.keys[1..];
    assert j.children[..n + 1] == l.children + [r.children[0]] && j.children[n + 1..] == r.children[1..];
  }

  lemma {:induction false} InnerSizes(strict: bool, t: Tree, lo: Bound, hi: Bound)
    requires t.Inner? && Ordered(strict, t, lo, hi)
    ensures |t.children| == |t.keys| + 1
  {
  }

  lemma {:induction false} WithPairOrdered(strict: bool, p: Tree, i: nat, s: Halves, lo: Bound, hi: Bound)
    requires p.Inner? && Ordered(strict, p, lo, hi) && i + 1 < |p.children|
    requires PairOrdered(strict, s, LoOf(p.keys, lo, i), HiOf(p.keys, hi, i + 1))
    ensures Ordered(strict, WithPair(p, i, s), lo, hi)
  {
    var q := WithPair(p, i, s);
    ReplaceSeparatorWithin(p.keys, i, s.sep, lo, hi);
    forall j | 0 <= j < |q.children|
      ensures Ordered(strict, q.children[j], LoOf(q.keys, lo, j), HiOf(q.keys, hi, j))
    {
      if j < i || j > i + 1 {
        assert q.children[j] == p.children[j];
        assert LoOf(q.keys, lo, j) == LoOf(p.keys, lo, j) && HiOf(q.keys, hi, j) == HiOf(p.keys, hi, j);
      }
    }
  }

  lemma {:induction false} ReplaceSeparatorWithin(ks: seq<Key>, i: nat, k: Key, lo: Bound, hi: Bound)
    requires i < |ks| && SeparatorsWithin(ks, lo, hi)
    requires Above(LoOf(ks, lo, i), k) && Below(false, k, HiOf(ks, hi, i + 1))
    ensures SeparatorsWithin(ks[i := k], lo, hi)
  {
    var ks' := ks[i := k];
    if i > 0 { assert Above(lo, ks[i - 1]); }
    if i + 1 < |ks| { assert Below(false, ks[i + 1], hi); }
  }

  lemma {:induction false} WithJoinedOrdered(strict: bool, p: Tree, i: nat, c: Tree, lo: Bound, hi: Bound)
    requires p.Inner? && Ordered(strict, p, lo, hi) && i + 1 < |p.children|
    requires Ordered(strict, c, LoOf(p.keys, lo, i), HiOf(p.keys, hi, i + 1))
    ensures Ordered(strict, WithJoined(p, i, c), lo, hi)
  {
    var q := WithJoined(p, i, c);
    assert forall j | 0 <= j < |q.keys| :: q.keys[j] == if j < i then p.keys[j] else p.keys[j + 1];
    forall j | 0 <= j < |q.children|
      ensures Ordered(strict, q.children[j], LoOf(q.keys, lo, j), HiOf(q.keys, hi, j))
    {
      JoinedChildOrdered(strict, p, i, c, lo, hi, j);
    }
  }

  lemma {:induction false} JoinedChildOrdered(strict: bool, p: Tree, i: nat, c: Tree, lo: Bound, hi: Bound, j: nat)
    requires p.Inner? && |p.children| == |p.keys| + 1 && i + 1 < |p.children| && j < |p.keys|
    requires forall m | 0 <= m < |p.children| ::
               Ordered(strict, p.children[m], LoOf(p.keys, lo, m), HiOf(p.keys, hi, m))
    requires Ordered(strict, c, LoOf(p.keys, lo, i), HiOf(p.keys, hi, i + 1))
    ensures var q := WithJoined(p, i, c); Ordered(strict, q.children[j], LoOf(q.keys, lo, j), HiOf(q.keys, hi, j))
  {
    hide Ordered;
    var q := WithJoined(p, i, c);
    if j < i {
      assert q.children[j] == p.children[j];
      assert LoOf(q.keys, lo, j) == LoOf(p.keys, lo, j) && HiOf(q.keys, hi, j) == HiOf(p.keys, hi, j);
    } else if j > i {
      assert q.children[j] == p.children[j + 1];
      assert LoOf(q.keys, lo, j) == LoOf(p.keys, lo, j + 1) && HiOf(q.keys, hi, j) == HiOf(p.keys, hi, j + 1);
    } else {
      assert q.children[j] == c;
      assert LoOf(q.keys, lo, j) == LoOf(p.keys, lo, j) && HiOf(q.keys, hi, j) == HiOf(p.keys, hi, j + 1);
    }
  }
}
