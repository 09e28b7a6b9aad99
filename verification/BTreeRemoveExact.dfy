/**
 Exactly when a removal from a tree with distinct keys removes the entry with the key and no other.
 */
module BTreeRemoveExact {
  import opened BTreeModel
  import opened BTreeInsert
  import opened BTreeSearch
  import opened BTreeRemoveModel
  import opened BTreeRemove
  import opened BTreeRemoveOrder

  /** The entries whose key is not `k`, in order. */
  ghost function Without(es: seq<Entry>, k: Key): seq<Entry> {
    if es == [] then []
    else (if es[0].key == k then [] else [es[0]]) + Without(es[1..], k)
  }

  lemma {:induction false} WithoutConcat(a: seq<Entry>, b: seq<Entry>, k: Key)
    ensures Without(a + b, k) == Without(a, k) + Without(b, k)
  {
    if a == [] {
      assert a + b == b;
    } else {
      assert (a + b)[1..] == a[1..] + b;
      WithoutConcat(a[1..], b, k);
    }
  }

  lemma {:induction false} WithoutAbsent(es: seq<Entry>, k: Key)
    requires !HasKey(es, k)
    ensures Without(es, k) == es
  {
    if es != [] {
      assert forall i | 0 <= i < |es| - 1 :: es[1..][i] == es[i + 1];
      WithoutAbsent(es[1..], k);
    }
  }

  /** Position `p` is where the key is stored, or -1 when it is not stored. */
  ghost predicate Right(es: seq<Entry>, p: int, k: Key)
    requires -1 <= p < |es|
  {
    if p >= 0 then es[p].key == k else !HasKey(es, k)
  }

  /** In strictly sorted entries, dropping a position leaves the entries with other keys exactly
      when it is the right position. */
  lemma {:induction false} DropIsWithout(es: seq<Entry>, p: int, k: Key)
    requires SortedEntries(true, es) && -1 <= p < |es|
    ensures DropAt(es, p) == Without(es, k) <==> Right(es, p, k)
  {
    hide Without;
    if HasKey(es, k) {
      var i :| 0 <= i < |es| && es[i].key == k;
      DropKey(es, i, k);
      DropOther(es, i, p, k);
    } else {
      WithoutAbsent(es, k);
      assert p >= 0 ==> |DropAt(es, p)| == |es| - 1;
    }
  }

  /** Dropping another position keeps the entry at `i`, or the length. */
  lemma {:induction false} DropOther(es: seq<Entry>, i: nat, p: int, k: Key)
    requires SortedEntries(true, es) && -1 <= p < |es| && i < |es| && es[i].key == k
    ensures DropAt(es, p) == DropAt(es, i) <==> p == i
    ensures Right(es, p, k) <==> p == i
  {
    DropLeaves(es, i, k);
    assert p < 0 ==> |DropAt(es, p)| > |DropAt(es, i)|;
    if p >= 0 && p != i {
      assert DropAt(es, p)[if i < p then i else i - 1] == es[i];
    }
  }

  lemma {:induction false} DropKey(es: seq<Entry>, i: nat, k: Key)
    requires SortedEntries(true, es) && i < |es| && es[i].key == k
    ensures Without(es, k) == DropAt(es, i)
  {
    hide Without;
    var a, b, c := es[..i], [es[i]], es[i + 1..];
    assert es == a + b + c;
    WithoutConcat(a + b, c, k);
    WithoutConcat(a, b, k);
    WithoutAbsent(a, k);
    WithoutAbsent(c, k);
    WithoutOne(es[i], k);
    assert a + [] + c == a + c;
  }

  lemma WithoutOne(e: Entry, k: Key)
    ensures Without([e], k) == if e.key == k then [] else [e]
  {
    assert [e][1..] == [];
  }

  lemma DropLeaves(es: seq<Entry>, i: nat, k: Key)
    requires SortedEntries(true, es) && i < |es| && es[i].key == k
    ensures forall j | 0 <= j < |es| - 1 :: DropAt(es, i)[j].key != k
  {
    forall j | 0 <= j < |es| - 1
      ensures DropAt(es, i)[j].key != k
    {
      assert DropAt(es, i)[j] == es[if j < i then j else j + 1];
    }
  }

  // ---------------------------------------------------------------- where a key can be

  /** No child but the j-th has the key. */
  ghost predicate OnlyIn(p: Tree, j: nat, k: Key)
    requires p.Inner? && j < |p.children|
  {
    !HasKey(EntriesOf(p.children[..j]), k) && !HasKey(EntriesOf(p.children[j + 1..]), k)
  }

  lemma {:induction false} RightMiddle(a: seq<Entry>, es: seq<Entry>, b: seq<Entry>, m: int, k: Key)
    requires -1 <= m < |es| && !HasKey(a, k) && !HasKey(b, k)
    ensures Right(a + es + b, if m < 0 then -1 else |a| + m, k) <==> Right(es, m, k)
    ensures HasKey(a + es + b, k) <==> HasKey(es, k)
  {
    HasKeyConcat(a + es, b, k);
    HasKeyConcat(a, es, k);
    if m >= 0 {
      assert (a + es + b)[|a| + m] == es[m];
    }
  }

  /** A key that lies between the separators around the i-th child is in no other child. */
  lemma {:induction false} BetweenSeparators(t: Tree, i: nat, k: Key, lo: Bound, hi: Bound)
    requires t.Inner? && Ordered(false, t, lo, hi) && i < |t.children|
    requires (i > 0 ==> t.keys[i - 1] < k) && (i < |t.keys| ==> k < t.keys[i])
    ensures OnlyIn(t, i, k)
  {
    if i > 0 { PrefixBelow(false, t, i, lo, hi); } else { assert t.children[..0] == []; }
    if i + 1 < |t.children| { SuffixSorted(false, t, i + 1, lo, hi); } else { assert t.children[i + 1..] == []; }
  }

  /** In lists that agree, a shorter front and a shorter back are parts of the longer ones. */
  lemma {:induction false} ShorterEnds(a: seq<Entry>, c: seq<Entry>, b: seq<Entry>, a': seq<Entry>, c': seq<Entry>,
      b': seq<Entry>, k: Key)
    requires a + c + b == a' + c' + b' && |a'| <= |a| && |b'| <= |b| && !HasKey(a, k) && !HasKey(b, k)
    ensures !HasKey(a', k) && !HasKey(b', k)
  {
    var all := a + c + b;
    forall i | 0 <= i < |a'|
      ensures a'[i].key != k
    {
      assert a'[i] == all[i] == a[i];
    }
    forall i | 0 <= i < |b'|
      ensures b'[i].key != k
    {
      var j := |b| - |b'| + i;
      assert b'[i] == all[|all| - |b'| + i] == b[j];
    }
  }

  /** The number of entries left and right of the child that a step beside the separators descends to
      does not grow. */
  lemma {:induction false} BesideCovers(d: nat, t: Tree, i: nat, k: Key)
    requires d >= 2 && Siblings(d, t) && i < |t.children|
    ensures var r := BesideSeparators(d, t, i, k);
            && r.key == k
            && |EntriesOf(r.node.children[..r.child])| <= |EntriesOf(t.children[..i])|
            && |EntriesOf(r.node.children[r.child + 1..])| <= |EntriesOf(t.children[i + 1..])|
  {
    hide EntriesOf;
    if |t.children[i].keys| >= d {
    } else if i > 0 && |t.children[i - 1].keys| >= d {
      BorrowPrevCovers(d, t, i);
    } else if i + 1 < |t.children| && |t.children[i + 1].keys| >= d {
      BorrowNextCovers(d, t, i);
    } else if i + 1 < |t.children| {
      MergeCovers(d, t, i);
    } else {
      MergeCovers(d, t, i - 1);
    }
  }

  lemma {:induction false} LastCount(cs: seq<Tree>)
    requires cs != []
    ensures EntriesOf(cs) == EntriesOf(cs[..|cs| - 1]) + Entries(cs[|cs| - 1])
  {
    var n := |cs| - 1;
    EntriesOfConcat(cs[..n], [cs[n]]);
    assert cs == cs[..n] + [cs[n]];
    assert EntriesOf([cs[n]]) == Entries(cs[n]) + EntriesOf([cs[n]][1..]);
  }

  lemma {:induction false} BorrowPrevCovers(d: nat, t: Tree, i: nat)
    requires d >= 2 && Siblings(d, t) && 0 < i < |t.children| && |t.children[i - 1].keys| >= d
    ensures var p := BorrowFromPrev(d, t, i);
            && i < |p.children| && p.children[i + 1..] == t.children[i + 1..]
            && |EntriesOf(p.children[..i])| <= |EntriesOf(t.children[..i])|
  {
    var l := t.children[i - 1];
    assert Sized(d, l);
    var p := BorrowFromPrev(d, t, i);
    LastCount(t.children[..i]);
    LastCount(p.children[..i]);
    assert t.children[..i][..i - 1] == t.children[..i - 1] == p.children[..i][..i - 1];
    if l.Inner? { LastCount(l.children); }
  }

  lemma {:induction false} BorrowNextCovers(d: nat, t: Tree, i: nat)
    requires d >= 2 && Siblings(d, t) && i + 1 < |t.children| && |t.children[i + 1].keys| >= d
    ensures var p := BorrowFromNext(d, t, i);
            && i < |p.children| && p.children[..i] == t.children[..i]
            && |EntriesOf(p.children[i + 1..])| <= |EntriesOf(t.children[i + 1..])|
  {
    var r := t.children[i + 1];
    assert Sized(d, r);
    var p := BorrowFromNext(d, t, i);
    assert p.children[i + 1..][1..] == t.children[i + 1..][1..];
    if r.Inner? {
      assert Entries(r) == Entries(r.children[0]) + EntriesOf(r.children[1..]);
      assert Entries(p.children[i + 1]) == EntriesOf(r.children[1..]);
    }
    assert |Entries(p.children[i + 1])| <= |Entries(r)|;
  }

  lemma {:induction false} MergeCovers(d: nat, t: Tree, i: nat)
    requires Siblings(d, t) && i + 1 < |t.children|
    ensures var p := Merge(d, t, i);
            && i < |p.children| && p.children[..i] == t.children[..i] && p.children[i + 1..] == t.children[i + 2..]
            && |EntriesOf(t.children[..i])| <= |EntriesOf(t.children[..i + 1])|
            && |EntriesOf(t.children[i + 2..])| <= |EntriesOf(t.children[i + 1..])|
  {
    LastCount(t.children[..i + 1]);
    assert t.children[..i + 1][..i] == t.children[..i];
    assert t.children[i + 1..][1..] == t.children[i + 2..];
  }

  /** Off the separators of a node, the step before a descent goes to the one child that can have the key. */
  lemma {:induction false} BesideTarget(d: nat, t: Tree, k: Key, lo: Bound, hi: Bound)
    requires d >= 2 && Siblings(d, t) && Ordered(false, t, lo, hi) && k !in t.keys
    ensures var r := Prepare(d, t, k);
            r.action != Swap && r.action != Replace && r.key == k && OnlyIn(r.node, r.child, k)
  {
    var i := LowerBound(t.keys, k);
    assert i > 0 ==> t.keys[i - 1] < k;
    BetweenSeparators(t, i, k, lo, hi);
    BesideCovers(d, t, i, k);
    PrepareKeepsEntries(d, t, k);
    var r := Prepare(d, t, k);
    EntriesOfAt(t.children, i);
    EntriesOfAt(r.node.children, r.child);
    ShorterEnds(EntriesOf(t.children[..i]), Entries(t.children[i]), EntriesOf(t.children[i + 1..]),
                EntriesOf(r.node.children[..r.child]), Entries(r.node.children[r.child]),
                EntriesOf(r.node.children[r.child + 1..]), k);
  }

  /** The child that a removal descends into is ordered. */
  lemma {:induction false} TurnChildOrdered(d: nat, h: nat, t: Tree, k: Key, lo: Bound, hi: Bound)
      returns (clo: Bound, chi: Bound)
    requires d >= 2 && t.Inner? && Balanced(d, h, t, 1) && Synced(t) && Siblings(d, t) && Ordered(false, t, lo, hi)
    ensures Ordered(false, Prepare(d, t, k).node.children[Prepare(d, t, k).child], clo, chi)
  {
    var r := Prepare(d, t, k);
    PrepareKeepsOrder(d, h, false, t, k, lo, hi);
    clo, chi := LoOf(r.node.keys, lo, r.child), HiOf(r.node.keys, hi, r.child);
  }

  // ---------------------------------------------------------------- distinct keys

  /** Sorted entries with distinct keys are strictly sorted. */
  lemma {:induction false} DistinctSorted(t: Tree, lo: Bound, hi: Bound)
    requires Ordered(false, t, lo, hi) && DistinctKeys(Entries(t))
    ensures SortedEntries(true, Entries(t))
  {
    EntriesSorted(false, t, lo, hi);
  }

  lemma {:induction false} StrictParts(a: seq<Entry>, c: seq<Entry>, b: seq<Entry>)
    requires SortedEntries(true, a + c + b)
    ensures SortedEntries(true, c)
    ensures forall i, j | 0 <= i < |a| && 0 <= j < |c| :: a[i].key < c[j].key
    ensures forall i, j | 0 <= i < |c| && 0 <= j < |b| :: c[i].key < b[j].key
  {
    var all := a + c + b;
    assert forall i | 0 <= i < |a| :: all[i] == a[i];
    assert forall i | 0 <= i < |c| :: all[|a| + i] == c[i];
    assert forall i | 0 <= i < |b| :: all[|a| + |c| + i] == b[i];
  }

  lemma StrictMiddle(a: seq<Entry>, c: seq<Entry>, b: seq<Entry>)
    requires SortedEntries(true, a + c + b)
    ensures SortedEntries(true, c)
  {
    StrictParts(a, c, b);
  }

  /** Where a removal descends: for the key itself, to the one child that can have it; else for another
      key, which that child has, and the child does not have the key. */
  ghost predicate Targets(r: Turn, k: Key)
    requires r.node.Inner? && r.child < |r.node.children|
  {
    var c := Entries(r.node.children[r.child]);
    if r.key == k then OnlyIn(r.node, r.child, k) else HasKey(c, r.key) && !HasKey(c, k)
  }

  lemma {:induction false} SeparatorTarget(d: nat, h: nat, t: Tree, i: nat, k: Key, lo: Bound, hi: Bound)
    requires d >= 2 && t.Inner? && Balanced(d, h, t, 1) && Synced(t) && Siblings(d, t) && Ordered(false, t, lo, hi)
    requires SortedEntries(true, Entries(t)) && i == LowerBound(t.keys, k) && i < |t.keys| && t.keys[i] == k
    ensures Targets(AtSeparator(d, t, i, k), k)
  {
    ChildFacts(d, h, t, i);
    ChildFacts(d, h, t, i + 1);
    if |t.children[i].keys| >= d {
      PredecessorTarget(d, h, t, i, k, lo, hi);
    } else if |t.children[i + 1].keys| >= d {
      SuccessorTarget(d, h, t, i, k, lo, hi);
    } else {
      MergedTarget(d, h, t, i, k, lo, hi);
    }
  }

  lemma {:induction false} PredecessorTarget(d: nat, h: nat, t: Tree, i: nat, k: Key, lo: Bound, hi: Bound)
    requires d >= 2 && t.Inner? && Balanced(d, h, t, 1) && Synced(t) && Ordered(false, t, lo, hi)
    requires SortedEntries(true, Entries(t)) && i < |t.keys| && t.keys[i] == k && i < |t.children|
    ensures Targets(Turn(WithSeparator(t, i, LastKey(t.children[i])), i, LastKey(t.children[i]), Swap), k)
  {
    var c := t.children[i];
    EndOfChild(d, h, t, i);
    EntriesOfAt(t.children, i);
    StrictParts(EntriesOf(t.children[..i]), Entries(c), EntriesOf(t.children[i + 1..]));
    EntriesSorted(false, c, LoOf(t.keys, lo, i), At(k));
    var n := |Entries(c)| - 1;
    assert Entries(c)[n].key == LastKey(c) <= k;
  }

  lemma {:induction false} SuccessorTarget(d: nat, h: nat, t: Tree, i: nat, k: Key, lo: Bound, hi: Bound)
    requires d >= 2 && t.Inner? && Balanced(d, h, t, 1) && Synced(t) && Ordered(false, t, lo, hi)
    requires SortedEntries(true, Entries(t)) && i < |t.keys| && t.keys[i] == k && i + 1 < |t.children|
    ensures Targets(Turn(WithSeparator(t, i, FirstKey(t.children[i + 1])), i + 1, FirstKey(t.children[i + 1]),
              Replace), k)
  {
    var c := t.children[i + 1];
    EndOfChild(d, h, t, i + 1);
    EntriesOfAt(t.children, i + 1);
    StrictParts(EntriesOf(t.children[..i + 1]), Entries(c), EntriesOf(t.children[i + 2..]));
    EntriesSorted(false, c, At(k), HiOf(t.keys, hi, i + 1));
    assert Entries(c)[0].key == FirstKey(c) >= k;
  }

  lemma {:induction false} EndOfChild(d: nat, h: nat, t: Tree, i: nat)
    requires d >= 2 && t.Inner? && Balanced(d, h, t, 1) && Synced(t) && i < |t.children|
    ensures var c := t.children[i];
            && Entries(c) != [] && LastKey(c) == Entries(c)[|Entries(c)| - 1].key && FirstKey(c) == Entries(c)[0].key
  {
    ChildFacts(d, h, t, i);
    BalancedMin(d, h - 1, t.children[i], d - 1, 1);
    EndKeys(d, h - 1, t.children[i]);
  }

  /** Left of the merged child all entries are below the key; right of it they are above, because the right
      half of the merged child has an entry at or above the key. */
  lemma {:induction false} MergedTarget(d: nat, h: nat, t: Tree, i: nat, k: Key, lo: Bound, hi: Bound)
    requires d >= 2 && t.Inner? && Balanced(d, h, t, 1) && Synced(t) && Siblings(d, t) && Ordered(false, t, lo, hi)
    requires SortedEntries(true, Entries(t)) && i == LowerBound(t.keys, k) && i < |t.keys| && t.keys[i] == k
    ensures OnlyIn(Merge(d, t, i), i, k)
  {
    MergeCovers(d, t, i);
    if i > 0 {
      assert t.keys[i - 1] < k;
      PrefixBelow(false, t, i, lo, hi);
    } else {
      assert t.children[..0] == [];
    }
    var c := t.children[i + 1];
    EndOfChild(d, h, t, i + 1);
    EntriesSorted(false, c, At(k), HiOf(t.keys, hi, i + 1));
    EntriesOfAt(t.children, i + 1);
    StrictParts(EntriesOf(t.children[..i + 1]), Entries(c), EntriesOf(t.children[i + 2..]));
    assert Entries(c)[0].key >= k;
  }

  lemma {:induction false} TurnTarget(d: nat, h: nat, t: Tree, k: Key, lo: Bound, hi: Bound)
    requires d >= 2 && t.Inner? && Balanced(d, h, t, 1) && Synced(t) && Siblings(d, t) && Ordered(false, t, lo, hi)
    requires SortedEntries(true, Entries(t))
    ensures Targets(Prepare(d, t, k), k)
  {
    hide Targets, BesideSeparators, AtSeparator, Balanced, Ordered;
    var i := LowerBound(t.keys, k);
    if i < |t.keys| && t.keys[i] == k {
      SeparatorTarget(d, h, t, i, k, lo, hi);
    } else {
      BesideTurn(d, t, k, lo, hi);
    }
  }

  lemma {:induction false} BesideTurn(d: nat, t: Tree, k: Key, lo: Bound, hi: Bound)
    requires d >= 2 && Siblings(d, t) && Ordered(false, t, lo, hi)
    requires var i := LowerBound(t.keys, k); !(i < |t.keys| && t.keys[i] == k)
    ensures Targets(Prepare(d, t, k), k)
  {
    var i := LowerBound(t.keys, k);
    assert k !in t.keys by {
      OrderedKeys(t, lo, hi);
      assert forall j | i < j < |t.keys| :: t.keys[i] <= t.keys[j];
    }
    BesideTarget(d, t, k, lo, hi);
  }

  lemma {:induction false} OrderedKeys(t: Tree, lo: Bound, hi: Bound)
    requires t.Inner? && Ordered(false, t, lo, hi)
    ensures SortedKeys(t.keys)
  {
  }

  // ---------------------------------------------------------------- exactness

  /** The descent turns to another key: a separator equal to the key is replaced by its predecessor or
      successor, and that is not the key itself. */
  ghost predicate Misses(d: nat, h: nat, t: Tree, k: Key)
    requires d >= 2 && Balanced(d, h, t, RootMin(t)) && Synced(t)
    decreases h
  {
    t.Inner? &&
      (RemoveStep(d, h, t, k);
       var r := Prepare(d, t, k);
       r.key != k || Misses(d, h - 1, r.node.children[r.child], k))
  }

  lemma {:induction false} MissesStep(d: nat, h: nat, t: Tree, k: Key)
    requires d >= 2 && Balanced(d, h, t, RootMin(t)) && Synced(t) && t.Inner?
    ensures Siblings(d, t) && h > 0
    ensures var r := Prepare(d, t, k);
            var c := r.node.children[r.child];
            && Balanced(d, h - 1, c, RootMin(c)) && Synced(c)
            && (Misses(d, h, t, k) <==> r.key != k || Misses(d, h - 1, c, k))
  {
    RemoveStep(d, h, t, k);
  }

  /** The entries of the child that is descended into, and where the removal takes one out. */
  lemma {:induction false} RemovedBelow(d: nat, h: nat, t: Tree, k: Key)
    requires d >= 2 && Balanced(d, h, t, RootMin(t)) && Synced(t) && t.Inner?
    ensures h > 0 && Siblings(d, t)
    ensures var r := Prepare(d, t, k);
            var c := r.node.children[r.child];
            var a, b := EntriesOf(r.node.children[..r.child]), EntriesOf(r.node.children[r.child + 1..]);
            && Balanced(d, h - 1, c, RootMin(c)) && Synced(c) && Entries(t) == a + Entries(c) + b
            && var m := RemovedPosition(d, h - 1, c, r.key);
               && -1 <= m < |Entries(c)| && RemovedPosition(d, h, t, k) == if m < 0 then -1 else |a| + m
  {
    RemoveStep(d, h, t, k);
    PrepareKeepsEntries(d, t, k);
    var r := Prepare(d, t, k);
    EntriesOfAt(r.node.children, r.child);
    RemoveDropsOne(d, h - 1, r.node.children[r.child], r.key);
  }

  /** With distinct keys, removing a stored key always takes an entry out. */
  lemma {:induction false} StoredKeyRemovesOne(d: nat, h: nat, t: Tree, k: Key, lo: Bound, hi: Bound)
    requires d >= 2 && Balanced(d, h, t, RootMin(t)) && Synced(t) && Ordered(false, t, lo, hi)
    requires SortedEntries(true, Entries(t)) && HasKey(Entries(t), k)
    ensures 0 <= RemovedPosition(d, h, t, k) < |Entries(t)|
    decreases h
  {
    if t.Inner? {
      hide Prepare, Ordered, Balanced, RemovedPosition, SortedEntries, Synced, Entries, EntriesOf;
      var clo, chi := ChildReady(d, h, t, k, lo, hi);
      RemovedBelow(d, h, t, k);
      TurnTarget(d, h, t, k, lo, hi);
      var r := Prepare(d, t, k);
      var a, c, b := EntriesOf(r.node.children[..r.child]), Entries(r.node.children[r.child]),
          EntriesOf(r.node.children[r.child + 1..]);
      if r.key == k { RightMiddle(a, c, b, -1, k); }
      StoredKeyRemovesOne(d, h - 1, r.node.children[r.child], r.key, clo, chi);
    }
  }

  /** With distinct keys, the position that a removal takes out is the right one exactly when the descent
      does not turn to another key. */
  lemma {:induction false} RightUnlessMissed(d: nat, h: nat, t: Tree, k: Key, lo: Bound, hi: Bound)
    requires d >= 2 && Balanced(d, h, t, RootMin(t)) && Synced(t) && Ordered(false, t, lo, hi)
    requires SortedEntries(true, Entries(t))
    ensures -1 <= RemovedPosition(d, h, t, k) < |Entries(t)|
    ensures Right(Entries(t), RemovedPosition(d, h, t, k), k) <==> !Misses(d, h, t, k)
    decreases h
  {
    if t.Leaf? {
      LeafIsRight(d, h, t, k);
    } else {
      hide Prepare, Ordered, Balanced, RemovedPosition, SortedEntries, Misses, Synced, Right, Targets, Entries,
          EntriesOf;
      var clo, chi := ChildReady(d, h, t, k, lo, hi);
      var r := Prepare(d, t, k);
      var child := r.node.children[r.child];
      if r.key == k {
        RightUnlessMissed(d, h - 1, child, k, clo, chi);
      } else {
        StoredKeyRemovesOne(d, h - 1, child, r.key, clo, chi);
      }
      RightInner(d, h, t, k, lo, hi);
    }
  }

  /** What the induction needs of the child that is descended into. */
  lemma {:induction false} ChildReady(d: nat, h: nat, t: Tree, k: Key, lo: Bound, hi: Bound)
      returns (clo: Bound, chi: Bound)
    requires d >= 2 && Balanced(d, h, t, RootMin(t)) && Synced(t) && t.Inner? && Ordered(false, t, lo, hi)
    requires SortedEntries(true, Entries(t))
    ensures h > 0 && Siblings(d, t)
    ensures var r := Prepare(d, t, k);
            var c := r.node.children[r.child];
            && Balanced(d, h - 1, c, RootMin(c)) && Synced(c) && Ordered(false, c, clo, chi)
            && SortedEntries(true, Entries(c)) && (r.key != k ==> HasKey(Entries(c), r.key))
  {
    hide Prepare, Ordered, Balanced, RemovedPosition, SortedEntries, Synced, Entries, EntriesOf;
    RemovedBelow(d, h, t, k);
    TurnTarget(d, h, t, k, lo, hi);
    clo, chi := TurnChildOrdered(d, h, t, k, lo, hi);
    var r := Prepare(d, t, k);
    StrictMiddle(EntriesOf(r.node.children[..r.child]), Entries(r.node.children[r.child]),
        EntriesOf(r.node.children[r.child + 1..]));
  }

  lemma {:induction false} RightInner(d: nat, h: nat, t: Tree, k: Key, lo: Bound, hi: Bound)
    requires d >= 2 && Balanced(d, h, t, RootMin(t)) && Synced(t) && t.Inner? && Ordered(false, t, lo, hi)
    requires SortedEntries(true, Entries(t)) && h > 0 && Siblings(d, t)
    requires var r := Prepare(d, t, k);
             var c := r.node.children[r.child];
             && Balanced(d, h - 1, c, RootMin(c)) && Synced(c)
             && var m := RemovedPosition(d, h - 1, c, r.key);
                && -1 <= m < |Entries(c)|
                && if r.key == k then Right(Entries(c), m, k) <==> !Misses(d, h - 1, c, k) else m >= 0
    ensures -1 <= RemovedPosition(d, h, t, k) < |Entries(t)|
    ensures Right(Entries(t), RemovedPosition(d, h, t, k), k) <==> !Misses(d, h, t, k)
  {
    hide Prepare, Ordered, Balanced, RemovedPosition, SortedEntries, Misses, Synced, Right, Targets, Entries, EntriesOf;
    RemovedBelow(d, h, t, k);
    TurnTarget(d, h, t, k, lo, hi);
    MissesStep(d, h, t, k);
    var r := Prepare(d, t, k);
    RightTurn(r, RemovedPosition(d, h - 1, r.node.children[r.child], r.key), k);
  }

  lemma LeafIsRight(d: nat, h: nat, t: Tree, k: Key)
    requires d >= 2 && Balanced(d, h, t, RootMin(t)) && Synced(t) && t.Leaf?
    ensures -1 <= RemovedPosition(d, h, t, k) < |Entries(t)|
    ensures Right(Entries(t), RemovedPosition(d, h, t, k), k) && !Misses(d, h, t, k)
  {
  }

  /** A position in the child that a removal descends into is right for the whole node if it is right for
      the child and the removal did not turn to another key. */
  lemma {:induction false} RightTurn(r: Turn, m: int, k: Key)
    requires r.node.Inner? && r.child < |r.node.children| && Targets(r, k)
    requires -1 <= m < |Entries(r.node.children[r.child])| && (r.key != k ==> m >= 0)
    ensures var a, c, b := EntriesOf(r.node.children[..r.child]), Entries(r.node.children[r.child]),
              EntriesOf(r.node.children[r.child + 1..]);
            Right(a + c + b, if m < 0 then -1 else |a| + m, k) <==> r.key == k && Right(c, m, k)
  {
    hide EntriesOf, Entries;
    var a, c, b := EntriesOf(r.node.children[..r.child]), Entries(r.node.children[r.child]),
        EntriesOf(r.node.children[r.child + 1..]);
    if r.key == k {
      RightMiddle(a, c, b, m, k);
    } else {
      assert (a + c + b)[|a| + m] == c[m];
    }
  }

  /** A removal from an ordered tree with distinct keys leaves exactly the entries with other keys if and
      only if its descent never turns to another key. */
  lemma {:induction false} RemoveExact(d: nat, h: nat, t: Tree, k: Key)
    requires d >= 2 && Balanced(d, h, t, RootMin(t)) && Synced(t) && Ordered(false, t, Unbounded, Unbounded)
    requires DistinctKeys(Entries(t))
    ensures Entries(RemoveFrom(d, h, t, k)) == Without(Entries(t), k) <==> !Misses(d, h, t, k)
  {
    DistinctSorted(t, Unbounded, Unbounded);
    RemoveDropsOne(d, h, t, k);
    RightUnlessMissed(d, h, t, k, Unbounded, Unbounded);
    DropIsWithout(Entries(t), RemovedPosition(d, h, t, k), k);
  }

  /** A key that equals no separator: whatever else is stored, duplicates included, the removal takes out an
      entry with the key, or nothing if there is none. */
  lemma {:induction false} OffSeparatorsIsRight(d: nat, h: nat, t: Tree, k: Key, lo: Bound, hi: Bound)
    requires d >= 2 && Balanced(d, h, t, RootMin(t)) && Synced(t) && Ordered(false, t, lo, hi) && k !in Separators(t)
    ensures -1 <= RemovedPosition(d, h, t, k) < |Entries(t)|
    ensures Right(Entries(t), RemovedPosition(d, h, t, k), k)
    decreases h
  {
    if t.Leaf? {
      LeafIsRight(d, h, t, k);
    } else {
      hide Prepare, Ordered, Balanced, RemovedPosition, Separators, Synced, Right, Entries;
      var clo, chi := OffReady(d, h, t, k, lo, hi);
      OffSeparatorsIsRight(d, h - 1, Prepare(d, t, k).node.children[Prepare(d, t, k).child], k, clo, chi);
      OffInner(d, h, t, k, lo, hi);
    }
  }

  lemma {:induction false} OffReady(d: nat, h: nat, t: Tree, k: Key, lo: Bound, hi: Bound)
      returns (clo: Bound, chi: Bound)
    requires d >= 2 && Balanced(d, h, t, RootMin(t)) && Synced(t) && t.Inner? && Ordered(false, t, lo, hi)
               && k !in Separators(t)
    ensures h > 0 && Siblings(d, t)
    ensures var r := Prepare(d, t, k);
            var c := r.node.children[r.child];
            && r.key == k && OnlyIn(r.node, r.child, k) && Balanced(d, h - 1, c, RootMin(c)) && Synced(c)
            && Ordered(false, c, clo, chi) && k !in Separators(c)
  {
    hide Prepare, Ordered, Balanced, RemovedPosition, Separators, Synced, OnlyIn, Entries, EntriesOf;
    RemovedBelow(d, h, t, k);
    OwnSeparators(t, k);
    BesideTarget(d, t, k, lo, hi);
    PrepareSeparators(d, t, k);
    clo, chi := TurnChildOrdered(d, h, t, k, lo, hi);
  }

  lemma {:induction false} OffInner(d: nat, h: nat, t: Tree, k: Key, lo: Bound, hi: Bound)
    requires d >= 2 && Balanced(d, h, t, RootMin(t)) && Synced(t) && t.Inner? && h > 0 && Siblings(d, t)
    requires var r := Prepare(d, t, k);
             var c := r.node.children[r.child];
             && r.key == k && OnlyIn(r.node, r.child, k) && Balanced(d, h - 1, c, RootMin(c)) && Synced(c)
             && var m := RemovedPosition(d, h - 1, c, k); -1 <= m < |Entries(c)| && Right(Entries(c), m, k)
    ensures -1 <= RemovedPosition(d, h, t, k) < |Entries(t)|
    ensures Right(Entries(t), RemovedPosition(d, h, t, k), k)
  {
    hide Prepare, Balanced, RemovedPosition, Synced, Right, OnlyIn, Entries, EntriesOf;
    RemovedBelow(d, h, t, k);
    var r := Prepare(d, t, k);
    OnlyTarget(r, k);
    RightTurn(r, RemovedPosition(d, h - 1, r.node.children[r.child], k), k);
  }

  lemma OnlyTarget(r: Turn, k: Key)
    requires r.node.Inner? && r.child < |r.node.children| && r.key == k && OnlyIn(r.node, r.child, k)
    ensures Targets(r, k)
  {
  }

  lemma OwnSeparators(t: Tree, k: Key)
    requires t.Inner? && k !in Separators(t)
    ensures k !in t.keys
  {
    assert forall j | 0 <= j < |t.keys| :: t.keys[j] in Separators(t);
  }

  /** With distinct keys, removing a key that equals no separator leaves exactly the entries with other keys. */
  lemma {:induction false} OffSeparatorsIsExact(d: nat, h: nat, t: Tree, k: Key)
    requires d >= 2 && Balanced(d, h, t, RootMin(t)) && Synced(t) && Ordered(false, t, Unbounded, Unbounded)
    requires DistinctKeys(Entries(t)) && k !in Separators(t)
    ensures Entries(RemoveFrom(d, h, t, k)) == Without(Entries(t), k)
  {
    RemoveExact(d, h, t, k);
    NoSeparatorNoMiss(d, h, t, k);
  }

  /** A key that equals no separator is never missed. */
  lemma {:induction false} NoSeparatorNoMiss(d: nat, h: nat, t: Tree, k: Key)
    requires d >= 2 && Balanced(d, h, t, RootMin(t)) && Synced(t) && k !in Separators(t)
    ensures !Misses(d, h, t, k)
    decreases h
  {
    if t.Inner? {
      RemoveStep(d, h, t, k);
      PrepareSeparators(d, t, k);
      var r := Prepare(d, t, k);
      NoSeparatorNoMiss(d, h - 1, r.node.children[r.child], k);
    }
  }

  /** Off the separators, the step keeps the key and brings no separator equal to it below. */
  lemma {:induction false} PrepareSeparators(d: nat, t: Tree, k: Key)
    requires d >= 2 && Siblings(d, t) && k !in Separators(t)
    ensures var r := Prepare(d, t, k);
            r.action != Swap && r.action != Replace && r.key == k && k !in Separators(r.node.children[r.child])
  {
    var i := LowerBound(t.keys, k);
    assert forall j | 0 <= j < |t.keys| :: t.keys[j] in Separators(t);
    BesideSeparatorsFree(d, t, i, k);
  }

  lemma {:induction false} BesideSeparatorsFree(d: nat, t: Tree, i: nat, k: Key)
    requires d >= 2 && Siblings(d, t) && k !in Separators(t) && i < |t.children|
    ensures var r := BesideSeparators(d, t, i, k); r.key == k && k !in Separators(r.node.children[r.child])
  {
    assert forall j | 0 <= j < |t.keys| :: t.keys[j] in Separators(t);
    assert forall j | 0 <= j < |t.children| :: k !in Separators(t.children[j]);
    if |t.children[i].keys| >= d {
    } else if i > 0 && |t.children[i - 1].keys| >= d {
      PairSeparators(t.children[i - 1], t.keys[i - 1], t.children[i], k);
    } else if i + 1 < |t.children| {
      PairSeparators(t.children[i], t.keys[i], t.children[i + 1], k);
    } else {
      PairSeparators(t.children[i - 1], t.keys[i - 1], t.children[i], k);
    }
  }

  lemma {:induction false} PairSeparators(l: Tree, sep: Key, r: Tree, k: Key)
    requires l.Leaf? <==> r.Leaf?
    requires sep != k && k !in Separators(l) && k !in Separators(r)
    ensures k !in Separators(Join(l, sep, r))
    ensures (if l.Leaf? then l.entries != [] else l.keys != [] && l.children != []) ==>
              k !in Separators(ShiftRight(l, sep, r).right)
    ensures (if r.Leaf? then |r.entries| >= 2 else r.keys != [] && r.children != []) ==>
              k !in Separators(ShiftLeft(l, sep, r).left)
  {
    if l.Inner? {
      assert forall j | 0 <= j < |l.keys| :: l.keys[j] in Separators(l);
      assert forall j | 0 <= j < |r.keys| :: r.keys[j] in Separators(r);
      assert forall j | 0 <= j < |l.children| :: k !in Separators(l.children[j]);
      assert forall j | 0 <= j < |r.children| :: k !in Separators(r.children[j]);
    }
  }
}
