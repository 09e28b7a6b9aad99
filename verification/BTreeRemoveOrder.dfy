/**
 A removal keeps the order of the tree, for every key.
 */
module BTreeRemoveOrder {
  import opened BTreeModel
  import opened BTreeInsert
  import opened BTreeInsertLinks
  import opened BTreeSearch
  import opened BTreePoint
  import opened BTreeRemoveModel
  import opened BTreeRemove

  // ---------------------------------------------------------------- bounds of subtrees

  lemma {:induction false} Widen(strict: bool, t: Tree, lo: Bound, hi: Bound, lo': Bound, hi': Bound)
    requires Ordered(strict, t, lo, hi)
    requires forall k | Above(lo, k) :: Above(lo', k)
    requires forall s, k | Below(s, k, hi) :: Below(s, k, hi')
    ensures Ordered(strict, t, lo', hi')
    decreases t
  {
    if t.Inner? {
      var ks, cs := t.keys, t.children;
      forall i | 0 <= i < |cs|
        ensures Ordered(strict, cs[i], LoOf(ks, lo', i), HiOf(ks, hi', i))
      {
        Widen(strict, cs[i], LoOf(ks, lo, i), HiOf(ks, hi, i), LoOf(ks, lo', i), HiOf(ks, hi', i));
      }
    }
  }

  lemma {:induction false} Loosen(t: Tree, lo: Bound, hi: Bound)
    requires Ordered(true, t, lo, hi)
    ensures Ordered(false, t, lo, hi)
    decreases t
  {
    if t.Inner? {
      var ks, cs := t.keys, t.children;
      forall i | 0 <= i < |cs|
        ensures Ordered(false, cs[i], LoOf(ks, lo, i), HiOf(ks, hi, i))
      {
        Loosen(cs[i], LoOf(ks, lo, i), HiOf(ks, hi, i));
      }
    }
  }

  /** The cached end keys of a tree are those of its first and last entry. */
  lemma {:induction false} EndKeys(d: nat, h: nat, t: Tree)
    requires d >= 2 && Balanced(d, h, t, 1) && Synced(t)
    ensures Entries(t) != []
    ensures LastKey(t) == Entries(t)[|Entries(t)| - 1].key && FirstKey(t) == Entries(t)[0].key
    decreases t
  {
    if t.Inner? {
      var cs, n := t.children, |t.children| - 1;
      assert Balanced(d, h - 1, cs[0], d - 1) && Balanced(d, h - 1, cs[n], d - 1) && Synced(cs[0]) && Synced(cs[n]);
      BalancedMin(d, h - 1, cs[0], d - 1, 1);
      BalancedMin(d, h - 1, cs[n], d - 1, 1);
      EndKeys(d, h - 1, cs[0]);
      EndKeys(d, h - 1, cs[n]);
      EntriesOfAt(cs, n);
      assert cs[n + 1..] == [];
    }
  }

  /** A nonempty ordered tree is bounded by its last key... */
  lemma {:induction false} TightenHi(d: nat, h: nat, t: Tree, lo: Bound, hi: Bound)
    requires d >= 2 && Balanced(d, h, t, 1) && Synced(t) && Ordered(false, t, lo, hi)
    ensures Ordered(false, t, lo, At(LastKey(t)))
    decreases t
  {
    if t.Leaf? {
      assert LastKey(t) == t.entries[|t.entries| - 1].key;
    } else {
      var ks, cs, n := t.keys, t.children, |t.children| - 1;
      assert Balanced(d, h - 1, cs[n], d - 1) && Synced(cs[n]);
      BalancedMin(d, h - 1, cs[n], d - 1, 1);
      TightenHi(d, h - 1, cs[n], LoOf(ks, lo, n), hi);
      EndKeys(d, h - 1, cs[n]);
      EntriesSorted(false, cs[n], LoOf(ks, lo, n), hi);
      assert ks[n - 1] <= LastKey(t);
      forall i | 0 <= i < |cs|
        ensures Ordered(false, cs[i], LoOf(ks, lo, i), HiOf(ks, At(LastKey(t)), i))
      {
        assert i < n ==> HiOf(ks, At(LastKey(t)), i) == HiOf(ks, hi, i);
      }
    }
  }

  /** ... and by its first key. */
  lemma {:induction false} TightenLo(d: nat, h: nat, strict: bool, t: Tree, lo: Bound, hi: Bound)
    requires d >= 2 && Balanced(d, h, t, 1) && Synced(t) && Ordered(strict, t, lo, hi)
    ensures Ordered(strict, t, At(FirstKey(t)), hi)
    decreases t
  {
    if t.Leaf? {
      assert FirstKey(t) == t.entries[0].key;
    } else {
      var ks, cs := t.keys, t.children;
      assert Balanced(d, h - 1, cs[0], d - 1) && Synced(cs[0]);
      BalancedMin(d, h - 1, cs[0], d - 1, 1);
      TightenLo(d, h - 1, strict, cs[0], lo, HiOf(ks, hi, 0));
      EndKeys(d, h - 1, cs[0]);
      EntriesSorted(strict, cs[0], lo, HiOf(ks, hi, 0));
      assert FirstKey(t) <= ks[0];
      forall i | 0 <= i < |cs|
        ensures Ordered(strict, cs[i], LoOf(ks, At(FirstKey(t)), i), HiOf(ks, hi, i))
      {
        assert i > 0 ==> LoOf(ks, At(FirstKey(t)), i) == LoOf(ks, lo, i);
      }
    }
  }

  // ---------------------------------------------------------------- order

  lemma {:induction false} BorrowAndMergeKeepOrder(d: nat, strict: bool, t: Tree, i: nat, lo: Bound, hi: Bound)
    requires d >= 2 && Siblings(d, t) && i + 1 < |t.children| && Ordered(strict, t, lo, hi)
    ensures |t.children[i].keys| >= d ==> Ordered(strict, BorrowFromPrev(d, t, i + 1), lo, hi)
    ensures |t.children[i + 1].keys| >= d ==> Ordered(strict, BorrowFromNext(d, t, i), lo, hi)
    ensures Ordered(strict, Merge(d, t, i), lo, hi)
  {
    var l, r, sep := t.children[i], t.children[i + 1], t.keys[i];
    var plo, phi := LoOf(t.keys, lo, i), HiOf(t.keys, hi, i + 1);
    assert Ordered(strict, l, plo, At(sep)) && Ordered(strict, r, At(sep), phi);
    assert Sized(d, l) && Sized(d, r);
    if l.Leaf? {
      LeafShiftOrdered(strict, l, sep, r, plo, phi);
    } else {
      InnerShiftOrdered(strict, l, sep, r, plo, phi);
      InnerJoinOrdered(strict, l, sep, r, plo, phi);
    }
    WithJoinedOrdered(strict, t, i, Join(l, sep, r), lo, hi);
    if |l.keys| >= d {
      WithPairOrdered(strict, t, i, ShiftRight(l, sep, r), lo, hi);
    }
    if |r.keys| >= d {
      WithPairOrdered(strict, t, i, ShiftLeft(l, sep, r), lo, hi);
    }
  }

  /** A separator replaced by one that still divides its neighbours. */
  lemma {:induction false} WithSeparatorOrdered(strict: bool, p: Tree, i: nat, k: Key, lo: Bound, hi: Bound)
    requires p.Inner? && Ordered(strict, p, lo, hi) && i < |p.keys|
    requires Ordered(strict, p.children[i], LoOf(p.keys, lo, i), At(k))
    requires Ordered(strict, p.children[i + 1], At(k), HiOf(p.keys, hi, i + 1))
    requires Above(LoOf(p.keys, lo, i), k) && Below(false, k, HiOf(p.keys, hi, i + 1))
    ensures Ordered(strict, WithSeparator(p, i, k), lo, hi)
  {
    WithPairOrdered(strict, p, i, Halves(p.children[i], k, p.children[i + 1]), lo, hi);
    assert p.children[i := p.children[i]][i + 1 := p.children[i + 1]] == p.children;
  }

  lemma {:induction false} SwapKeepsOrder(d: nat, h: nat, t: Tree, i: nat, lo: Bound, hi: Bound)
    requires d >= 2 && t.Inner? && Balanced(d, h, t, 1) && Synced(t) && i < |t.keys| && Ordered(false, t, lo, hi)
    ensures Ordered(false, WithSeparator(t, i, LastKey(t.children[i])), lo, hi)
  {
    var l, r := t.children[i], t.children[i + 1];
    var plo, phi := LoOf(t.keys, lo, i), HiOf(t.keys, hi, i + 1);
    ChildFacts(d, h, t, i);
    BalancedMin(d, h - 1, l, d - 1, 1);
    var pred := LastKey(l);
    EndKeys(d, h - 1, l);
    EntriesSorted(false, l, plo, At(t.keys[i]));
    TightenHi(d, h - 1, l, plo, At(t.keys[i]));
    Widen(false, r, At(t.keys[i]), phi, At(pred), phi);
    assert i + 1 < |t.keys| ==> t.keys[i] <= t.keys[i + 1];
    WithSeparatorOrdered(false, t, i, pred, lo, hi);
  }

  lemma {:induction false} ReplaceKeepsOrder(d: nat, h: nat, strict: bool, t: Tree, i: nat, lo: Bound, hi: Bound)
    requires d >= 2 && t.Inner? && Balanced(d, h, t, 1) && Synced(t) && i < |t.keys| && Ordered(strict, t, lo, hi)
    ensures Ordered(strict, WithSeparator(t, i, FirstKey(t.children[i + 1])), lo, hi)
  {
    var l, r := t.children[i], t.children[i + 1];
    var plo, phi := LoOf(t.keys, lo, i), HiOf(t.keys, hi, i + 1);
    ChildFacts(d, h, t, i + 1);
    BalancedMin(d, h - 1, r, d - 1, 1);
    var succ := FirstKey(r);
    EndKeys(d, h - 1, r);
    EntriesSorted(strict, r, At(t.keys[i]), phi);
    TightenLo(d, h - 1, strict, r, At(t.keys[i]), phi);
    Widen(strict, l, plo, At(t.keys[i]), plo, At(succ));
    assert i > 0 ==> t.keys[i - 1] <= t.keys[i];
    WithSeparatorOrdered(strict, t, i, succ, lo, hi);
  }

  /** The step before a descent keeps the order; strictly, unless a separator is swapped for its predecessor. */
  lemma {:induction false} PrepareKeepsOrder(d: nat, h: nat, strict: bool, t: Tree, k: Key, lo: Bound, hi: Bound)
    requires d >= 2 && t.Inner? && Balanced(d, h, t, 1) && Synced(t) && Siblings(d, t) && Ordered(strict, t, lo, hi)
    ensures var r := Prepare(d, t, k); Ordered(strict && r.action != Swap, r.node, lo, hi)
  {
    var i := LowerBound(t.keys, k);
    if i < |t.keys| && t.keys[i] == k {
      AtSeparatorKeepsOrder(d, h, strict, t, i, k, lo, hi);
    } else {
      BesideKeepsOrder(d, strict, t, i, k, lo, hi);
    }
  }

  lemma {:induction false} AtSeparatorKeepsOrder(d: nat, h: nat, strict: bool, t: Tree, i: nat, k: Key, lo: Bound,
      hi: Bound)
    requires d >= 2 && t.Inner? && Balanced(d, h, t, 1) && Synced(t) && Siblings(d, t) && Ordered(strict, t, lo, hi)
    requires i < |t.keys|
    ensures var r := AtSeparator(d, t, i, k); Ordered(strict && r.action != Swap, r.node, lo, hi)
  {
    if |t.children[i].keys| >= d {
      if strict { Loosen(t, lo, hi); }
      SwapKeepsOrder(d, h, t, i, lo, hi);
    } else if |t.children[i + 1].keys| >= d {
      ReplaceKeepsOrder(d, h, strict, t, i, lo, hi);
    } else {
      BorrowAndMergeKeepOrder(d, strict, t, i, lo, hi);
    }
  }

  lemma {:induction false} BesideKeepsOrder(d: nat, strict: bool, t: Tree, i: nat, k: Key, lo: Bound, hi: Bound)
    requires d >= 2 && Siblings(d, t) && Ordered(strict, t, lo, hi) && i < |t.children|
    ensures var r := BesideSeparators(d, t, i, k); r.action != Swap && Ordered(strict, r.node, lo, hi)
  {
    if i > 0 {
      BorrowAndMergeKeepOrder(d, strict, t, i - 1, lo, hi);
    }
    if i + 1 < |t.children| {
      BorrowAndMergeKeepOrder(d, strict, t, i, lo, hi);
    }
  }

  /** A removal of `k` swaps some separator equal to its key for a predecessor. */
  ghost predicate Swaps(d: nat, h: nat, t: Tree, k: Key)
    requires d >= 2 && Balanced(d, h, t, RootMin(t)) && Synced(t)
    decreases h
  {
    t.Inner? &&
      (RemoveStep(d, h, t, k);
       var r := Prepare(d, t, k);
       r.action == Swap || Swaps(d, h - 1, r.node.children[r.child], r.key))
  }

  /** Every removal keeps the order; strictly, if it swaps no separator for its predecessor. */
  lemma {:induction false} RemoveKeepsOrder(d: nat, h: nat, strict: bool, t: Tree, k: Key, lo: Bound, hi: Bound)
    requires d >= 2 && Balanced(d, h, t, RootMin(t)) && Synced(t) && Ordered(strict, t, lo, hi)
    ensures Ordered(strict && !Swaps(d, h, t, k), RemoveFrom(d, h, t, k), lo, hi)
    decreases h
  {
    if t.Leaf? {
      LeafRemoveOrdered(strict, t, k, lo, hi);
      if strict { Loosen(RemoveFromLeaf(t, k), lo, hi); }
    } else {
      RemoveStep(d, h, t, k);
      PrepareKeepsOrder(d, h, strict, t, k, lo, hi);
      var r := Prepare(d, t, k);
      RemoveBelowOrdered(d, h, strict && r.action != Swap, strict && !Swaps(d, h, t, k), r, lo, hi);
    }
  }

  lemma {:induction false} RemoveBelowOrdered(d: nat, h: nat, strict: bool, keeps: bool, r: Turn, lo: Bound, hi: Bound)
    requires r.node.Inner? && r.child < |r.node.children| && Ordered(strict, r.node, lo, hi)
    requires var c := r.node.children[r.child];
             d >= 2 && h > 0 && Balanced(d, h - 1, c, RootMin(c)) && Synced(c)
    requires keeps ==> strict && !Swaps(d, h - 1, r.node.children[r.child], r.key)
    ensures Ordered(keeps, WithChild(r.node, r.child, RemoveFrom(d, h - 1, r.node.children[r.child], r.key)), lo, hi)
    decreases h, 0
  {
    var c := r.node.children[r.child];
    var clo, chi := LoOf(r.node.keys, lo, r.child), HiOf(r.node.keys, hi, r.child);
    if strict && !keeps { Loosen(r.node, lo, hi); }
    RemoveKeepsOrder(d, h - 1, keeps, c, r.key, clo, chi);
    WithChildOrdered(keeps, r.node, r.child, RemoveFrom(d, h - 1, c, r.key), lo, hi);
  }

  lemma {:induction false} LeafRemoveOrdered(strict: bool, t: Tree, k: Key, lo: Bound, hi: Bound)
    requires t.Leaf? && Ordered(strict, t, lo, hi)
    ensures Ordered(strict, RemoveFromLeaf(t, k), lo, hi)
  {
    var p, es := FindEntry(t.entries, k), RemoveFromLeaf(t, k).entries;
    assert p >= 0 ==> forall i | 0 <= i < |es| :: es[i] == if i < p then t.entries[i] else t.entries[i + 1];
  }
}
