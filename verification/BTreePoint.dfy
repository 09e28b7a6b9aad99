/**
 Point queries: when they are exact, and that after any run of insertions the leaf for a key
 has it exactly when it was inserted.
 */
module BTreePoint {
  import opened BTreeModel
  import opened BTreeInsert
  import opened BTreeInsertLinks
  import opened BTreeIndex
  import opened BTreeSearch

  // ---------------------------------------------------------------- separators present on their right

  /** Every separator is a stored key of the subtree on its right. */
  ghost predicate SeparatorsRight(t: Tree)
    decreases t
  {
    t.Inner? ==>
      && |t.children| == |t.keys| + 1
      && (forall i | 0 <= i < |t.keys| :: HasKey(Entries(t.children[i + 1]), t.keys[i]))
      && forall i | 0 <= i < |t.children| :: SeparatorsRight(t.children[i])
  }

  lemma {:induction false} NotEmpty(d: nat, h: nat, t: Tree, min: int)
    requires d >= 2 && Balanced(d, h, t, min) && Size(t) > 0
    ensures Entries(t) != []
    decreases t
  {
    if t.Inner? {
      NotEmpty(d, h - 1, t.children[0], d - 1);
    }
  }

  lemma {:induction false} HalvesRight(d: nat, c: Tree, newId: PageId)
    requires d >= 2 && Full(d, c) && SeparatorsRight(c)
    ensures var h := Split(d, c, newId);
            SeparatorsRight(h.left) && SeparatorsRight(h.right) && HasKey(Entries(h.right), h.sep)
  {
    var h := Split(d, c, newId);
    if c.Leaf? {
      assert h.right.entries[0].key == h.sep;
    } else {
      HasKeyBelow(h.right, 0, h.sep);
      assert forall i | 0 <= i < |h.right.keys| ::
          h.right.keys[i] == c.keys[i + d] && h.right.children[i + 1] == c.children[i + d + 1];
    }
  }

  /** The least key of a full node stays in its left half. */
  lemma {:induction false} LeastStaysLeft(d: nat, h: nat, c: Tree, newId: PageId, k: Key, hi: Bound)
    requires d >= 2 && Full(d, c) && Balanced(d, h, c, d - 1)
    requires Ordered(false, c, At(k), hi) && HasKey(Entries(c), k)
    ensures HasKey(Entries(Split(d, c, newId).left), k)
  {
    hide Balanced, Ordered, Full, Split, Entries;
    var hv := Split(d, c, newId);
    HalvesKeepEntries(d, c, newId);
    EntriesSorted(false, c, At(k), hi);
    LeftHalfBalanced(d, h, c, newId);
    NotEmpty(d, h, hv.left, d - 1);
    var es, l := Entries(c), Entries(hv.left);
    var i :| 0 <= i < |es| && es[i].key == k;
    assert es[0] == l[0] && es[0].key <= es[i].key && Above(At(k), es[0].key);
  }

  lemma {:induction false} LeftHalfBalanced(d: nat, h: nat, c: Tree, newId: PageId)
    requires d >= 2 && Full(d, c) && Balanced(d, h, c, d - 1)
    ensures Balanced(d, h, Split(d, c, newId).left, d - 1)
  {
  }

  lemma {:induction false} SplitKeepsRight(d: nat, h: nat, p: Tree, i: nat, newId: PageId, lo: Bound, hi: Bound)
    requires d >= 2 && p.Inner? && Balanced(d, h, p, 0) && i < |p.children| && Full(d, p.children[i])
    requires Ordered(false, p, lo, hi) && SeparatorsRight(p)
    ensures SeparatorsRight(SplitChild(d, p, i, newId))
  {
    var c := p.children[i];
    HalvesRight(d, c, newId);
    if i > 0 {
      assert Balanced(d, h - 1, c, d - 1);
      LeastStaysLeft(d, h - 1, c, newId, p.keys[i - 1], HiOf(p.keys, hi, i));
    }
    SpliceRight(p, i, Split(d, c, newId), SplitChild(d, p, i, newId));
  }

  lemma {:induction false} SpliceRight(p: Tree, i: nat, hv: Halves, s: Tree)
    requires p.Inner? && i < |p.children| && SeparatorsRight(p) && SeparatorsRight(hv.left) && SeparatorsRight(hv.right)
    requires HasKey(Entries(hv.right), hv.sep) && (i > 0 ==> HasKey(Entries(hv.left), p.keys[i - 1]))
    requires s.Inner? && s.keys == p.keys[..i] + [hv.sep] + p.keys[i..]
    requires s.children == p.children[..i] + [hv.left, hv.right] + p.children[i + 1..]
    ensures SeparatorsRight(s)
  {
    hide Entries, HasKey;
    forall j | 0 <= j < |s.keys|
      ensures HasKey(Entries(s.children[j + 1]), s.keys[j])
    {
      if j < i {
        assert s.keys[j] == p.keys[j];
        assert s.children[j + 1] == if j + 1 < i then p.children[j + 1] else hv.left;
      } else if j > i {
        assert s.keys[j] == p.keys[j - 1] && s.children[j + 1] == p.children[j];
      }
    }
    forall j | 0 <= j < |s.children|
      ensures SeparatorsRight(s.children[j])
    {
      if j < i {
        assert s.children[j] == p.children[j];
      } else if j > i + 1 {
        assert s.children[j] == p.children[j - 1];
      }
    }
  }

  lemma {:induction false} InsertKeepsRight(d: nat, h: nat, t: Tree, e: Entry, last: nat, lo: Bound, hi: Bound)
    requires d >= 2 && Balanced(d, h, t, 0) && Size(t) < 2 * d - 1
    requires Ordered(false, t, lo, hi) && SeparatorsRight(t)
    requires Above(lo, e.key) && Below(false, e.key, hi)
    ensures SeparatorsRight(InsertNonFull(d, h, t, e, last).tree)
    decreases h
  {
    if t.Inner? {
      hide Descend, Ordered, SeparatorsRight, Balanced, Separators, Entries;
      var s := Descend(d, h, t, e.key, last);
      DescendKeepsOrder(d, h, false, t, e.key, last, lo, hi);
      DescendKeepsRight(d, h, t, e.key, last, lo, hi);
      var c := s.node.children[s.child];
      InsertKeepsRight(d, h - 1, c, e, s.last, LoOf(s.node.keys, lo, s.child), HiOf(s.node.keys, hi, s.child));
      InsertAddsEntry(d, h - 1, c, e, s.last);
      WithChildRight(s.node, s.child, InsertNonFull(d, h - 1, c, e, s.last).tree, e);
    }
  }

  lemma {:induction false} DescendKeepsRight(d: nat, h: nat, t: Tree, k: Key, last: nat, lo: Bound, hi: Bound)
    requires d >= 2 && Balanced(d, h, t, 0) && Size(t) < 2 * d - 1 && t.Inner?
    requires Ordered(false, t, lo, hi) && SeparatorsRight(t)
    ensures SeparatorsRight(Descend(d, h, t, k, last).node)
  {
    var i := RouteInsert(t.keys, k);
    assert Balanced(d, h - 1, t.children[i], d - 1);
    if Size(t.children[i]) == 2 * d - 1 {
      SplitKeepsRight(d, h, t, i, last + 1, lo, hi);
    }
  }

  lemma {:induction false} WithChildRight(p: Tree, j: nat, c: Tree, e: Entry)
    requires p.Inner? && j < |p.children| && SeparatorsRight(p) && SeparatorsRight(c)
    requires Adds(Entries(p.children[j]), e, Entries(c))
    ensures SeparatorsRight(WithChild(p, j, c))
  {
    if j > 0 {
      AddsHasKey(Entries(p.children[j]), e, Entries(c), p.keys[j - 1]);
    }
  }

  /** After any run of insertions, duplicates included, every separator is stored on its right. */
  lemma {:induction false} BuildRight(d: nat, es: seq<Entry>, last: nat)
    requires d >= 2
    ensures var x := Build(d, es, last).index; x.Rooted? ==> SeparatorsRight(x.tree)
  {
    if es != [] {
      var n := |es| - 1;
      BuildRight(d, es[..n], last);
      var v := Build(d, es[..n], last);
      InsertKeepsValid(d, false, v, es[n]);
      if v.index.Rooted? {
        PreparedKeeps(d, false, v.index.tree, v.last);
        PreparedRight(d, v.index.tree, v.last);
        var r := Prepared(d, v.index.tree, v.last);
        InsertKeepsRight(d, r.height, r.root, es[n], r.last, Unbounded, Unbounded);
      }
    }
  }

  lemma {:induction false} PreparedRight(d: nat, root: Tree, last: nat)
    requires d >= 2 && Balanced(d, Height(root), root, 0) && SeparatorsRight(root)
    requires Ordered(false, root, Unbounded, Unbounded)
    ensures SeparatorsRight(Prepared(d, root, last).root)
  {
    if Size(root) == 2 * d - 1 {
      TopBalanced(d, root, last);
      NewRootRight(d, root, last);
    }
  }

  lemma {:induction false} NewRootRight(d: nat, root: Tree, last: nat)
    requires d >= 2 && Full(d, root) && Balanced(d, Height(root) + 1, Top(root, last), 0) && SeparatorsRight(root)
    requires Ordered(false, root, Unbounded, Unbounded)
    ensures SeparatorsRight(NewRoot(d, root, last))
  {
    TopOrdered(root, last);
    SplitKeepsRight(d, Height(root) + 1, Top(root, last), 0, last + 2, Unbounded, Unbounded);
  }

  lemma {:induction false} TopOrdered(root: Tree, last: nat)
    requires Ordered(false, root, Unbounded, Unbounded) && SeparatorsRight(root)
    ensures Ordered(false, Top(root, last), Unbounded, Unbounded) && SeparatorsRight(Top(root, last))
  {
  }

  lemma {:induction false} TopBalanced(d: nat, root: Tree, last: nat)
    requires d >= 2 && Balanced(d, Height(root), root, 0) && Size(root) == 2 * d - 1
    ensures Balanced(d, Height(root) + 1, Top(root, last), 0) && Full(d, root)
  {
    assert Balanced(d, Height(root), root, d - 1);
  }

  // ---------------------------------------------------------------- membership

  /** The leaf for a key has it exactly when the tree does: in a strict tree, and in any tree whose
      separators are stored on their right. */
  lemma {:induction false} LeafDecides(strict: bool, t: Tree, k: Key, lo: Bound, hi: Bound)
    requires Ordered(strict, t, lo, hi) && (strict || SeparatorsRight(t))
    ensures HasKey(LeafEntries(true, t, k), k) <==> HasKey(Entries(t), k)
    decreases t
  {
    if t.Inner? {
      var i := UpperBound(t.keys, k);
      var c := t.children[i];
      LeafDecides(strict, c, k, LoOf(t.keys, lo, i), HiOf(t.keys, hi, i));
      if HasKey(Entries(c), k) {
        HasKeyBelow(t, i, k);
      } else if HasKey(Entries(t), k) {
        NotElsewhere(strict, t, i, k, lo, hi);
      }
    }
  }

  lemma {:induction false} NotElsewhere(strict: bool, t: Tree, i: nat, k: Key, lo: Bound, hi: Bound)
    requires t.Inner? && Ordered(strict, t, lo, hi) && (strict || SeparatorsRight(t))
    requires i == UpperBound(t.keys, k) && HasKey(Entries(t), k)
    ensures HasKey(Entries(t.children[i]), k)
  {
    var a, c, b := EntriesOf(t.children[..i]), Entries(t.children[i]), EntriesOf(t.children[i + 1..]);
    EntriesOfAt(t.children, i);
    HasKeyConcat(a, c, k);
    HasKeyConcat(a + c, b, k);
    if i < |t.keys| {
      SuffixSorted(strict, t, i + 1, lo, hi);
      assert !HasKey(b, k);
    } else {
      assert t.children[i + 1..] == [];
    }
    if i > 0 {
      PrefixBelow(strict, t, i, lo, hi);
      assert HasKey(a, k) ==> t.keys[i - 1] == k && !strict;
    } else {
      assert t.children[..0] == [];
    }
  }

  lemma {:induction false} HasKeyMultiset(a: seq<Entry>, b: seq<Entry>, k: Key)
    requires multiset(a) == multiset(b) && HasKey(a, k)
    ensures HasKey(b, k)
  {
    var i :| 0 <= i < |a| && a[i].key == k;
    assert a[i] in multiset(b);
    var j :| 0 <= j < |b| && b[j] == a[i];
  }

  lemma {:induction false} LeafHas(t: Tree, k: Key)
    requires HasKey(LeafEntries(true, t, k), k)
    ensures HasKey(Entries(t), k)
    decreases t
  {
    if t.Inner? {
      var i := UpperBound(t.keys, k);
      if i < |t.children| {
        LeafHas(t.children[i], k);
        HasKeyBelow(t, i, k);
      }
    }
  }

  /** The child that a search takes after the step before an insertion's descent: the same one, unless its
      separator on the right equals the key. */
  lemma {:induction false} RouteAfterStep(ks: seq<Key>, j: nat, k: Key)
    requires SortedKeys(ks) && j <= |ks| && (j > 0 ==> ks[j - 1] <= k) && (j < |ks| ==> k <= ks[j])
    ensures if j < |ks| && ks[j] == k then UpperBound(ks, k) > j else UpperBound(ks, k) == j
  {
    var i := UpperBound(ks, k);
    assert forall a, b | 0 <= a < b < |ks| :: ks[a] <= ks[b];
    assert j < i ==> ks[j] <= k;
  }

  lemma {:induction false} StepRoute(d: nat, h: nat, t: Tree, k: Key, last: nat, lo: Bound, hi: Bound)
    requires d >= 2 && Balanced(d, h, t, 0) && Size(t) < 2 * d - 1 && t.Inner?
    requires Ordered(false, t, lo, hi) && Above(lo, k) && Below(false, k, hi) && !HasKey(Entries(t), k)
    ensures var s := Descend(d, h, t, k, last);
            var i := UpperBound(s.node.keys, k);
            && |s.node.children| == |s.node.keys| + 1
            && (if s.child < |s.node.keys| && s.node.keys[s.child] == k then i > s.child else i == s.child)
            && (forall j | 0 <= j < |s.node.children| :: !HasKey(Entries(s.node.children[j]), k))
            && Ordered(false, s.node.children[s.child], LoOf(s.node.keys, lo, s.child), HiOf(s.node.keys, hi, s.child))
            && Above(LoOf(s.node.keys, lo, s.child), k) && Below(false, k, HiOf(s.node.keys, hi, s.child))
  {
    hide Descend, Balanced, Ordered, Entries, HasKey;
    var s := Descend(d, h, t, k, last);
    DescendKeepsOrder(d, h, false, t, k, last, lo, hi);
    DescendKeepsEntries(d, h, t, k, last);
    OrderedBelow(false, s.node, s.child, lo, hi);
    SeparatorsSorted(false, s.node, lo, hi);
    RouteAfterStep(s.node.keys, s.child, k);
    NotBelow(s.node, k);
  }

  /** A key that was not stored is found after its insertion if and only if the descent did not promote it. */
  lemma {:induction false} FoundBelow(d: nat, h: nat, t: Tree, e: Entry, last: nat, lo: Bound, hi: Bound)
    requires d >= 2 && Balanced(d, h, t, 0) && Size(t) < 2 * d - 1
    requires Ordered(false, t, lo, hi) && Above(lo, e.key) && Below(false, e.key, hi)
    requires !HasKey(Entries(t), e.key)
    ensures HasKey(LeafEntries(true, InsertNonFull(d, h, t, e, last).tree, e.key), e.key)
         <==> !Promotes(d, h, t, e.key, last)
    decreases h
  {
    hide Descend, Balanced, Ordered, Entries, HasKey, LeafEntries, InsertNonFull, Promotes, WithChild, Above, Below;
    if t.Leaf? {
      LeafFound(d, h, t, e, last);
    } else {
      var k, s := e.key, Descend(d, h, t, e.key, last);
      var j, c := s.child, s.node.children[s.child];
      StepRoute(d, h, t, k, last, lo, hi);
      InsertUnfold(d, h, t, e, last);
      SearchUnfold(s.node, j, InsertNonFull(d, h - 1, c, e, s.last).tree, k);
      if j < |s.node.keys| && s.node.keys[j] == k {
        var other := s.node.children[UpperBound(s.node.keys, k)];
        if HasKey(LeafEntries(true, other, k), k) { LeafHas(other, k); }
      } else {
        FoundBelow(d, h - 1, c, e, s.last, LoOf(s.node.keys, lo, j), HiOf(s.node.keys, hi, j));
      }
    }
  }

  lemma LeafFound(d: nat, h: nat, t: Tree, e: Entry, last: nat)
    requires d >= 2 && Balanced(d, h, t, 0) && Size(t) < 2 * d - 1 && t.Leaf?
    ensures HasKey(LeafEntries(true, InsertNonFull(d, h, t, e, last).tree, e.key), e.key)
    ensures !Promotes(d, h, t, e.key, last)
  {
    var t' := InsertNonFull(d, h, t, e, last).tree;
    assert t'.entries[LowerBound(KeysOf(t.entries), e.key)] == e;
  }

  lemma InsertUnfold(d: nat, h: nat, t: Tree, e: Entry, last: nat)
    requires d >= 2 && Balanced(d, h, t, 0) && Size(t) < 2 * d - 1 && t.Inner?
    ensures h > 0
    ensures var s := Descend(d, h, t, e.key, last);
            var c := s.node.children[s.child];
            && Balanced(d, h - 1, c, 0) && Size(c) < 2 * d - 1
            && InsertNonFull(d, h, t, e, last).tree
               == WithChild(s.node, s.child, InsertNonFull(d, h - 1, c, e, s.last).tree)
            && (Promotes(d, h, t, e.key, last) <==>
                  || (s.child < |s.node.keys| && s.node.keys[s.child] == e.key)
                  || Promotes(d, h - 1, c, e.key, s.last))
  {
    var s := Descend(d, h, t, e.key, last);
    BalancedMin(d, h - 1, s.node.children[s.child], d - 1, 0);
  }

  lemma SearchUnfold(p: Tree, j: nat, c: Tree, k: Key)
    requires p.Inner? && |p.children| == |p.keys| + 1 && j < |p.children|
    ensures var i := UpperBound(p.keys, k);
            LeafEntries(true, WithChild(p, j, c), k) == LeafEntries(true, if i == j then c else p.children[i], k)
  {
  }

  lemma SeparatorsSorted(strict: bool, p: Tree, lo: Bound, hi: Bound)
    requires p.Inner? && Ordered(strict, p, lo, hi)
    ensures SortedKeys(p.keys)
  {
  }

  lemma NotBelow(p: Tree, k: Key)
    requires p.Inner? && !HasKey(Entries(p), k)
    ensures forall j | 0 <= j < |p.children| :: !HasKey(Entries(p.children[j]), k)
  {
    forall j | 0 <= j < |p.children|
      ensures !HasKey(Entries(p.children[j]), k)
    {
      if HasKey(Entries(p.children[j]), k) { HasKeyBelow(p, j, k); }
    }
  }

  /** A search for the key descends to a leaf that has it. */
  ghost predicate Found(x: Index, k: Key) {
    x.Rooted? && HasKey(LeafEntries(true, x.tree, k), k)
  }

  /** On every valid index, strict or not: a key that was not stored is found after its insertion if and only if
      the insertion did not promote it. */
  lemma {:induction false} InsertedIsFound(d: nat, v: Version, e: Entry)
    requires Valid(d, false, v) && !HasKey(Contents(v.index), e.key)
    ensures v.index.Rooted? ==> Balanced(d, Height(v.index.tree), v.index.tree, 0)
    ensures Found(Insert(d, v, e).index, e.key) <==> !PromotesIn(d, v, e.key)
  {
    if v.index.Rooted? {
      PreparedKeeps(d, false, v.index.tree, v.last);
      var r := Prepared(d, v.index.tree, v.last);
      FoundBelow(d, r.height, r.root, e, r.last, Unbounded, Unbounded);
    } else {
      assert [e][0].key == e.key;
    }
  }

  /** After any run of insertions, duplicates included, a search finds exactly the inserted keys. */
  lemma {:induction false} SearchAfterInserts(d: nat, es: seq<Entry>, last: nat, k: Key)
    requires d >= 2
    ensures var x := Build(d, es, last).index;
            (x.Rooted? && HasKey(LeafEntries(true, x.tree, k), k)) <==> HasKey(es, k)
  {
    var x := Build(d, es, last).index;
    BuildContents(d, es, last);
    BuildRight(d, es, last);
    if HasKey(es, k) { HasKeyMultiset(es, Contents(x), k); }
    if HasKey(Contents(x), k) { HasKeyMultiset(Contents(x), es, k); }
    if x.Rooted? {
      LeafDecides(false, x.tree, k, Unbounded, Unbounded);
    }
  }

  // ---------------------------------------------------------------- the answer of a point query

  /** In strictly sorted entries a key has one record id, or none. */
  lemma {:induction false} OneRid(es: seq<Entry>, k: Key)
    requires SortedEntries(true, es)
    ensures !HasKey(es, k) ==> InRange(es, k, k) == []
    ensures forall i | 0 <= i < |es| && es[i].key == k :: InRange(es, k, k) == [es[i].rid]
  {
    if !HasKey(es, k) {
      InRangeEmpty(es, k, k);
    }
    forall i | 0 <= i < |es| && es[i].key == k
      ensures InRange(es, k, k) == [es[i].rid]
    {
      var a, b, c := es[..i], [es[i]], es[i + 1..];
      assert es == a + b + c;
      InRangeConcat(a + b, c, k, k);
      InRangeConcat(a, b, k, k);
      InRangeEmpty(a, k, k);
      InRangeEmpty(c, k, k);
      assert b[1..] == [];
      assert InRange(b, k, k) == [es[i].rid] + [];
    }
  }

  /** After inserting distinct keys, a point query returns exactly the key's record id, or nothing,
      and agrees with the search and with the range query for that key. */
  lemma {:induction false} PointQueryAfterInserts(d: nat, es: seq<Entry>, last: nat, k: Key)
    requires d >= 2 && DistinctKeys(es)
    ensures var x := Build(d, es, last).index;
            x.Rooted? ==>
              var found := InRange(EntriesFrom(true, x.tree, k), k, k);
              && found == InRange(EntriesFrom(false, x.tree, k), k, k)
              && (found != [] <==> HasKey(LeafEntries(true, x.tree, k), k))
              && (found == [] <==> !HasKey(es, k))
              && forall i | 0 <= i < |es| && es[i].key == k :: found == [es[i].rid]
  {
    var x := Build(d, es, last).index;
    BuildStrict(d, es, last);
    BuildContents(d, es, last);
    SearchAfterInserts(d, es, last, k);
    if x.Rooted? {
      PointScanComplete(true, x.tree, k);
      RangeScanComplete(true, x.tree, k, k);
      EntriesSorted(true, x.tree, Unbounded, Unbounded);
      var cs := Entries(x.tree);
      OneRid(cs, k);
      forall i | 0 <= i < |es| && es[i].key == k
        ensures InRange(cs, k, k) == [es[i].rid]
      {
        assert es[i] in multiset(cs);
        var j :| 0 <= j < |cs| && cs[j] == es[i];
      }
      if !HasKey(es, k) && HasKey(cs, k) {
        HasKeyMultiset(cs, es, k);
      }
    }
  }

  // ---------------------------------------------------------------- a run of equal keys that is cut

  /** A fourth equal key splits a full leaf of minimum degree 2: the point query then misses one of the four. */
  lemma {:induction false} CutRunExample()
    ensures var e := i => Entry(1, Rid(1, i));
            var full := Leaf(1, [e(2), e(1), e(0)], [1, 1, 1], NULL_PAGE, NULL_PAGE);
            var t := Inner(2, [1], [Leaf(1, [e(2)], [1], 3, 3),
                Leaf(3, [e(3), e(1), e(0)], [1, 1, 1], NULL_PAGE, NULL_PAGE)]);
            && Balanced(2, 0, full, 0)
            && Insert(2, Version(Rooted(full), 1), e(3)) == Version(Rooted(t), 3)
            && Ordered(false, t, Unbounded, Unbounded) && RunCut(t, 1)
            && InRange(Entries(t), 1, 1) == [Rid(1, 2), Rid(1, 3), Rid(1, 1), Rid(1, 0)]
            && InRange(EntriesFrom(true, t, 1), 1, 1) == [Rid(1, 3), Rid(1, 1), Rid(1, 0)]
  {
    var e := i => Entry(1, Rid(1, i));
    var l := Leaf(1, [e(2)], [1], 3, 3);
    var r := Leaf(3, [e(3), e(1), e(0)], [1, 1, 1], NULL_PAGE, NULL_PAGE);
    var t := Inner(2, [1], [l, r]);
    hide Balanced, Insert, Ordered, RunCut, Entries, EntriesFrom, InRange;
    CutRunReached(e(0), e(1), e(2), e(3));
    CutRunCuts(l, r);
    CutRunSeen(l, r);
    AllInRange([e(2)], 1);
    AllInRange([e(3), e(1), e(0)], 1);
    InRangeConcat([e(2)], [e(3), e(1), e(0)], 1, 1);
  }

  /** The scan of the point query starts at the second leaf. */
  lemma {:induction false} CutRunSeen(l: Tree, r: Tree)
    requires l.Leaf? && r.Leaf?
    ensures var t := Inner(2, [1], [l, r]); Entries(t) == l.entries + r.entries && EntriesFrom(true, t, 1) == r.entries
  {
    var t, cs := Inner(2, [1], [l, r]), [l, r];
    assert UpperBound([1], 1) == 1;
    assert cs[1..] == [r] && [r][1..] == [] && cs[..1] == [l] && [l][1..] == [];
    assert LeavesOf([l]) == [l] + [] && LeavesOf([r]) == [r] + [];
    assert EntriesOf([r]) == r.entries + [];
    assert Entries(t) == Entries(l) + EntriesOf([r]);
    assert Leaves(t) == Leaves(l) + LeavesOf([r]);
    assert LeafIndex(true, t, 1) == |LeavesOf([l])| + LeafIndex(true, r, 1);
    assert Leaves(t)[1..] == [r];
  }

  lemma {:induction false} AllInRange(es: seq<Entry>, k: Key)
    requires forall i | 0 <= i < |es| :: es[i].key == k
    ensures InRange(es, k, k) == seq(|es|, i requires 0 <= i < |es| => es[i].rid)
  {
    if es != [] { AllInRange(es[1..], k); }
  }

  lemma {:induction false} CutRunCuts(l: Tree, r: Tree)
    requires l.Leaf? && r.Leaf? && l.entries != []
    requires (forall x | x in l.entries :: x.key == 1) && (forall x | x in r.entries :: x.key == 1)
    ensures Ordered(false, Inner(2, [1], [l, r]), Unbounded, Unbounded) && RunCut(Inner(2, [1], [l, r]), 1)
  {
    var t := Inner(2, [1], [l, r]);
    assert Ordered(false, l, Unbounded, At(1)) && Ordered(false, r, At(1), Unbounded);
    assert UpperBound([1], 1) == 1;
    assert t.children[..1] == [l] && [l][1..] == [];
    assert EntriesOf([l]) == l.entries;
    assert l.entries[0].key == 1;
  }

  lemma {:induction false} CutRunReached(e0: Entry, e1: Entry, e2: Entry, e3: Entry)
    requires e0.key == e1.key == e2.key == e3.key == 1
    ensures var full := Leaf(1, [e2, e1, e0], [1, 1, 1], NULL_PAGE, NULL_PAGE);
            var t := Inner(2, [1], [Leaf(1, [e2], [1], 3, 3), Leaf(3, [e3, e1, e0], [1, 1, 1], NULL_PAGE, NULL_PAGE)]);
            && Balanced(2, 0, full, 0)
            && Insert(2, Version(Rooted(full), 1), e3) == Version(Rooted(t), 3)
  {
    hide InsertNonFull;
    var full := Leaf(1, [e2, e1, e0], [1, 1, 1], NULL_PAGE, NULL_PAGE);
    var l, r := Leaf(1, [e2], [1], 3, 3), Leaf(3, [e1, e0], [1, 1], NULL_PAGE, NULL_PAGE);
    var s := Inner(2, [1], [l, r]);
    SplitRoot(2, 0, full, 1);
    CutRunSplit(full, l, r);
    assert Prepared(2, full, 1) == Ready(s, 1, 3);
    CutRunDescends(s, e3);
    assert [e3] + [e1, e0] == [e3, e1, e0];
    assert WithChild(s, 1, r.(entries := [e3] + r.entries, keys := [1, 1, 1])).children
        == [l, Leaf(3, [e3, e1, e0], [1, 1, 1], NULL_PAGE, NULL_PAGE)];
  }

  lemma {:induction false} CutRunSplit(full: Tree, l: Tree, r: Tree)
    requires full.Leaf? && full.id == 1 && |full.entries| == 3 && full.entries[1].key == 1
    requires l == Leaf(1, full.entries[..1], KeysOf(full.entries[..1]), 3, 3)
    requires r == Leaf(3, full.entries[1..], KeysOf(full.entries[1..]), full.next, full.nextPid)
    ensures NewRoot(2, full, 1) == Inner(2, [1], [l, r])
  {
    var top := Top(full, 1);
    assert Split(2, full, 3) == Halves(l, 1, r);
    assert top.children[..0] + [l, r] + top.children[1..] == [l, r];
    assert top.keys[..0] + [1] + top.keys[0..] == [1];
  }

  lemma {:induction false} CutRunDescends(s: Tree, e: Entry)
    requires Balanced(2, 1, s, 0) && Size(s) == 1 && s.keys == [1] && e.key == 1
    requires s.children[1].Leaf? && |s.children[1].entries| == 2 && forall x | x in s.children[1].entries :: x.key == 1
    ensures var r := s.children[1];
            InsertNonFull(2, 1, s, e, 3) == Grown(WithChild(s, 1, r.(entries := [e] + r.entries, keys := [1, 1, 1])), 3)
  {
    var r := s.children[1];
    assert RouteInsert([1], 1) == 1;
    assert Balanced(2, 0, r, 1);
    assert Descend(2, 1, s, 1, 3) == Step(s, 1, 3);
    assert r.entries[0] in r.entries && r.entries[1] in r.entries;
    assert LowerBound(KeysOf(r.entries), 1) == 0;
    assert r.entries[..0] + [e] + r.entries[0..] == [e] + r.entries;
    assert KeysOf([e] + r.entries) == [1, 1, 1];
  }
}
