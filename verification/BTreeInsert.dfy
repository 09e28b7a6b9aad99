/**
 What an insertion keeps: balance and occupancy, order, the leaf chain, the key caches,
 distinct page ids, and exactly one more entry.
 */
module BTreeInsert {
  import opened BTreeModel

  // ---------------------------------------------------------------- children lists

  lemma {:induction false} EntriesOfConcat(a: seq<Tree>, b: seq<Tree>)
    ensures EntriesOf(a + b) == EntriesOf(a) + EntriesOf(b)
  {
    if a == [] {
      assert a + b == b;
    } else {
      assert (a + b)[1..] == a[1..] + b;
      EntriesOfConcat(a[1..], b);
    }
  }

  lemma {:induction false} EntriesOfAt(cs: seq<Tree>, i: nat)
    requires i < |cs|
    ensures EntriesOf(cs) == EntriesOf(cs[..i]) + Entries(cs[i]) + EntriesOf(cs[i + 1..])
  {
    assert cs == cs[..i] + ([cs[i]] + cs[i + 1..]);
    EntriesOfConcat(cs[..i], [cs[i]] + cs[i + 1..]);
    assert ([cs[i]] + cs[i + 1..])[1..] == cs[i + 1..];
  }

  lemma {:induction false} EntriesOfUpdate(cs: seq<Tree>, i: nat, c: Tree)
    requires i < |cs|
    ensures EntriesOf(cs[i := c]) == EntriesOf(cs[..i]) + Entries(c) + EntriesOf(cs[i + 1..])
  {
    var cs' := cs[i := c];
    EntriesOfAt(cs', i);
    assert cs'[..i] == cs[..i] && cs'[i + 1..] == cs[i + 1..];
  }

  // ---------------------------------------------------------------- order of the contents

  ghost predicate Within(strict: bool, es: seq<Entry>, lo: Bound, hi: Bound) {
    forall i | 0 <= i < |es| :: Above(lo, es[i].key) && Below(strict, es[i].key, hi)
  }

  /** The entries of an ordered tree are sorted and within its bounds. */
  lemma {:induction false} EntriesSorted(strict: bool, t: Tree, lo: Bound, hi: Bound)
    requires Ordered(strict, t, lo, hi)
    ensures SortedEntries(strict, Entries(t)) && Within(strict, Entries(t), lo, hi)
    decreases t, 0
  {
    if t.Inner? {
      SuffixSorted(strict, t, 0, lo, hi);
      assert t.children[0..] == t.children;
    }
  }

  lemma {:induction false} SuffixSorted(strict: bool, t: Tree, i: nat, lo: Bound, hi: Bound)
    requires t.Inner? && Ordered(strict, t, lo, hi) && i < |t.children|
    ensures var es := EntriesOf(t.children[i..]);
            SortedEntries(strict, es) && Within(strict, es, LoOf(t.keys, lo, i), hi)
    decreases t, 0, |t.children| - i
  {
    var cs := t.children[i..];
    var a := Entries(cs[0]);
    EntriesSorted(strict, t.children[i], LoOf(t.keys, lo, i), HiOf(t.keys, hi, i));
    if i + 1 < |t.children| {
      SuffixSorted(strict, t, i + 1, lo, hi);
      assert cs[1..] == t.children[i + 1..];
      SortedConcat(strict, a, EntriesOf(cs[1..]), t.keys[i], LoOf(t.keys, lo, i), hi);
    } else {
      assert cs[1..] == [];
      assert EntriesOf(cs) == a;
    }
  }

  lemma {:induction false} SortedConcat(strict: bool, a: seq<Entry>, b: seq<Entry>, sep: Key, lo: Bound, hi: Bound)
    requires SortedEntries(strict, a) && SortedEntries(strict, b)
    requires Within(strict, a, lo, At(sep)) && Within(strict, b, At(sep), hi)
    requires Above(lo, sep) && Below(false, sep, hi)
    ensures SortedEntries(strict, a + b) && Within(strict, a + b, lo, hi)
  {
    var c := a + b;
    forall i | 0 <= i < |c|
      ensures Above(lo, c[i].key) && Below(strict, c[i].key, hi)
    {
      if i >= |a| { assert c[i] == b[i - |a|]; }
    }
    forall i, j | 0 <= i < j < |c|
      ensures if strict then c[i].key < c[j].key else c[i].key <= c[j].key
    {
      if i < |a| <= j {
        assert c[i] == a[i] && c[j] == b[j - |a|];
      } else if i >= |a| {
        assert c[i] == b[i - |a|] && c[j] == b[j - |a|];
      }
    }
  }

  /** Entries left of the i-th child do not exceed the separator before it. */
  lemma {:induction false} PrefixBelow(strict: bool, t: Tree, i: nat, lo: Bound, hi: Bound)
    requires t.Inner? && Ordered(strict, t, lo, hi) && 0 < i < |t.children|
    ensures Within(strict, EntriesOf(t.children[..i]), lo, At(t.keys[i - 1]))
    decreases i
  {
    var j := i - 1;
    EntriesSorted(strict, t.children[j], LoOf(t.keys, lo, j), HiOf(t.keys, hi, j));
    EntriesOfConcat(t.children[..j], [t.children[j]]);
    assert t.children[..i] == t.children[..j] + [t.children[j]];
    assert EntriesOf([t.children[j]]) == Entries(t.children[j]);
    if j > 0 {
      PrefixBelow(strict, t, j, lo, hi);
    }
  }

  // ---------------------------------------------------------------- splitting a child

  lemma {:induction false} HalvesKeepEntries(d: nat, c: Tree, newId: PageId)
    requires d >= 2 && Full(d, c)
    ensures var h := Split(d, c, newId); Entries(h.left) + Entries(h.right) == Entries(c)
  {
    if c.Inner? {
      EntriesOfConcat(c.children[..d], c.children[d..]);
      assert c.children[..d] + c.children[d..] == c.children;
    }
  }

  lemma {:induction false} SplitKeepsEntries(d: nat, p: Tree, i: nat, newId: PageId)
    requires d >= 2 && p.Inner? && |p.children| == |p.keys| + 1 && i < |p.children|
    requires Full(d, p.children[i])
    ensures Entries(SplitChild(d, p, i, newId)) == Entries(p)
  {
    var cs := p.children;
    var h := Split(d, cs[i], newId);
    HalvesKeepEntries(d, cs[i], newId);
    EntriesOfAt(cs, i);
    EntriesOfConcat(cs[..i] + [h.left, h.right], cs[i + 1..]);
    EntriesOfConcat(cs[..i], [h.left, h.right]);
    assert [h.left, h.right][1..] == [h.right];
    assert EntriesOf([h.right]) == Entries(h.right);
    assert EntriesOf([h.left, h.right]) == Entries(h.left) + Entries(h.right);
  }

  lemma {:induction false} LeafHalvesOrdered(d: nat, strict: bool, c: Tree, newId: PageId, lo: Bound, hi: Bound)
    requires d >= 2 && Full(d, c) && c.Leaf? && Ordered(strict, c, lo, hi)
    ensures var h := Split(d, c, newId);
            && Ordered(strict, h.left, lo, At(h.sep)) && Ordered(strict, h.right, At(h.sep), hi)
            && Above(lo, h.sep) && Below(false, h.sep, hi)
  {
    var h := Split(d, c, newId);
    assert h.sep == c.entries[d - 1].key;
    assert forall j | 0 <= j < |h.right.entries| :: h.right.entries[j] == c.entries[j + d - 1];
  }

  lemma {:induction false} InnerHalvesOrdered(d: nat, strict: bool, c: Tree, newId: PageId, lo: Bound, hi: Bound)
    requires d >= 2 && Full(d, c) && c.Inner? && Ordered(strict, c, lo, hi)
    ensures var h := Split(d, c, newId);
            && Ordered(strict, h.left, lo, At(h.sep)) && Ordered(strict, h.right, At(h.sep), hi)
            && Above(lo, h.sep) && Below(false, h.sep, hi)
  {
    var h := Split(d, c, newId);
    forall j | 0 <= j < |h.left.children|
      ensures Ordered(strict, h.left.children[j], LoOf(h.left.keys, lo, j), HiOf(h.left.keys, At(h.sep), j))
    {
      assert h.left.children[j] == c.children[j];
      assert LoOf(h.left.keys, lo, j) == LoOf(c.keys, lo, j) && HiOf(h.left.keys, At(h.sep), j) == HiOf(c.keys, hi, j);
    }
    forall j | 0 <= j < |h.right.children|
      ensures Ordered(strict, h.right.children[j], LoOf(h.right.keys, At(h.sep), j), HiOf(h.right.keys, hi, j))
    {
      assert h.right.children[j] == c.children[j + d];
      assert LoOf(h.right.keys, At(h.sep), j) == LoOf(c.keys, lo, j + d)
          && HiOf(h.right.keys, hi, j) == HiOf(c.keys, hi, j + d);
    }
  }

  lemma {:induction false} SpliceSeparators(ks: seq<Key>, i: nat, sep: Key, lo: Bound, hi: Bound)
    requires i <= |ks| && SeparatorsWithin(ks, lo, hi)
    requires Above(LoOf(ks, lo, i), sep) && Below(false, sep, HiOf(ks, hi, i))
    ensures SeparatorsWithin(ks[..i] + [sep] + ks[i..], lo, hi)
  {
    assert SortedKeys(ks);
    SpliceSorted(ks, i, sep);
    hide SortedKeys;
    var ks' := ks[..i] + [sep] + ks[i..];
    assert forall j | 0 <= j < |ks'| :: ks'[j] == if j < i then ks[j] else if j == i then sep else ks[j - 1];
    assert Above(lo, sep) && Below(false, sep, hi);
  }

  lemma {:induction false} SpliceSorted(ks: seq<Key>, i: nat, sep: Key)
    requires i <= |ks| && SortedKeys(ks) && (i > 0 ==> ks[i - 1] <= sep) && (i < |ks| ==> sep <= ks[i])
    ensures SortedKeys(ks[..i] + [sep] + ks[i..])
  {
    var ks' := ks[..i] + [sep] + ks[i..];
    forall a, b | 0 <= a < b < |ks'|
      ensures ks'[a] <= ks'[b]
    {
      if a == i { assert ks[i] <= ks[b - 1]; }
      if b == i { assert ks[a] <= ks[i - 1]; }
    }
  }

  /** A separator and its two subtrees put in place of one child. */
  lemma {:induction false} SpliceOrdered(strict: bool, p: Tree, i: nat, l: Tree, sep: Key, r: Tree, lo: Bound,
      hi: Bound, s: Tree)
    requires p.Inner? && Ordered(strict, p, lo, hi) && i < |p.children|
    requires Ordered(strict, l, LoOf(p.keys, lo, i), At(sep)) && Ordered(strict, r, At(sep), HiOf(p.keys, hi, i))
    requires Above(LoOf(p.keys, lo, i), sep) && Below(false, sep, HiOf(p.keys, hi, i))
    requires s == Inner(p.id, p.keys[..i] + [sep] + p.keys[i..], p.children[..i] + [l, r] + p.children[i + 1..])
    ensures Ordered(strict, s, lo, hi)
  {
    SpliceSeparators(p.keys, i, sep, lo, hi);
    forall j | 0 <= j < |s.children|
      ensures Ordered(strict, s.children[j], LoOf(s.keys, lo, j), HiOf(s.keys, hi, j))
    {
      if j < i {
        assert s.children[j] == p.children[j];
        assert LoOf(s.keys, lo, j) == LoOf(p.keys, lo, j) && HiOf(s.keys, hi, j) == HiOf(p.keys, hi, j);
      } else if j > i + 1 {
        assert s.children[j] == p.children[j - 1];
        assert LoOf(s.keys, lo, j) == LoOf(p.keys, lo, j - 1) && HiOf(s.keys, hi, j) == HiOf(p.keys, hi, j - 1);
      }
    }
  }

  lemma {:induction false} SplitKeepsOrder(d: nat, strict: bool, p: Tree, i: nat, newId: PageId, lo: Bound, hi: Bound)
    requires d >= 2 && p.Inner? && |p.children| == |p.keys| + 1 && i < |p.children|
    requires Full(d, p.children[i])
    requires Ordered(strict, p, lo, hi)
    ensures Ordered(strict, SplitChild(d, p, i, newId), lo, hi)
  {
    var c := p.children[i];
    var h := Split(d, c, newId);
    var clo, chi := LoOf(p.keys, lo, i), HiOf(p.keys, hi, i);
    if c.Inner? {
      InnerHalvesOrdered(d, strict, c, newId, clo, chi);
    } else {
      LeafHalvesOrdered(d, strict, c, newId, clo, chi);
    }
    SpliceOrdered(strict, p, i, h.left, h.sep, h.right, lo, hi, SplitChild(d, p, i, newId));
  }

  lemma HasKeyConcat(a: seq<Entry>, b: seq<Entry>, k: Key)
    ensures HasKey(a + b, k) <==> HasKey(a, k) || HasKey(b, k)
  {
    if HasKey(a, k) {
      var i :| 0 <= i < |a| && a[i].key == k;
      assert (a + b)[i].key == k;
    }
    if HasKey(b, k) {
      var i :| 0 <= i < |b| && b[i].key == k;
      assert (a + b)[|a| + i].key == k;
    }
  }

  lemma {:induction false} HasKeyBelow(p: Tree, j: nat, k: Key)
    requires p.Inner? && j < |p.children| && HasKey(Entries(p.children[j]), k)
    ensures HasKey(Entries(p), k)
  {
    EntriesOfAt(p.children, j);
    HasKeyConcat(EntriesOf(p.children[..j]), Entries(p.children[j]), k);
    HasKeyConcat(EntriesOf(p.children[..j]) + Entries(p.children[j]), EntriesOf(p.children[j + 1..]), k);
  }

  lemma {:induction false} AddsHasKey(es: seq<Entry>, e: Entry, es': seq<Entry>, k: Key)
    requires Adds(es, e, es') && HasKey(es, k)
    ensures HasKey(es', k)
  {
    var i :| 0 <= i < |es| && es[i].key == k;
    assert es[i] in multiset(es');
    var j :| 0 <= j < |es'| && es'[j] == es[i];
    assert es'[j].key == k;
  }

  /** A separator that a split puts into the parent was a separator below it or is a stored key. */
  lemma {:induction false} SplitSeparators(d: nat, p: Tree, i: nat, newId: PageId, k: Key)
    requires d >= 2 && p.Inner? && |p.children| == |p.keys| + 1 && i < |p.children|
    requires Full(d, p.children[i])
    requires k in Separators(SplitChild(d, p, i, newId))
    ensures k in Separators(p) || HasKey(Entries(p), k)
  {
    var s := SplitChild(d, p, i, newId);
    if j :| 0 <= j < |s.keys| && s.keys[j] == k {
      SplitOwnSeparators(d, p, i, newId, j);
    } else {
      var j :| 0 <= j < |s.children| && k in Separators(s.children[j]);
      SplitChildSeparators(d, p, i, newId, k, j);
    }
  }

  lemma {:induction false} SplitOwnSeparators(d: nat, p: Tree, i: nat, newId: PageId, j: nat)
    requires d >= 2 && p.Inner? && |p.children| == |p.keys| + 1 && i < |p.children|
    requires Full(d, p.children[i]) && j < |SplitChild(d, p, i, newId).keys|
    ensures var k := SplitChild(d, p, i, newId).keys[j]; k in Separators(p) || HasKey(Entries(p), k)
  {
    var c := p.children[i];
    var k := SplitChild(d, p, i, newId).keys[j];
    if j < i {
      assert p.keys[j] == k;
    } else if j > i {
      assert p.keys[j - 1] == k;
    } else if c.Leaf? {
      assert c.entries[d - 1].key == k;
      HasKeyBelow(p, i, k);
    } else {
      assert c.keys[d - 1] == k;
      assert k in Separators(c);
    }
  }

  lemma {:induction false} SplitChildSeparators(d: nat, p: Tree, i: nat, newId: PageId, k: Key, j: nat)
    requires d >= 2 && p.Inner? && |p.children| == |p.keys| + 1 && i < |p.children|
    requires Full(d, p.children[i]) && j < |SplitChild(d, p, i, newId).children|
    requires k in Separators(SplitChild(d, p, i, newId).children[j])
    ensures k in Separators(p)
  {
    var s := SplitChild(d, p, i, newId);
    if j < i {
      assert s.children[j] == p.children[j];
      assert k in Separators(p.children[j]);
    } else if j > i + 1 {
      assert s.children[j] == p.children[j - 1];
      assert k in Separators(p.children[j - 1]);
    } else {
      HalfSeparators(d, p.children[i], newId, k);
    }
  }

  lemma {:induction false} HalfSeparators(d: nat, c: Tree, newId: PageId, k: Key)
    requires d >= 2 && Full(d, c)
    requires k in Separators(Split(d, c, newId).left) || k in Separators(Split(d, c, newId).right)
    ensures k in Separators(c)
  {
    var h := Split(d, c, newId);
    if c.Inner? {
      if k in Separators(h.left) {
        if j :| 0 <= j < |h.left.keys| && h.left.keys[j] == k {
          assert c.keys[j] == k;
        } else {
          var j :| 0 <= j < |h.left.children| && k in Separators(h.left.children[j]);
          assert k in Separators(c.children[j]);
        }
      } else {
        if j :| 0 <= j < |h.right.keys| && h.right.keys[j] == k {
          assert c.keys[j + d] == k;
        } else {
          var j :| 0 <= j < |h.right.children| && k in Separators(h.right.children[j]);
          assert k in Separators(c.children[j + d]);
        }
      }
    }
  }

  // ---------------------------------------------------------------- inserting an entry

  /** Depth and occupancy survive; a node gains at most one separator. */
  lemma {:induction false} InsertKeepsBalance(d: nat, h: nat, t: Tree, e: Entry, last: nat)
    requires d >= 2 && Balanced(d, h, t, 0) && Size(t) < 2 * d - 1
    ensures var g := InsertNonFull(d, h, t, e, last);
            Balanced(d, h, g.tree, Size(t)) && g.last >= last
    decreases h
  {
    if t.Inner? {
      var s := Descend(d, h, t, e.key, last);
      InsertKeepsBalance(d, h - 1, s.node.children[s.child], e, s.last);
    }
  }

  /** One more entry, whatever the key: the entries are the old ones with `e` put in somewhere. */
  lemma {:induction false} InsertAddsEntry(d: nat, h: nat, t: Tree, e: Entry, last: nat)
    requires d >= 2 && Balanced(d, h, t, 0) && Size(t) < 2 * d - 1
    ensures Adds(Entries(t), e, Entries(InsertNonFull(d, h, t, e, last).tree))
    decreases h
  {
    if t.Leaf? {
      var m := LowerBound(KeysOf(t.entries), e.key);
      assert t.entries == t.entries[..m] + t.entries[m..];
    } else {
      var s := Descend(d, h, t, e.key, last);
      DescendKeepsEntries(d, h, t, e.key, last);
      var c := s.node.children[s.child];
      InsertAddsEntry(d, h - 1, c, e, s.last);
      AddsBelow(s.node, s.child, InsertNonFull(d, h - 1, c, e, s.last).tree, e);
    }
  }

  lemma {:induction false} DescendKeepsEntries(d: nat, h: nat, t: Tree, k: Key, last: nat)
    requires d >= 2 && Balanced(d, h, t, 0) && Size(t) < 2 * d - 1 && t.Inner?
    ensures Entries(Descend(d, h, t, k, last).node) == Entries(t)
  {
    var i := RouteInsert(t.keys, k);
    assert Balanced(d, h - 1, t.children[i], d - 1);
    if Size(t.children[i]) == 2 * d - 1 {
      SplitKeepsEntries(d, t, i, last + 1);
    }
  }

  lemma {:induction false} AddsBelow(s: Tree, j: nat, c': Tree, e: Entry)
    requires s.Inner? && j < |s.children| && Adds(Entries(s.children[j]), e, Entries(c'))
    ensures Adds(Entries(s), e, Entries(WithChild(s, j, c')))
  {
    EntriesOfAt(s.children, j);
    EntriesOfUpdate(s.children, j, c');
  }

  // ---------------------------------------------------------------- order after an insertion

  /** Some step of the descent splits a full child whose median equals the key: the key then goes left of the
      equal separator. */
  ghost predicate Promotes(d: nat, h: nat, t: Tree, k: Key, last: nat)
    requires d >= 2 && Balanced(d, h, t, 0) && Size(t) < 2 * d - 1
    decreases h
  {
    t.Inner? &&
      (var s := Descend(d, h, t, k, last);
       || (s.child < |s.node.keys| && s.node.keys[s.child] == k)
       || Promotes(d, h - 1, s.node.children[s.child], k, s.last))
  }

  /** The key may go below this node: always, and into a strict tree if it is not stored and not promoted. */
  ghost predicate Fresh(d: nat, h: nat, strict: bool, t: Tree, k: Key, last: nat)
    requires d >= 2 && Balanced(d, h, t, 0) && Size(t) < 2 * d - 1
  {
    strict ==> !HasKey(Entries(t), k) && !Promotes(d, h, t, k, last)
  }

  /** An insertion keeps the order of a tree.  Strict order survives if and only if the key is not stored
      and its descent promotes no equal separator. */
  lemma {:induction false} InsertKeepsOrder(d: nat, h: nat, strict: bool, t: Tree, e: Entry, last: nat, lo: Bound,
      hi: Bound)
    requires d >= 2 && Balanced(d, h, t, 0) && Size(t) < 2 * d - 1
    requires Ordered(strict, t, lo, hi) && Above(lo, e.key) && Below(strict, e.key, hi)
    ensures Ordered(strict, InsertNonFull(d, h, t, e, last).tree, lo, hi) <==> Fresh(d, h, strict, t, e.key, last)
  {
    if Fresh(d, h, strict, t, e.key, last) { FreshKeepsOrder(d, h, strict, t, e, last, lo, hi); }
    var t' := InsertNonFull(d, h, t, e, last).tree;
    if strict && Ordered(true, t', lo, hi) {
      StrictMeansUnpromoted(d, h, t, e, last, lo, hi);
      InsertAddsEntry(d, h, t, e, last);
      EntriesSorted(true, t', lo, hi);
      AddsTwice(Entries(t), e, Entries(t'));
    }
  }

  lemma {:induction false} FreshKeepsOrder(d: nat, h: nat, strict: bool, t: Tree, e: Entry, last: nat, lo: Bound,
      hi: Bound)
    requires d >= 2 && Balanced(d, h, t, 0) && Size(t) < 2 * d - 1
    requires Ordered(strict, t, lo, hi) && Fresh(d, h, strict, t, e.key, last)
    requires Above(lo, e.key) && Below(strict, e.key, hi)
    ensures Ordered(strict, InsertNonFull(d, h, t, e, last).tree, lo, hi)
    decreases h
  {
    if t.Leaf? {
      LeafKeepsOrder(d, h, strict, t, e, last, lo, hi);
    } else {
      hide Ordered, Fresh, Descend, WithChild, Above, Below;
      var s := Descend(d, h, t, e.key, last);
      DescendKeepsOrder(d, h, strict, t, e.key, last, lo, hi);
      OrderedBelow(strict, s.node, s.child, lo, hi);
      FreshKeepsOrder(d, h - 1, strict, s.node.children[s.child], e, s.last,
                      LoOf(s.node.keys, lo, s.child), HiOf(s.node.keys, hi, s.child));
      WithChildOrdered(strict, s.node, s.child, InsertNonFull(d, h - 1, s.node.children[s.child], e, s.last).tree, lo,
          hi);
    }
  }

  /** In a strictly ordered result the key lies below the bound, and its descent promoted no equal separator. */
  lemma {:induction false} StrictMeansUnpromoted(d: nat, h: nat, t: Tree, e: Entry, last: nat, lo: Bound, hi: Bound)
    requires d >= 2 && Balanced(d, h, t, 0) && Size(t) < 2 * d - 1
    requires Ordered(true, InsertNonFull(d, h, t, e, last).tree, lo, hi)
    ensures Below(true, e.key, hi) && !Promotes(d, h, t, e.key, last)
    decreases h
  {
    var t' := InsertNonFull(d, h, t, e, last).tree;
    if t.Leaf? {
      var p := LowerBound(KeysOf(t.entries), e.key);
      assert t'.entries[p] == e;
    } else {
      var s := Descend(d, h, t, e.key, last);
      hide Descend, Balanced;
      OrderedBelow(true, t', s.child, lo, hi);
      StrictMeansUnpromoted(d, h - 1, s.node.children[s.child], e, s.last, LoOf(t'.keys, lo, s.child),
          HiOf(t'.keys, hi, s.child));
    }
  }

  /** In strictly sorted entries no key is stored twice. */
  lemma {:induction false} AddsTwice(es: seq<Entry>, e: Entry, es': seq<Entry>)
    requires Adds(es, e, es') && SortedEntries(true, es')
    ensures !HasKey(es, e.key)
  {
    assert e in multiset(es');
    var j :| 0 <= j < |es'| && es'[j] == e;
    OncePlaced(es', j);
    forall i | 0 <= i < |es|
      ensures es[i].key != e.key
    {
      assert es[i] in multiset(es) && es[i] in multiset(es');
      var m :| 0 <= m < |es'| && es'[m] == es[i];
      assert m != j;
    }
  }

  lemma {:induction false} OncePlaced(es: seq<Entry>, i: nat)
    requires DistinctKeys(es) && i < |es|
    ensures multiset(es)[es[i]] == 1
  {
    var a, b := es[..i], es[i + 1..];
    assert es == a + [es[i]] + b;
    assert es[i] !in a && es[i] !in b;
  }

  lemma OrderedBelow(strict: bool, p: Tree, j: nat, lo: Bound, hi: Bound)
    requires p.Inner? && j < |p.children| && Ordered(strict, p, lo, hi)
    ensures |p.children| == |p.keys| + 1 && Ordered(strict, p.children[j], LoOf(p.keys, lo, j), HiOf(p.keys, hi, j))
  {
  }

  lemma {:induction false} LeafKeepsOrder(d: nat, h: nat, strict: bool, t: Tree, e: Entry, last: nat, lo: Bound,
      hi: Bound)
    requires d >= 2 && Balanced(d, h, t, 0) && Size(t) < 2 * d - 1 && t.Leaf?
    requires Ordered(strict, t, lo, hi) && Fresh(d, h, strict, t, e.key, last)
    requires Above(lo, e.key) && Below(strict, e.key, hi)
    ensures Ordered(strict, InsertNonFull(d, h, t, e, last).tree, lo, hi)
  {
    LeafInsertOrdered(strict, t.entries, LowerBound(KeysOf(t.entries), e.key), e);
  }

  lemma {:induction false} LeafInsertOrdered(strict: bool, es: seq<Entry>, p: nat, e: Entry)
    requires SortedEntries(strict, es) && p == LowerBound(KeysOf(es), e.key)
    requires strict ==> !HasKey(es, e.key)
    ensures SortedEntries(strict, es[..p] + [e] + es[p..])
  {
    var ks := KeysOf(es);
    forall i | 0 <= i < |es|
      ensures if i < p then es[i].key < e.key else if strict then e.key < es[i].key else e.key <= es[i].key
    {
      if i < p {
        assert ks[i] < e.key;
      } else {
        assert ks[p] >= e.key;
        assert es[p].key <= es[i].key;
      }
    }
  }

  lemma {:induction false} WithChildOrdered(strict: bool, p: Tree, j: nat, c: Tree, lo: Bound, hi: Bound)
    requires p.Inner? && j < |p.children| && Ordered(strict, p, lo, hi)
    requires Ordered(strict, c, LoOf(p.keys, lo, j), HiOf(p.keys, hi, j))
    ensures Ordered(strict, WithChild(p, j, c), lo, hi)
  {
  }

  /** The descent step keeps the order and picks a child whose bounds admit the key. */
  lemma {:induction false} DescendKeepsOrder(d: nat, h: nat, strict: bool, t: Tree, k: Key, last: nat, lo: Bound,
      hi: Bound)
    requires d >= 2 && Balanced(d, h, t, 0) && Size(t) < 2 * d - 1 && t.Inner?
    requires Ordered(strict, t, lo, hi) && Fresh(d, h, strict, t, k, last)
    requires Above(lo, k) && Below(strict, k, hi)
    ensures var s := Descend(d, h, t, k, last);
            && Ordered(strict, s.node, lo, hi)
            && Above(LoOf(s.node.keys, lo, s.child), k) && Below(strict, k, HiOf(s.node.keys, hi, s.child))
            && Balanced(d, h - 1, s.node.children[s.child], 0)
            && Fresh(d, h - 1, strict, s.node.children[s.child], k, s.last)
  {
    var s := Descend(d, h, t, k, last);
    var i := RouteInsert(t.keys, k);
    assert Balanced(d, h - 1, t.children[i], d - 1);
    FreshBelow(d, h, strict, t, k, last);
    if Size(t.children[i]) == 2 * d - 1 {
      hide Fresh;
      SplitKeepsOrder(d, strict, t, i, last + 1, lo, hi);
    }
  }

  lemma {:induction false} FreshBelow(d: nat, h: nat, strict: bool, t: Tree, k: Key, last: nat)
    requires d >= 2 && Balanced(d, h, t, 0) && Size(t) < 2 * d - 1 && t.Inner? && Fresh(d, h, strict, t, k, last)
    ensures var s := Descend(d, h, t, k, last);
            && Balanced(d, h - 1, s.node.children[s.child], 0)
            && Fresh(d, h - 1, strict, s.node.children[s.child], k, s.last)
            && (strict && s.child < |s.node.keys| ==> s.node.keys[s.child] != k)
  {
    var s := Descend(d, h, t, k, last);
    BalancedMin(d, h - 1, s.node.children[s.child], d - 1, 0);
    if strict {
      DescendKeepsEntries(d, h, t, k, last);
      if HasKey(Entries(s.node.children[s.child]), k) { HasKeyBelow(s.node, s.child, k); }
    }
  }

  /** A key that is neither stored nor a separator promotes no separator. */
  lemma {:induction false} UnseenIsUnpromoted(d: nat, h: nat, t: Tree, k: Key, last: nat)
    requires d >= 2 && Balanced(d, h, t, 0) && Size(t) < 2 * d - 1
    requires k !in Separators(t) && !HasKey(Entries(t), k)
    ensures !Promotes(d, h, t, k, last)
    decreases h
  {
    if t.Inner? {
      var s := Descend(d, h, t, k, last);
      DescendUnseen(d, h, t, k, last);
      BalancedMin(d, h - 1, s.node.children[s.child], d - 1, 0);
      UnseenIsUnpromoted(d, h - 1, s.node.children[s.child], k, s.last);
    }
  }

  lemma {:induction false} DescendUnseen(d: nat, h: nat, t: Tree, k: Key, last: nat)
    requires d >= 2 && Balanced(d, h, t, 0) && Size(t) < 2 * d - 1 && t.Inner?
    requires k !in Separators(t) && !HasKey(Entries(t), k)
    ensures var s := Descend(d, h, t, k, last);
            && (s.child < |s.node.keys| ==> s.node.keys[s.child] != k)
            && k !in Separators(s.node.children[s.child]) && !HasKey(Entries(s.node.children[s.child]), k)
  {
    var s := Descend(d, h, t, k, last);
    var i := RouteInsert(t.keys, k);
    assert Balanced(d, h - 1, t.children[i], d - 1);
    DescendKeepsEntries(d, h, t, k, last);
    if Size(t.children[i]) == 2 * d - 1 && k in Separators(s.node) {
      SplitSeparators(d, t, i, last + 1, k);
    }
    UnseenBelow(s.node, s.child, k);
  }

  lemma UnseenBelow(p: Tree, j: nat, k: Key)
    requires p.Inner? && j < |p.children| && k !in Separators(p) && !HasKey(Entries(p), k)
    ensures j < |p.keys| ==> p.keys[j] != k
    ensures k !in Separators(p.children[j]) && !HasKey(Entries(p.children[j]), k)
  {
    if HasKey(Entries(p.children[j]), k) { HasKeyBelow(p, j, k); }
    assert j < |p.keys| ==> p.keys[j] in Separators(p);
    assert k in Separators(p.children[j]) ==> k in Separators(p);
  }
}
