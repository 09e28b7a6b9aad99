/**
 Insertion on a whole index, and every index that a run of insertions can reach.
 */
module BTreeIndex {
  import opened BTreeModel
  import opened BTreeInsert
  import opened BTreeInsertLinks

  // ---------------------------------------------------------------- separators of insert-only trees

  /** A separator created by an insertion was the key of a stored entry. */
  lemma {:induction false} InsertSeparators(d: nat, h: nat, t: Tree, e: Entry, last: nat, k: Key)
    requires d >= 2 && Balanced(d, h, t, 0) && Size(t) < 2 * d - 1
    requires k in Separators(InsertNonFull(d, h, t, e, last).tree)
    ensures k in Separators(t) || HasKey(Entries(t), k)
    decreases h
  {
    if t.Inner? {
      var s := Descend(d, h, t, e.key, last);
      var i := RouteInsert(t.keys, e.key);
      assert Balanced(d, h - 1, t.children[i], d - 1);
      var c := s.node.children[s.child];
      var g := InsertNonFull(d, h - 1, c, e, s.last);
      if k !in Separators(s.node) {
        WithChildSeparators(s.node, s.child, g.tree, k);
        InsertSeparators(d, h - 1, c, e, s.last, k);
        HasKeyBelow(s.node, s.child, k);
        DescendKeepsEntries(d, h, t, e.key, last);
      } else if Size(t.children[i]) == 2 * d - 1 {
        SplitSeparators(d, t, i, last + 1, k);
      }
    }
  }

  lemma {:induction false} WithChildSeparators(p: Tree, j: nat, c: Tree, k: Key)
    requires p.Inner? && j < |p.children| && k in Separators(WithChild(p, j, c))
    ensures k in Separators(p) || k in Separators(c)
  {
    var q := WithChild(p, j, c);
    if i :| 0 <= i < |q.keys| && q.keys[i] == k {
      assert p.keys[i] == k;
    } else {
      var i :| 0 <= i < |q.children| && k in Separators(q.children[i]);
      if i != j {
        assert k in Separators(p.children[i]);
      }
    }
  }

  // ---------------------------------------------------------------- one insertion

  /** The descent of an insertion puts the key left of a separator equal to it. */
  ghost predicate PromotesIn(d: nat, v: Version, k: Key)
    requires d >= 2 && (v.index.Rooted? ==> Balanced(d, Height(v.index.tree), v.index.tree, 0))
  {
    v.index.Rooted? &&
      var r := Prepared(d, v.index.tree, v.last);
      Promotes(d, r.height, r.root, k, r.last)
  }

  /** The key may be inserted: always, and into a strict index if it is not stored and not promoted. */
  ghost predicate FreshKey(d: nat, strict: bool, v: Version, k: Key)
    requires d >= 2 && (v.index.Rooted? ==> Balanced(d, Height(v.index.tree), v.index.tree, 0))
  {
    strict ==> !HasKey(Contents(v.index), k) && !PromotesIn(d, v, k)
  }

  /** A full root under a new parent, before it is split. */
  ghost function Top(root: Tree, last: nat): Tree {
    Inner(last + 1, [], [root])
  }

  lemma {:induction false} TopEntries(root: Tree, last: nat)
    ensures Entries(Top(root, last)) == Entries(root)
  {
    assert [root][1..] == [];
    assert EntriesOf([root]) == Entries(root) + EntriesOf([]);
  }

  lemma {:induction false} TopKeeps(strict: bool, root: Tree, last: nat)
    requires Ordered(strict, root, Unbounded, Unbounded)
    ensures Ordered(strict, Top(root, last), Unbounded, Unbounded)
  {
  }

  lemma {:induction false} TopIds(root: Tree, last: nat)
    requires Distinct(root) && IdsWithin(root, last)
    ensures Ids(Top(root, last)) == Ids(root) + {last + 1} && Distinct(Top(root, last))
  {
    var top := Top(root, last);
    assert forall x | x in Ids(root) :: x in Ids(top.children[0]);
  }

  /** Splitting a full root under a new one keeps a tree valid and its entries in place. */
  lemma {:induction false} NewRootKeeps(d: nat, h: nat, strict: bool, root: Tree, last: nat)
    requires ValidTree(d, h, strict, root, last) && Size(root) == 2 * d - 1
    ensures Full(d, root)
    ensures ValidTree(d, h + 1, strict, NewRoot(d, root, last), last + 2)
    ensures Size(NewRoot(d, root, last)) == 1 && Entries(NewRoot(d, root, last)) == Entries(root)
  {
    BalancedMin(d, h, root, RootMin(root), 0);
    SplitRoot(d, h, root, last);
    NewRootOrder(d, strict, root, last);
    TopIds(root, last);
    SplitKeepsIds(d, Top(root, last), 0, last + 2);
  }

  lemma {:induction false} NewRootOrder(d: nat, strict: bool, root: Tree, last: nat)
    requires d >= 2 && Full(d, root)
    requires Ordered(strict, root, Unbounded, Unbounded)
    ensures var s := NewRoot(d, root, last);
            Ordered(strict, s, Unbounded, Unbounded) && Entries(s) == Entries(root)
  {
    TopKeeps(strict, root, last);
    TopEntries(root, last);
    SplitKeepsOrder(d, strict, Top(root, last), 0, last + 2, Unbounded, Unbounded);
    SplitKeepsEntries(d, Top(root, last), 0, last + 2);
  }

  /** An insertion below a node that is not full adds the entry and keeps the node valid: always, and strictly
      if and only if the key is fresh. */
  lemma {:induction false} InsertBelowValid(d: nat, h: nat, strict: bool, t: Tree, e: Entry, last: nat)
    requires ValidTree(d, h, strict, t, last) && Size(t) < 2 * d - 1
    ensures Balanced(d, h, t, 0)
    ensures var g := InsertNonFull(d, h, t, e, last);
            && (ValidTree(d, h, strict, g.tree, g.last) <==> Fresh(d, h, strict, t, e.key, last))
            && g.last >= last && Height(g.tree) == h && Adds(Entries(t), e, Entries(g.tree))
  {
    BalancedMin(d, h, t, RootMin(t), 0);
    var g := InsertNonFull(d, h, t, e, last);
    InsertKeepsBalance(d, h, t, e, last);
    BalancedMin(d, h, g.tree, Size(t), RootMin(g.tree));
    HeightOfBalanced(d, h, g.tree, RootMin(g.tree));
    InsertKeepsOrder(d, h, strict, t, e, last, Unbounded, Unbounded);
    InsertKeepsIds(d, h, t, e, last);
    InsertAddsEntry(d, h, t, e, last);
  }

  lemma {:induction false} PreparedKeeps(d: nat, strict: bool, root: Tree, last: nat)
    requires ValidTree(d, Height(root), strict, root, last)
    ensures Balanced(d, Height(root), root, 0)
    ensures var r := Prepared(d, root, last);
            ValidTree(d, r.height, strict, r.root, r.last) && r.last >= last && Entries(r.root) == Entries(root)
  {
    BalancedMin(d, Height(root), root, RootMin(root), 0);
    if Size(root) == 2 * d - 1 {
      NewRootKeeps(d, Height(root), strict, root, last);
    }
  }

  /** Every insertion, duplicates included, adds exactly one entry and keeps every invariant;
      strict order survives if and only if the key is not stored and not promoted. */
  lemma {:induction false} InsertKeepsValid(d: nat, strict: bool, v: Version, e: Entry)
    requires Valid(d, strict, v)
    ensures v.index.Rooted? ==> Balanced(d, Height(v.index.tree), v.index.tree, 0)
    ensures Valid(d, strict, Insert(d, v, e)) <==> FreshKey(d, strict, v, e.key)
    ensures Insert(d, v, e).last >= v.last
    ensures Adds(Contents(v.index), e, Contents(Insert(d, v, e).index))
  {
    if v.index.Empty? {
      FirstInsert(d, strict, v, e);
    } else {
      PreparedKeeps(d, strict, v.index.tree, v.last);
      var r := Prepared(d, v.index.tree, v.last);
      InsertBelowValid(d, r.height, strict, r.root, e, r.last);
    }
  }

  lemma {:induction false} FirstInsert(d: nat, strict: bool, v: Version, e: Entry)
    requires Valid(d, strict, v) && v.index.Empty?
    ensures Valid(d, strict, Insert(d, v, e)) && Adds([], e, Contents(Insert(d, v, e).index))
  {
    assert Contents(Insert(d, v, e).index) == [e];
  }

  /** An insertion keeps either chain of leaves. */
  lemma {:induction false} InsertKeepsChain(d: nat, mem: bool, v: Version, e: Entry)
    requires d >= 2 && (v.index.Rooted? ==> Balanced(d, Height(v.index.tree), v.index.tree, 0))
    requires Chained(mem, v.index)
    ensures Chained(mem, Insert(d, v, e).index)
  {
    if v.index.Rooted? {
      PreparedChain(d, mem, v.index.tree, v.last);
      var r := Prepared(d, v.index.tree, v.last);
      InsertKeepsLinks(d, r.height, mem, r.root, e, r.last, NULL_PAGE);
    }
  }

  lemma {:induction false} PreparedChain(d: nat, mem: bool, root: Tree, last: nat)
    requires d >= 2 && Balanced(d, Height(root), root, 0) && Linked(mem, root, NULL_PAGE)
    ensures Linked(mem, Prepared(d, root, last).root, NULL_PAGE)
  {
    if Size(root) == 2 * d - 1 {
      SplitRoot(d, Height(root), root, last);
      TopLinked(mem, root, last);
      SplitKeepsLinks(d, mem, Top(root, last), 0, last + 2, NULL_PAGE);
    }
  }

  lemma {:induction false} TopLinked(mem: bool, root: Tree, last: nat)
    requires Linked(mem, root, NULL_PAGE)
    ensures Linked(mem, Top(root, last), NULL_PAGE)
  {
  }

  /** An insertion keeps the key caches up to date. */
  lemma {:induction false} InsertKeepsCaches(d: nat, v: Version, e: Entry)
    requires d >= 2 && (v.index.Rooted? ==> Balanced(d, Height(v.index.tree), v.index.tree, 0))
    requires Cached(v.index)
    ensures Cached(Insert(d, v, e).index)
  {
    if v.index.Rooted? {
      PreparedCaches(d, v.index.tree, v.last);
      var r := Prepared(d, v.index.tree, v.last);
      InsertKeepsSync(d, r.height, r.root, e, r.last);
    } else {
      assert KeysOf([e]) == [e.key];
    }
  }

  lemma {:induction false} PreparedCaches(d: nat, root: Tree, last: nat)
    requires d >= 2 && Balanced(d, Height(root), root, 0) && Synced(root)
    ensures Synced(Prepared(d, root, last).root)
  {
    if Size(root) == 2 * d - 1 {
      SplitRoot(d, Height(root), root, last);
      assert Synced(Top(root, last));
      SplitKeepsSync(d, Top(root, last), 0, last + 2);
    }
  }

  lemma {:induction false} NewRootSeparators(d: nat, root: Tree, last: nat, k: Key)
    requires d >= 2 && Full(d, root) && k in Separators(NewRoot(d, root, last))
    ensures k in Separators(root) || HasKey(Entries(root), k)
  {
    SplitSeparators(d, Top(root, last), 0, last + 2, k);
    TopEntries(root, last);
  }

  // ---------------------------------------------------------------- runs of insertions

  /** Every separator is the key of a stored entry. */
  ghost predicate SeparatorsStored(x: Index) {
    x.Rooted? ==> forall k | k in Separators(x.tree) :: HasKey(Entries(x.tree), k)
  }

  /** The index reached by inserting `es` in order into an empty one, after `last` pages were handed out. */
  ghost function Build(d: nat, es: seq<Entry>, last: nat): (v: Version)
    requires d >= 2
    ensures Valid(d, false, v) && Chained(false, v.index) && Chained(true, v.index) && Cached(v.index)
  {
    if es == [] then Version(Empty, last)
    else
      var n := |es| - 1;
      var v := Build(d, es[..n], last);
      InsertKeepsValid(d, false, v, es[n]);
      InsertKeepsChain(d, false, v, es[n]);
      InsertKeepsChain(d, true, v, es[n]);
      InsertKeepsCaches(d, v, es[n]);
      Insert(d, v, es[n])
  }

  /** A separator of the index after an insertion was one before, or the key of an entry stored before. */
  lemma {:induction false} InsertIndexSeparators(d: nat, v: Version, e: Entry, k: Key)
    requires Valid(d, false, v) && v.index.Rooted?
    requires Balanced(d, Height(v.index.tree), v.index.tree, 0)
    requires k in Separators(Insert(d, v, e).index.tree)
    ensures k in Separators(v.index.tree) || HasKey(Entries(v.index.tree), k)
  {
    var root := v.index.tree;
    var r := Prepared(d, root, v.last);
    InsertSeparators(d, r.height, r.root, e, r.last, k);
    PreparedSeparators(d, root, v.last, k);
  }

  lemma {:induction false} PreparedSeparators(d: nat, root: Tree, last: nat, k: Key)
    requires d >= 2 && Balanced(d, Height(root), root, 0)
    requires var r := Prepared(d, root, last); k in Separators(r.root) || HasKey(Entries(r.root), k)
    ensures k in Separators(root) || HasKey(Entries(root), k)
  {
    if Size(root) == 2 * d - 1 {
      SplitRoot(d, Height(root), root, last);
      TopEntries(root, last);
      SplitKeepsEntries(d, Top(root, last), 0, last + 2);
      if k in Separators(NewRoot(d, root, last)) {
        NewRootSeparators(d, root, last, k);
      }
    }
  }

  lemma {:induction false} InsertKeepsSeparatorsStored(d: nat, v: Version, e: Entry)
    requires Valid(d, false, v) && SeparatorsStored(v.index)
    requires v.index.Rooted? ==> Balanced(d, Height(v.index.tree), v.index.tree, 0)
    ensures SeparatorsStored(Insert(d, v, e).index)
  {
    InsertKeepsValid(d, false, v, e);
    if v.index.Rooted? {
      forall k | k in Separators(Insert(d, v, e).index.tree)
        ensures HasKey(Contents(Insert(d, v, e).index), k)
      {
        InsertIndexSeparators(d, v, e, k);
        AddsHasKey(Contents(v.index), e, Contents(Insert(d, v, e).index), k);
      }
    }
  }

  /** Any run of insertions leaves exactly the inserted entries. */
  lemma {:induction false} BuildContents(d: nat, es: seq<Entry>, last: nat)
    requires d >= 2
    ensures multiset(Contents(Build(d, es, last).index)) == multiset(es)
  {
    hide Valid, Insert;
    if es != [] {
      var n := |es| - 1;
      BuildContents(d, es[..n], last);
      InsertKeepsValid(d, false, Build(d, es[..n], last), es[n]);
      assert es == es[..n] + [es[n]];
    }
  }

  /** After any run of insertions every separator is a stored key. */
  lemma {:induction false} BuildSeparators(d: nat, es: seq<Entry>, last: nat)
    requires d >= 2
    ensures SeparatorsStored(Build(d, es, last).index)
  {
    if es != [] {
      var n := |es| - 1;
      BuildSeparators(d, es[..n], last);
      InsertKeepsValid(d, false, Build(d, es[..n], last), es[n]);
      InsertKeepsSeparatorsStored(d, Build(d, es[..n], last), es[n]);
    }
  }

  /** A run of insertions with distinct keys leaves a strictly ordered tree. */
  lemma {:induction false} BuildStrict(d: nat, es: seq<Entry>, last: nat)
    requires d >= 2 && DistinctKeys(es)
    ensures Valid(d, true, Build(d, es, last))
  {
    if es != [] {
      var n := |es| - 1;
      BuildStrict(d, es[..n], last);
      BuildContents(d, es[..n], last);
      BuildSeparators(d, es[..n], last);
      var v := Build(d, es[..n], last);
      NotYetStored(Contents(v.index), es, n);
      InsertKeepsValid(d, false, v, es[n]);
      InsertKeepsValid(d, true, v, es[n]);
      StoredSeparatorsPromoteNone(d, v, es[n].key);
    }
  }

  /** Where every separator is a stored key, a key that is not stored is not promoted. */
  lemma {:induction false} StoredSeparatorsPromoteNone(d: nat, v: Version, k: Key)
    requires Valid(d, false, v) && SeparatorsStored(v.index) && !HasKey(Contents(v.index), k)
    ensures v.index.Rooted? ==> Balanced(d, Height(v.index.tree), v.index.tree, 0)
    ensures !PromotesIn(d, v, k)
  {
    if v.index.Rooted? {
      var root := v.index.tree;
      PreparedKeeps(d, false, root, v.last);
      var r := Prepared(d, root, v.last);
      if k in Separators(r.root) { PreparedSeparators(d, root, v.last, k); }
      UnseenIsUnpromoted(d, r.height, r.root, k, r.last);
    }
  }

  lemma {:induction false} NotYetStored(cs: seq<Entry>, es: seq<Entry>, n: nat)
    requires n < |es| && DistinctKeys(es) && multiset(cs) == multiset(es[..n])
    ensures !HasKey(cs, es[n].key)
  {
    forall i | 0 <= i < |cs|
      ensures cs[i].key != es[n].key
    {
      assert cs[i] in multiset(cs);
      assert cs[i] in es[..n];
    }
  }
}
