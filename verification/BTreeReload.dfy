/** What a tree is after it was read back from its pages. */
module BTreeReload {
  import opened BTreeModel
  import opened BTreeInsertLinks

  /** The tree as its page images describe it: leaves without key caches and without pointers. */
  ghost function Loaded(t: Tree): (l: Tree)
    ensures l.id == t.id && Size(l) == Size(t) && (l.Leaf? <==> t.Leaf?)
    decreases t
  {
    match t
    case Leaf(id, es, _, _, nextPid) => Leaf(id, es, [], NULL_PAGE, nextPid)
    case Inner(id, ks, cs) => Inner(id, ks, LoadedAll(cs))
  }

  ghost function LoadedAll(cs: seq<Tree>): (ls: seq<Tree>)
    ensures |ls| == |cs| && forall i | 0 <= i < |cs| :: ls[i] == Loaded(cs[i])
    decreases cs
  {
    if cs == [] then [] else [Loaded(cs[0])] + LoadedAll(cs[1..])
  }

  /** Reading a tree back keeps its entries, separators, page ids and leaf chain. */
  lemma {:induction false} LoadedSame(t: Tree)
    ensures Entries(Loaded(t)) == Entries(t) && Ids(Loaded(t)) == Ids(t) && FirstId(Loaded(t)) == FirstId(t)
    ensures Separators(Loaded(t)) == Separators(t)
    decreases t
  {
    if t.Inner? {
      LoadedEntries(t.children);
      forall i | 0 <= i < |t.children|
        ensures Ids(Loaded(t).children[i]) == Ids(t.children[i])
        ensures Separators(Loaded(t).children[i]) == Separators(t.children[i])
        ensures FirstId(Loaded(t).children[i]) == FirstId(t.children[i])
      {
        LoadedSame(t.children[i]);
      }
    }
  }

  lemma {:induction false} LoadedEntries(cs: seq<Tree>)
    ensures EntriesOf(LoadedAll(cs)) == EntriesOf(cs)
    decreases cs
  {
    if cs != [] {
      LoadedSame(cs[0]);
      LoadedEntries(cs[1..]);
      assert LoadedAll(cs)[1..] == LoadedAll(cs[1..]);
    }
  }

  lemma {:induction false} LoadedBalanced(d: nat, h: nat, t: Tree, min: int)
    requires Balanced(d, h, t, min)
    ensures Balanced(d, h, Loaded(t), min)
    decreases t
  {
    if t.Inner? {
      forall i | 0 <= i < |t.children|
        ensures Balanced(d, h - 1, Loaded(t).children[i], d - 1)
      {
        LoadedBalanced(d, h - 1, t.children[i], d - 1);
      }
    }
  }

  lemma {:induction false} LoadedOrdered(strict: bool, t: Tree, lo: Bound, hi: Bound)
    requires Ordered(strict, t, lo, hi)
    ensures Ordered(strict, Loaded(t), lo, hi)
    decreases t
  {
    if t.Inner? {
      forall i | 0 <= i < |t.children|
        ensures Ordered(strict, Loaded(t).children[i], LoOf(t.keys, lo, i), HiOf(t.keys, hi, i))
      {
        LoadedOrdered(strict, t.children[i], LoOf(t.keys, lo, i), HiOf(t.keys, hi, i));
      }
    }
  }

  lemma {:induction false} LoadedLinked(t: Tree, after: PageId)
    requires Linked(false, t, after)
    ensures Linked(false, Loaded(t), after)
    decreases t
  {
    if t.Inner? {
      var cs, ls := t.children, Loaded(t).children;
      forall i | 0 <= i < |cs|
        ensures Linked(false, ls[i], AfterOf(ls, i, after))
      {
        LoadedLinked(cs[i], AfterOf(cs, i, after));
        if i + 1 < |cs| { LoadedSame(cs[i + 1]); }
      }
    }
  }

  lemma {:induction false} LoadedDistinct(t: Tree)
    requires Distinct(t)
    ensures Distinct(Loaded(t))
    decreases t
  {
    if t.Inner? {
      forall i | 0 <= i < |t.children|
        ensures Ids(Loaded(t).children[i]) == Ids(t.children[i]) && Distinct(Loaded(t).children[i])
      {
        LoadedSame(t.children[i]);
        LoadedDistinct(t.children[i]);
      }
    }
  }

  lemma {:induction false} LoadedHeight(t: Tree)
    ensures Height(Loaded(t)) == Height(t)
    decreases t
  {
    if t.Inner? && t.children != [] {
      LoadedHeight(t.children[0]);
    }
  }

  ghost function LoadedIndex(x: Index): Index {
    if x.Empty? then x else Rooted(Loaded(x.tree))
  }

  /** An index read back from its pages is valid, has the same entries in the same order, and the same
      persisted leaf chain. */
  lemma {:induction false} ReloadKeepsValid(d: nat, strict: bool, v: Version)
    requires Valid(d, strict, v)
    ensures Valid(d, strict, Version(LoadedIndex(v.index), v.last))
    ensures Contents(LoadedIndex(v.index)) == Contents(v.index)
    ensures Chained(false, v.index) ==> Chained(false, LoadedIndex(v.index))
  {
    if v.index.Rooted? {
      var t := v.index.tree;
      LoadedSame(t);
      LoadedHeight(t);
      LoadedBalanced(d, Height(t), t, RootMin(t));
      LoadedOrdered(strict, t, Unbounded, Unbounded);
      LoadedDistinct(t);
      if Linked(false, t, NULL_PAGE) { LoadedLinked(t, NULL_PAGE); }
    }
  }
}
