/** Removal on a whole index, and runs that mix insertions and removals. */
module BTreeRuns {
  import opened BTreeModel
  import opened BTreeInsert
  import opened BTreeIndex
  import opened BTreeSearch
  import opened BTreePoint
  import opened BTreeRemoveModel
  import opened BTreeRemove
  import opened BTreeRemoveOrder
  import opened BTreeRemoveLinks
  import opened BTreeRemoveChain
  import opened BTreeRemoveExact

  // ---------------------------------------------------------------- one removal

  /** What every reachable index satisfies: `Valid`, fresh key caches, and in-memory leaf pointers in order. */
  ghost predicate Sound(d: nat, strict: bool, v: Version) {
    Valid(d, strict, v) && Cached(v.index) && Chained(true, v.index)
  }

  /** A removal of the key swaps no separator for its predecessor. */
  ghost predicate SwapFree(d: nat, v: Version, k: Key)
    requires Sound(d, false, v)
  {
    v.index.Rooted? ==> !Swaps(d, Height(v.index.tree), v.index.tree, k)
  }

  ghost function RemoveV(d: nat, v: Version, k: Key): Version
    requires Sound(d, false, v)
  {
    Version(Remove(d, v.index, k), v.last)
  }

  /** Every removal, whatever the key, keeps every invariant and takes out at most one entry;
      a removal that swaps no separator for its predecessor also keeps strict order. */
  lemma {:induction false} RemoveKeepsSound(d: nat, strict: bool, v: Version, k: Key)
    requires Sound(d, strict, v) && Sound(d, false, v)
    ensures Sound(d, strict && SwapFree(d, v, k), RemoveV(d, v, k))
    ensures v.index.Rooted? ==>
              Dropped(Contents(v.index), Contents(RemoveV(d, v, k).index),
                  RemovedPosition(d, Height(v.index.tree), v.index.tree, k))
  {
    if v.index.Rooted? {
      var root := v.index.tree;
      var h := Height(root);
      var t := RemoveFrom(d, h, root, k);
      RemoveKeepsOrder(d, h, strict, root, k, Unbounded, Unbounded);
      RemoveKeepsLinks(d, h, root, k, NULL_PAGE);
      RemoveKeepsIds(d, h, root, k);
      RemoveDropsOne(d, h, root, k);
      if t.Inner? && t.keys == [] {
        OnlyChild(d, h, strict && SwapFree(d, v, k), t, v.last);
      } else {
        BalancedMin(d, h, t, Size(root) - 1, RootMin(t));
        HeightOfBalanced(d, h, t, RootMin(t));
      }
    }
  }

  /** A root without separators gives way to its only child. */
  lemma {:induction false} OnlyChild(d: nat, h: nat, strict: bool, t: Tree, last: nat)
    requires d >= 2 && Balanced(d, h, t, 0) && t.Inner? && t.keys == []
    requires Ordered(strict, t, Unbounded, Unbounded) && Linked(true, t, NULL_PAGE) && Synced(t)
    requires Distinct(t) && IdsWithin(t, last)
    ensures var c := t.children[0];
            && ValidTree(d, Height(c), strict, c, last) && Linked(true, c, NULL_PAGE) && Synced(c)
            && Entries(c) == Entries(t)
  {
    var c := t.children[0];
    assert Balanced(d, h - 1, c, d - 1);
    BalancedMin(d, h - 1, c, d - 1, RootMin(c));
    HeightOfBalanced(d, h - 1, c, RootMin(c));
    assert Ordered(strict, c, LoOf(t.keys, Unbounded, 0), HiOf(t.keys, Unbounded, 0));
    assert Linked(true, c, AfterOf(t.children, 0, NULL_PAGE));
    assert t.children[1..] == [];
    assert Entries(t) == Entries(c) + EntriesOf([]);
    assert Ids(c) <= Ids(t);
  }

  /** The removal of the key never turns to another key. */
  ghost predicate Hits(d: nat, v: Version, k: Key)
    requires Sound(d, false, v)
  {
    v.index.Rooted? ==> !Misses(d, Height(v.index.tree), v.index.tree, k)
  }

  /** In a strictly ordered tree a swap turns to a smaller key. */
  lemma {:induction false} SwapMisses(d: nat, h: nat, t: Tree, k: Key, lo: Bound, hi: Bound)
    requires d >= 2 && Balanced(d, h, t, RootMin(t)) && Synced(t) && Ordered(true, t, lo, hi) && Swaps(d, h, t, k)
    ensures Misses(d, h, t, k)
    decreases h
  {
    RemoveStep(d, h, t, k);
    var r := Prepare(d, t, k);
    if r.action == Swap {
      SwapTurns(d, h, t, k, lo, hi);
    } else if r.key == k {
      PrepareKeepsOrder(d, h, true, t, k, lo, hi);
      SwapMisses(d, h - 1, r.node.children[r.child], k, LoOf(r.node.keys, lo, r.child), HiOf(r.node.keys, hi, r.child));
    }
  }

  lemma {:induction false} SwapTurns(d: nat, h: nat, t: Tree, k: Key, lo: Bound, hi: Bound)
    requires d >= 2 && t.Inner? && Balanced(d, h, t, 1) && Synced(t) && Siblings(d, t) && Ordered(true, t, lo, hi)
    requires Prepare(d, t, k).action == Swap
    ensures Prepare(d, t, k).key < k
  {
    var i := LowerBound(t.keys, k);
    EndOfChild(d, h, t, i);
    EntriesSorted(true, t.children[i], LoOf(t.keys, lo, i), At(k));
  }

  /** On an index with distinct keys, `remove` leaves exactly the entries with other keys if and only if its
      descent never turns to another key; a strictly ordered index then stays strictly ordered. */
  lemma {:induction false} IndexRemoveExact(d: nat, v: Version, k: Key)
    requires Sound(d, false, v) && DistinctKeys(Contents(v.index))
    ensures Contents(RemoveV(d, v, k).index) == Without(Contents(v.index), k) <==> Hits(d, v, k)
    ensures Sound(d, true, v) && Hits(d, v, k) ==> Sound(d, true, RemoveV(d, v, k))
  {
    if v.index.Rooted? {
      var root := v.index.tree;
      var h := Height(root);
      RemoveKeepsSound(d, false, v, k);
      RemoveDropsOne(d, h, root, k);
      RemoveExact(d, h, root, k);
      if Sound(d, true, v) {
        RemoveKeepsSound(d, true, v, k);
        if Swaps(d, h, root, k) { SwapMisses(d, h, root, k, Unbounded, Unbounded); }
      }
    }
  }

  /** A key that equals no separator is removed exactly: with distinct keys the entries with other keys are
      left; with duplicates an entry with the key is taken out, or nothing if there is none. */
  lemma {:induction false} IndexRemoveOffSeparators(d: nat, v: Version, k: Key)
    requires Sound(d, false, v) && (v.index.Rooted? ==> k !in Separators(v.index.tree))
    ensures var es, es' := Contents(v.index), Contents(RemoveV(d, v, k).index);
            && (DistinctKeys(es) ==> es' == Without(es, k))
            && (HasKey(es, k) ==> exists p :: 0 <= p < |es| && es[p].key == k && es' == DropAt(es, p))
            && (!HasKey(es, k) ==> es' == es)
  {
    if v.index.Rooted? {
      var root := v.index.tree;
      var h := Height(root);
      RemoveKeepsSound(d, false, v, k);
      OffSeparatorsIsRight(d, h, root, k, Unbounded, Unbounded);
      if DistinctKeys(Contents(v.index)) {
        RemoveExact(d, h, root, k);
        NoSeparatorNoMiss(d, h, root, k);
        IndexRemoveExact(d, v, k);
      }
      var es, p := Contents(v.index), RemovedPosition(d, h, root, k);
      assert HasKey(es, k) ==> 0 <= p < |es| && es[p].key == k;
    }
  }

  /** A removal keeps the chain of persisted sibling ids exactly when it merges no two leaves. */
  lemma {:induction false} IndexChainSurvives(d: nat, v: Version, k: Key)
    requires Sound(d, false, v) && Chained(false, v.index) && v.index.Rooted?
    ensures Chained(false, RemoveV(d, v, k).index) <==> !MergesLeaves(d, Height(v.index.tree), v.index.tree, k)
  {
    var root := v.index.tree;
    var h := Height(root);
    ChainSurvives(d, h, root, k, NULL_PAGE);
    RemoveKeepsLinks(d, h, root, k, NULL_PAGE);
    LinkedAfterRemoval(d, h, root, k);
  }

  lemma {:induction false} LinkedAfterRemoval(d: nat, h: nat, root: Tree, k: Key)
    requires d >= 2 && Balanced(d, h, root, RootMin(root)) && Synced(root)
    requires FirstId(RemoveFrom(d, h, root, k)) == FirstId(root)
    ensures var t := RemoveFrom(d, h, root, k);
            t.Inner? && t.keys == [] ==>
              t.children != [] && (Linked(false, t, NULL_PAGE) <==> Linked(false, t.children[0], NULL_PAGE))
  {
    var t := RemoveFrom(d, h, root, k);
    if t.Inner? && t.keys == [] {
      assert |t.children| == 1 && AfterOf(t.children, 0, NULL_PAGE) == NULL_PAGE;
    }
  }

  // ---------------------------------------------------------------- mixed runs

  datatype Op = Put(e: Entry) | Del(k: Key)

  ghost function Apply(d: nat, v: Version, op: Op): (v': Version)
    requires Sound(d, false, v)
    ensures Sound(d, false, v')
  {
    match op
    case Put(e) =>
      InsertKeepsValid(d, false, v, e);
      InsertKeepsChain(d, true, v, e);
      InsertKeepsCaches(d, v, e);
      Insert(d, v, e)
    case Del(k) =>
      RemoveKeepsSound(d, false, v, k);
      RemoveV(d, v, k)
  }

  /** The index after any run of insertions and removals: every invariant holds, whatever the keys. */
  ghost function Run(d: nat, ops: seq<Op>, last: nat): (v: Version)
    requires d >= 2
    ensures Sound(d, false, v)
  {
    if ops == [] then Version(Empty, last)
    else Apply(d, Run(d, ops[..|ops| - 1], last), ops[|ops| - 1])
  }

  /** A step whose inserted key is not stored, or whose removal does not turn to another key. */
  ghost predicate CleanStep(d: nat, v: Version, op: Op)
    requires Sound(d, false, v)
  {
    match op
    case Put(e) => !HasKey(Contents(v.index), e.key)
    case Del(k) => Hits(d, v, k)
  }

  ghost predicate CleanRun(d: nat, ops: seq<Op>, last: nat)
    requires d >= 2
  {
    ops != [] ==>
      && CleanRun(d, ops[..|ops| - 1], last)
      && CleanStep(d, Run(d, ops[..|ops| - 1], last), ops[|ops| - 1])
  }

  /** The map that a run of operations describes. */
  ghost function MapOf(ops: seq<Op>): map<Key, Rid> {
    if ops == [] then map[]
    else
      var m := MapOf(ops[..|ops| - 1]);
      match ops[|ops| - 1]
      case Put(e) => m[e.key := e.rid]
      case Del(k) => m - {k}
  }

  /** The entries are exactly the pairs of the map. */
  ghost predicate Represents(es: seq<Entry>, m: map<Key, Rid>) {
    && (forall i | 0 <= i < |es| :: es[i].key in m && m[es[i].key] == es[i].rid)
    && forall k | k in m :: HasKey(es, k)
  }

  lemma {:induction false} PutRepresents(es: seq<Entry>, e: Entry, es': seq<Entry>, m: map<Key, Rid>)
    requires Represents(es, m) && Adds(es, e, es') && !HasKey(es, e.key)
    ensures Represents(es', m[e.key := e.rid])
  {
    var m' := m[e.key := e.rid];
    forall i | 0 <= i < |es'|
      ensures es'[i].key in m' && m'[es'[i].key] == es'[i].rid
    {
      assert es'[i] in multiset(es');
      if es'[i] != e {
        assert es'[i] in multiset(es);
        var j :| 0 <= j < |es| && es[j] == es'[i];
      }
    }
    forall k | k in m'
      ensures HasKey(es', k)
    {
      if k == e.key {
        assert e in multiset(es');
        var j :| 0 <= j < |es'| && es'[j] == e;
      } else {
        AddsHasKey(es, e, es', k);
      }
    }
  }

  lemma {:induction false} DelRepresents(es: seq<Entry>, k: Key, m: map<Key, Rid>)
    requires Represents(es, m)
    ensures Represents(Without(es, k), m - {k})
  {
    var es' := Without(es, k);
    forall e
      ensures e in es' <==> e in es && e.key != k
    {
      WithoutMember(es, k, e);
    }
    forall x | x in m && x != k
      ensures HasKey(es', x)
    {
      var i :| 0 <= i < |es| && es[i].key == x;
      assert es[i] in es';
      var j :| 0 <= j < |es'| && es'[j] == es[i];
    }
    forall i | 0 <= i < |es'|
      ensures es'[i].key in m - {k} && (m - {k})[es'[i].key] == es'[i].rid
    {
      assert es'[i] in es;
      var j :| 0 <= j < |es| && es[j] == es'[i];
    }
  }

  lemma {:induction false} WithoutMember(es: seq<Entry>, k: Key, e: Entry)
    ensures e in Without(es, k) <==> e in es && e.key != k
  {
    if es != [] {
      WithoutMember(es[1..], k, e);
      assert e in es <==> e == es[0] || e in es[1..];
    }
  }

  /** An insertion of a key that is not stored keeps the keys distinct. */
  lemma {:induction false} AddsDistinct(es: seq<Entry>, e: Entry, es': seq<Entry>)
    requires DistinctKeys(es) && !HasKey(es, e.key) && Adds(es, e, es')
    ensures DistinctKeys(es')
  {
    var all := es + [e];
    forall i, j | 0 <= i < j < |es'|
      ensures es'[i].key != es'[j].key
    {
      TwoPlaces(es', i, j);
      assert multiset{es'[i], es'[j]}[es'[i]] <= multiset(all)[es'[i]];
      assert es'[i] in all && es'[j] in all;
      var p :| 0 <= p < |all| && all[p] == es'[i];
      var q :| 0 <= q < |all| && all[q] == es'[j];
      OncePlaced(all, p);
      assert p != q;
    }
  }

  lemma {:induction false} TwoPlaces(es: seq<Entry>, i: nat, j: nat)
    requires i < j < |es|
    ensures multiset{es[i], es[j]} <= multiset(es)
  {
    var a, b, c := es[..i], es[i + 1..j], es[j + 1..];
    assert es == a + [es[i]] + b + [es[j]] + c;
  }

  lemma {:induction false} WithoutDistinct(es: seq<Entry>, k: Key)
    requires DistinctKeys(es)
    ensures DistinctKeys(Without(es, k))
  {
    if es != [] {
      assert DistinctKeys(es[1..]);
      WithoutDistinct(es[1..], k);
      forall e | e in Without(es[1..], k) ensures e.key != es[0].key {
        WithoutMember(es[1..], k, e);
        var i :| 0 <= i < |es[1..]| && es[1..][i] == e;
        assert es[i + 1] == e;
      }
    }
  }

  /** After any clean run the index holds exactly the pairs of the map, each key once. */
  lemma {:induction false} CleanRunIsMap(d: nat, ops: seq<Op>, last: nat)
    requires d >= 2 && CleanRun(d, ops, last)
    ensures var es := Contents(Run(d, ops, last).index); DistinctKeys(es) && Represents(es, MapOf(ops))
  {
    if ops != [] {
      var n := |ops| - 1;
      CleanRunIsMap(d, ops[..n], last);
      CleanStepIsMap(d, Run(d, ops[..n], last), ops[n], MapOf(ops[..n]));
    }
  }

  lemma {:induction false} CleanStepIsMap(d: nat, v: Version, op: Op, m: map<Key, Rid>)
    requires Sound(d, false, v) && DistinctKeys(Contents(v.index)) && Represents(Contents(v.index), m)
               && CleanStep(d, v, op)
    ensures DistinctKeys(Contents(Apply(d, v, op).index))
    ensures Represents(Contents(Apply(d, v, op).index),
              match op case Put(e) => m[e.key := e.rid] case Del(k) => m - {k})
  {
    match op
    case Put(e) =>
      InsertKeepsValid(d, false, v, e);
      PutRepresents(Contents(v.index), e, Contents(Insert(d, v, e).index), m);
      AddsDistinct(Contents(v.index), e, Contents(Insert(d, v, e).index));
    case Del(k) =>
      IndexRemoveExact(d, v, k);
      DelRepresents(Contents(v.index), k, m);
      WithoutDistinct(Contents(v.index), k);
  }

  /** With distinct keys, the leaf that a search reaches has the key exactly when it is stored and not left
      of an equal separator on the path. */
  lemma {:induction false} SearchFinds(t: Tree, k: Key, lo: Bound, hi: Bound)
    requires Ordered(false, t, lo, hi) && SortedEntries(true, Entries(t))
    ensures HasKey(LeafEntries(true, t, k), k) <==> HasKey(Entries(t), k) && !RunCut(t, k)
    decreases t
  {
    if t.Inner? {
      var i := UpperBound(t.keys, k);
      var c := t.children[i];
      var a, b := EntriesOf(t.children[..i]), EntriesOf(t.children[i + 1..]);
      EntriesOfAt(t.children, i);
      StrictParts(a, Entries(c), b);
      SearchFinds(c, k, LoOf(t.keys, lo, i), HiOf(t.keys, hi, i));
      HasKeyConcat(a, Entries(c), k);
      HasKeyConcat(a + Entries(c), b, k);
      if i < |t.keys| { SuffixSorted(false, t, i + 1, lo, hi); } else { assert t.children[i + 1..] == []; }
      if i > 0 { PrefixBelow(false, t, i, lo, hi); } else { assert t.children[..0] == []; }
    }
  }

  /** On every index with distinct keys a search finds a key exactly when it is stored and no equal separator on
      the path has it on the left; in a strictly ordered index exactly when it is stored. */
  lemma {:induction false} IndexSearchExact(d: nat, v: Version, k: Key)
    requires Sound(d, false, v) && DistinctKeys(Contents(v.index))
    ensures Found(v.index, k) <==> HasKey(Contents(v.index), k) && !(v.index.Rooted? && RunCut(v.index.tree, k))
    ensures Sound(d, true, v) ==> (Found(v.index, k) <==> HasKey(Contents(v.index), k))
  {
    if v.index.Rooted? {
      DistinctSorted(v.index.tree, Unbounded, Unbounded);
      SearchFinds(v.index.tree, k, Unbounded, Unbounded);
      if Sound(d, true, v) { PointScanComplete(true, v.index.tree, k); }
    }
  }

  lemma {:induction false} RepresentsKey(es: seq<Entry>, m: map<Key, Rid>, k: Key)
    requires Represents(es, m)
    ensures k in m <==> HasKey(es, k)
  {
    if HasKey(es, k) {
      var i :| 0 <= i < |es| && es[i].key == k;
    }
  }

  /** After any clean run, a search finds a key exactly when the map has it and no equal separator on the
      path has it on the left; in a strictly ordered index it finds exactly the keys of the map. */
  lemma {:induction false} CleanRunSearch(d: nat, ops: seq<Op>, last: nat, k: Key)
    requires d >= 2 && CleanRun(d, ops, last)
    ensures var v := Run(d, ops, last);
            && (Found(v.index, k) <==> k in MapOf(ops) && !(v.index.Rooted? && RunCut(v.index.tree, k)))
            && (Sound(d, true, v) ==> (Found(v.index, k) <==> k in MapOf(ops)))
  {
    var v := Run(d, ops, last);
    CleanRunIsMap(d, ops, last);
    RepresentsKey(Contents(v.index), MapOf(ops), k);
    IndexSearchExact(d, v, k);
  }

  /** A clean run none of whose insertions promotes its key. */
  ghost predicate UnpromotedRun(d: nat, ops: seq<Op>, last: nat)
    requires d >= 2
  {
    ops != [] ==>
      var n := |ops| - 1;
      var v := Run(d, ops[..n], last);
      && UnpromotedRun(d, ops[..n], last)
      && CleanStep(d, v, ops[n])
      && (ops[n].Put? && v.index.Rooted? ==>
         Balanced(d, Height(v.index.tree), v.index.tree, 0) && !PromotesIn(d, v, ops[n].e.key))
  }

  /** Such a run leaves a strictly ordered index, in which a search finds exactly the keys of the map. */
  lemma {:induction false} UnpromotedRunSearch(d: nat, ops: seq<Op>, last: nat, k: Key)
    requires d >= 2 && UnpromotedRun(d, ops, last)
    ensures Sound(d, true, Run(d, ops, last)) && (Found(Run(d, ops, last).index, k) <==> k in MapOf(ops))
  {
    UnpromotedIsStrict(d, ops, last);
    UnpromotedIsClean(d, ops, last);
    CleanRunSearch(d, ops, last, k);
  }

  lemma {:induction false} UnpromotedIsClean(d: nat, ops: seq<Op>, last: nat)
    requires d >= 2 && UnpromotedRun(d, ops, last)
    ensures CleanRun(d, ops, last)
  {
    if ops != [] { UnpromotedIsClean(d, ops[..|ops| - 1], last); }
  }

  lemma {:induction false} UnpromotedIsStrict(d: nat, ops: seq<Op>, last: nat)
    requires d >= 2 && UnpromotedRun(d, ops, last)
    ensures Sound(d, true, Run(d, ops, last))
  {
    if ops != [] {
      var n := |ops| - 1;
      var v := Run(d, ops[..n], last);
      UnpromotedIsStrict(d, ops[..n], last);
      match ops[n]
      case Put(e) =>
        InsertKeepsValid(d, true, v, e);
        InsertKeepsChain(d, true, v, e);
        InsertKeepsCaches(d, v, e);
      case Del(k) =>
        UnpromotedIsClean(d, ops[..n], last);
        CleanRunIsMap(d, ops[..n], last);
        IndexRemoveExact(d, v, k);
    }
  }
}
