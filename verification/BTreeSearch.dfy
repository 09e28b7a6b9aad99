/**
 Searching: what the leaf reached by a descent means, and the exact answers of
 range and point queries.
 */
module BTreeSearch {
  import opened BTreeModel
  import opened BTreeInsert

  // ---------------------------------------------------------------- answers

  /** The record ids of the entries with lo <= key <= hi, in order. */
  ghost function InRange(es: seq<Entry>, lo: Key, hi: Key): seq<Rid> {
    if es == [] then []
    else (if lo <= es[0].key <= hi then [es[0].rid] else []) + InRange(es[1..], lo, hi)
  }

  /** The record ids of exactly the entries with lo <= key <= hi: those at the positions `ps`, each once, in order. */
  ghost predicate Answers(es: seq<Entry>, lo: Key, hi: Key, rids: seq<Rid>, ps: seq<nat>) {
    && |rids| == |ps|
    && (forall j | 0 <= j < |ps| :: ps[j] < |es| && rids[j] == es[ps[j]].rid)
    && (forall j, m | 0 <= j < m < |ps| :: ps[j] < ps[m])
    && forall i: nat | i < |es| :: i in ps <==> lo <= es[i].key <= hi
  }

  lemma {:induction false} InRangeConcat(a: seq<Entry>, b: seq<Entry>, lo: Key, hi: Key)
    ensures InRange(a + b, lo, hi) == InRange(a, lo, hi) + InRange(b, lo, hi)
  {
    if a == [] {
      assert a + b == b;
    } else {
      assert (a + b)[1..] == a[1..] + b;
      InRangeConcat(a[1..], b, lo, hi);
    }
  }

  lemma {:induction false} InRangeExact(es: seq<Entry>, lo: Key, hi: Key) returns (ps: seq<nat>)
    ensures Answers(es, lo, hi, InRange(es, lo, hi), ps)
  {
    ps := [];
    if es != [] {
      hide InRange, Answers;
      var n := |es| - 1;
      ps := InRangeExact(es[..n], lo, hi);
      InRangeLast(es, lo, hi);
      AnswersLast(es, lo, hi, InRange(es[..n], lo, hi), ps);
      if lo <= es[n].key <= hi { ps := ps + [n]; }
    }
  }

  lemma AnswersLast(es: seq<Entry>, lo: Key, hi: Key, rids: seq<Rid>, ps: seq<nat>)
    requires es != [] && Answers(es[..|es| - 1], lo, hi, rids, ps)
    ensures var n: nat := |es| - 1;
            if lo <= es[n].key <= hi then Answers(es, lo, hi, rids + [es[n].rid], ps + [n])
            else Answers(es, lo, hi, rids + [], ps)
  {
    var n: nat := |es| - 1;
    assert forall i | 0 <= i < n :: es[..n][i] == es[i];
    var ps' := ps + [n];
    assert ps'[|ps|] == n && n !in ps;
    assert forall i: nat | i < n :: i in ps' <==> i in ps;
  }

  lemma InRangeLast(es: seq<Entry>, lo: Key, hi: Key)
    requires es != []
    ensures var n := |es| - 1;
            InRange(es, lo, hi) == InRange(es[..n], lo, hi) + if lo <= es[n].key <= hi then [es[n].rid] else []
  {
    var n := |es| - 1;
    assert es[..n] + [es[n]] == es && [es[n]][1..] == [];
    InRangeConcat(es[..n], [es[n]], lo, hi);
  }

  lemma {:induction false} InRangeEmpty(es: seq<Entry>, lo: Key, hi: Key)
    requires forall i | 0 <= i < |es| :: !(lo <= es[i].key <= hi)
    ensures InRange(es, lo, hi) == []
  {
    if es != [] {
      InRangeEmpty(es[1..], lo, hi);
    }
  }

  // ---------------------------------------------------------------- leaves

  lemma {:induction false} LeavesOfConcat(a: seq<Tree>, b: seq<Tree>)
    ensures LeavesOf(a + b) == LeavesOf(a) + LeavesOf(b)
  {
    if a == [] {
      assert a + b == b;
    } else {
      assert (a + b)[1..] == a[1..] + b;
      LeavesOfConcat(a[1..], b);
    }
  }

  lemma {:induction false} LeavesOfAt(cs: seq<Tree>, i: nat)
    requires i < |cs|
    ensures LeavesOf(cs) == LeavesOf(cs[..i]) + Leaves(cs[i]) + LeavesOf(cs[i + 1..])
  {
    assert cs == cs[..i] + ([cs[i]] + cs[i + 1..]);
    LeavesOfConcat(cs[..i], [cs[i]] + cs[i + 1..]);
    assert ([cs[i]] + cs[i + 1..])[1..] == cs[i + 1..];
  }

  lemma {:induction false} EntriesOfLeaves(t: Tree)
    ensures EntriesOf(Leaves(t)) == Entries(t)
    decreases t
  {
    match t
    case Leaf(_, es, _, _, _) =>
      assert [t][1..] == [];
      assert EntriesOf([t]) == es + [];
    case Inner(_, _, cs) => EntriesOfLeavesOf(cs);
  }

  lemma {:induction false} EntriesOfLeavesOf(cs: seq<Tree>)
    ensures EntriesOf(LeavesOf(cs)) == EntriesOf(cs)
    decreases cs
  {
    if cs != [] {
      EntriesOfLeaves(cs[0]);
      EntriesOfLeavesOf(cs[1..]);
      EntriesOfConcat(Leaves(cs[0]), LeavesOf(cs[1..]));
    }
  }

  ghost function IdAfter(ls: seq<Tree>, j: nat, after: PageId): PageId
    requires j < |ls|
  {
    if j + 1 < |ls| then ls[j + 1].id else after
  }

  /** A list of leaves in which each one's persisted sibling id names the next, and the last `after`. */
  ghost predicate Chain(ls: seq<Tree>, after: PageId) {
    && ls != []
    && forall j | 0 <= j < |ls| :: ls[j].Leaf? && ls[j].nextPid == IdAfter(ls, j, after)
  }

  /** The chain of persisted sibling ids visits exactly the leaves, left to right. */
  lemma {:induction false} LeavesChain(t: Tree, after: PageId)
    requires Linked(false, t, after)
    ensures Chain(Leaves(t), after) && Leaves(t)[0].id == FirstId(t)
    decreases t
  {
    if t.Inner? {
      LeavesOfChain(t.children, after);
    }
  }

  lemma {:induction false} LeavesOfChain(cs: seq<Tree>, after: PageId)
    requires cs != [] && forall i | 0 <= i < |cs| :: Linked(false, cs[i], AfterOf(cs, i, after))
    ensures Chain(LeavesOf(cs), after) && LeavesOf(cs)[0].id == FirstId(cs[0])
    decreases cs
  {
    LeavesChain(cs[0], AfterOf(cs, 0, after));
    if |cs| > 1 {
      forall i | 0 <= i < |cs[1..]|
        ensures Linked(false, cs[1..][i], AfterOf(cs[1..], i, after))
      {
        assert AfterOf(cs[1..], i, after) == AfterOf(cs, i + 1, after);
      }
      LeavesOfChain(cs[1..], after);
      ChainConcat(Leaves(cs[0]), LeavesOf(cs[1..]), after);
    } else {
      assert cs[1..] == [];
      assert LeavesOf(cs) == Leaves(cs[0]);
    }
  }

  lemma {:induction false} ChainConcat(a: seq<Tree>, b: seq<Tree>, after: PageId)
    requires Chain(b, after) && Chain(a, b[0].id)
    ensures Chain(a + b, after)
  {
    var c := a + b;
    forall j | 0 <= j < |c|
      ensures c[j].Leaf? && c[j].nextPid == IdAfter(c, j, after)
    {
      if j >= |a| {
        assert c[j] == b[j - |a|] && IdAfter(c, j, after) == IdAfter(b, j - |a|, after);
      } else {
        assert c[j] == a[j] && IdAfter(c, j, after) == IdAfter(a, j, b[0].id);
      }
    }
  }

  // ---------------------------------------------------------------- descents

  /** The number of separators <= k at the front: the child that a point query descends to. */
  function UpperBound(ks: seq<Key>, k: Key): (i: nat)
    ensures i <= |ks|
    ensures i < |ks| ==> k < ks[i]
    ensures forall j | 0 <= j < i :: ks[j] <= k
  {
    if ks == [] || k < ks[0] then 0 else 1 + UpperBound(ks[1..], k)
  }

  /** A range query goes left of an equal separator, a point query right of it. */
  function Route(point: bool, ks: seq<Key>, k: Key): (i: nat)
    ensures i <= |ks|
  {
    if point then UpperBound(ks, k) else LowerBound(ks, k)
  }

  /** The leaf that a descent reaches. */
  ghost function LeafFor(point: bool, t: Tree, k: Key): Tree
    decreases t
  {
    match t
    case Leaf(_, _, _, _, _) => t
    case Inner(_, ks, cs) =>
      var i := Route(point, ks, k);
      if i < |cs| then LeafFor(point, cs[i], k) else t
  }

  ghost function LeafEntries(point: bool, t: Tree, k: Key): seq<Entry> {
    var l := LeafFor(point, t, k);
    if l.Leaf? then l.entries else []
  }

  /** How many leaves are left of the one that a descent reaches. */
  ghost function LeafIndex(point: bool, t: Tree, k: Key): nat
    decreases t
  {
    match t
    case Leaf(_, _, _, _, _) => 0
    case Inner(_, ks, cs) =>
      var i := Route(point, ks, k);
      if i < |cs| then |LeavesOf(cs[..i])| + LeafIndex(point, cs[i], k) else 0
  }

  lemma {:induction false} LeafReached(point: bool, strict: bool, t: Tree, k: Key, lo: Bound, hi: Bound)
    requires Ordered(strict, t, lo, hi)
    ensures var m := LeafIndex(point, t, k); m < |Leaves(t)| && Leaves(t)[m] == LeafFor(point, t, k)
    ensures LeafFor(point, t, k).Leaf?
    decreases t
  {
    if t.Inner? {
      var i := Route(point, t.keys, k);
      LeafReached(point, strict, t.children[i], k, LoOf(t.keys, lo, i), HiOf(t.keys, hi, i));
      LeavesOfAt(t.children, i);
    }
  }

  /** The entries left of the leaf that a descent reaches. */
  ghost function EntriesBefore(point: bool, t: Tree, k: Key): seq<Entry>
    decreases t
  {
    match t
    case Leaf(_, _, _, _, _) => []
    case Inner(_, ks, cs) =>
      var i := Route(point, ks, k);
      if i < |cs| then EntriesOf(cs[..i]) + EntriesBefore(point, cs[i], k) else []
  }

  lemma {:induction false} EntriesBeforeLeaf(point: bool, strict: bool, t: Tree, k: Key, lo: Bound, hi: Bound)
    requires Ordered(strict, t, lo, hi)
    ensures LeafIndex(point, t, k) < |Leaves(t)|
    ensures EntriesOf(Leaves(t)[..LeafIndex(point, t, k)]) == EntriesBefore(point, t, k)
    decreases t
  {
    LeafReached(point, strict, t, k, lo, hi);
    if t.Inner? {
      var i := Route(point, t.keys, k);
      var c := t.children[i];
      EntriesBeforeLeaf(point, strict, c, k, LoOf(t.keys, lo, i), HiOf(t.keys, hi, i));
      LeavesOfAt(t.children, i);
      var a := LeavesOf(t.children[..i]);
      var m := LeafIndex(point, c, k);
      assert Leaves(t)[..|a| + m] == a + Leaves(c)[..m];
      EntriesOfConcat(a, Leaves(c)[..m]);
      EntriesOfLeavesOf(t.children[..i]);
    }
  }

  /** Entries left of the reached leaf are below the key of a range query, and at most the key of a point
      query; below it in a strict tree. */
  lemma {:induction false} BeforeIsBelow(point: bool, strict: bool, t: Tree, k: Key, lo: Bound, hi: Bound)
    requires Ordered(strict, t, lo, hi)
    ensures forall e | e in EntriesBefore(point, t, k) :: if strict || !point then e.key < k else e.key <= k
    decreases t
  {
    if t.Inner? {
      var i := Route(point, t.keys, k);
      BeforeIsBelow(point, strict, t.children[i], k, LoOf(t.keys, lo, i), HiOf(t.keys, hi, i));
      if i > 0 {
        PrefixBelow(strict, t, i, lo, hi);
        assert if point then t.keys[i - 1] <= k else t.keys[i - 1] < k;
      }
    }
  }

  // ---------------------------------------------------------------- exact answers

  /** The entries that a scan starting at the reached leaf sees. */
  ghost function EntriesFrom(point: bool, t: Tree, k: Key): seq<Entry> {
    var m := LeafIndex(point, t, k);
    if m <= |Leaves(t)| then EntriesOf(Leaves(t)[m..]) else []
  }

  lemma {:induction false} BeforeAndFrom(point: bool, strict: bool, t: Tree, k: Key, lo: Bound, hi: Bound)
    requires Ordered(strict, t, lo, hi)
    ensures Entries(t) == EntriesBefore(point, t, k) + EntriesFrom(point, t, k)
  {
    EntriesBeforeLeaf(point, strict, t, k, lo, hi);
    var ls, m := Leaves(t), LeafIndex(point, t, k);
    EntriesOfConcat(ls[..m], ls[m..]);
    assert ls == ls[..m] + ls[m..];
    EntriesOfLeaves(t);
  }

  /** A scan from the leaf of a range query misses nothing, duplicates included. */
  lemma {:induction false} RangeScanComplete(strict: bool, t: Tree, lo: Key, hi: Key)
    requires Ordered(strict, t, Unbounded, Unbounded)
    ensures InRange(EntriesFrom(false, t, lo), lo, hi) == InRange(Entries(t), lo, hi)
  {
    BeforeAndFrom(false, strict, t, lo, Unbounded, Unbounded);
    BeforeIsBelow(false, strict, t, lo, Unbounded, Unbounded);
    var a := EntriesBefore(false, t, lo);
    assert forall i | 0 <= i < |a| :: a[i] in a;
    InRangeEmpty(a, lo, hi);
    InRangeConcat(a, EntriesFrom(false, t, lo), lo, hi);
  }

  /** On the path of a point query, some entry with the key lies left of a separator equal to it. */
  ghost predicate RunCut(t: Tree, k: Key)
    decreases t
  {
    match t
    case Leaf(_, _, _, _, _) => false
    case Inner(_, ks, cs) =>
      var i := UpperBound(ks, k);
      && i < |cs|
      && (|| (i > 0 && ks[i - 1] == k && HasKey(EntriesOf(cs[..i]), k))
          || RunCut(cs[i], k))
  }

  lemma {:induction false} RunCutMeansBefore(strict: bool, t: Tree, k: Key, lo: Bound, hi: Bound)
    requires Ordered(strict, t, lo, hi)
    ensures RunCut(t, k) <==> HasKey(EntriesBefore(true, t, k), k)
    decreases t
  {
    if t.Inner? {
      var i := UpperBound(t.keys, k);
      RunCutMeansBefore(strict, t.children[i], k, LoOf(t.keys, lo, i), HiOf(t.keys, hi, i));
      HasKeyConcat(EntriesOf(t.children[..i]), EntriesBefore(true, t.children[i], k), k);
      if i > 0 {
        PrefixBelow(strict, t, i, lo, hi);
        assert t.keys[i - 1] <= k;
      } else {
        assert t.children[..0] == [];
      }
    }
  }

  lemma {:induction false} InRangeMisses(es: seq<Entry>, k: Key)
    requires HasKey(es, k)
    ensures InRange(es, k, k) != []
  {
    var i :| 0 <= i < |es| && es[i].key == k;
    if i > 0 {
      assert es[1..][i - 1] == es[i];
      InRangeMisses(es[1..], k);
    }
  }

  /** A scan from the leaf of a point query finds every record id of the key exactly when no
      separator on its path cuts the run of equal keys. */
  lemma {:induction false} PointScanComplete(strict: bool, t: Tree, k: Key)
    requires Ordered(strict, t, Unbounded, Unbounded)
    ensures InRange(EntriesFrom(true, t, k), k, k) == InRange(Entries(t), k, k) <==> !RunCut(t, k)
    ensures strict ==> !RunCut(t, k)
  {
    BeforeAndFrom(true, strict, t, k, Unbounded, Unbounded);
    BeforeIsBelow(true, strict, t, k, Unbounded, Unbounded);
    RunCutMeansBefore(strict, t, k, Unbounded, Unbounded);
    var a := EntriesBefore(true, t, k);
    assert forall i | 0 <= i < |a| :: a[i] in a;
    InRangeConcat(a, EntriesFrom(true, t, k), k, k);
    if HasKey(a, k) {
      InRangeMisses(a, k);
    } else {
      InRangeEmpty(a, k, k);
    }
  }

  /** Right of an entry beyond `hi` nothing is in range. */
  lemma {:induction false} BeyondIsEmpty(strict: bool, es: seq<Entry>, p: nat, lo: Key, hi: Key)
    requires SortedEntries(strict, es) && p < |es| && hi < es[p].key
    ensures InRange(es, lo, hi) == InRange(es[..p], lo, hi)
  {
    assert es == es[..p] + es[p..];
    InRangeConcat(es[..p], es[p..], lo, hi);
    forall i | 0 <= i < |es[p..]|
      ensures !(lo <= es[p..][i].key <= hi)
    {
      assert es[p..][i] == es[p + i];
    }
    InRangeEmpty(es[p..], lo, hi);
  }

  lemma {:induction false} LeafSorted(point: bool, strict: bool, t: Tree, k: Key, lo: Bound, hi: Bound)
    requires Ordered(strict, t, lo, hi)
    ensures LeafFor(point, t, k).Leaf? && SortedEntries(strict, LeafFor(point, t, k).entries)
    decreases t
  {
    if t.Inner? {
      var i := Route(point, t.keys, k);
      LeafSorted(point, strict, t.children[i], k, LoOf(t.keys, lo, i), HiOf(t.keys, hi, i));
    }
  }

  lemma {:induction false} FromSorted(point: bool, strict: bool, t: Tree, k: Key)
    requires Ordered(strict, t, Unbounded, Unbounded)
    ensures SortedEntries(strict, EntriesFrom(point, t, k))
  {
    EntriesSorted(strict, t, Unbounded, Unbounded);
    BeforeAndFrom(point, strict, t, k, Unbounded, Unbounded);
    SortedParts(strict, EntriesBefore(point, t, k), EntriesFrom(point, t, k), []);
  }

  /** Parts of a sorted list are sorted, and no entry of an earlier part exceeds one of a later part. */
  lemma {:induction false} SortedParts(strict: bool, a: seq<Entry>, b: seq<Entry>, c: seq<Entry>)
    requires SortedEntries(strict, a + b + c)
    ensures SortedEntries(strict, a) && SortedEntries(strict, b) && SortedEntries(strict, c)
    ensures forall i, j | 0 <= i < |b| && 0 <= j < |c| :: b[i].key <= c[j].key
  {
    var s := a + b + c;
    assert forall i | 0 <= i < |a| :: s[i] == a[i];
    assert forall i | 0 <= i < |b| :: s[|a| + i] == b[i];
    assert forall i | 0 <= i < |c| :: s[|a| + |b| + i] == c[i];
  }

  /** The entries of leaves m..j, of leaf j, and of the leaves after it. */
  lemma {:induction false} ScanStep(ls: seq<Tree>, m: nat, j: nat)
    requires m <= j < |ls| && ls[j].Leaf?
    ensures EntriesOf(ls[m..j + 1]) == EntriesOf(ls[m..j]) + ls[j].entries
    ensures EntriesOf(ls[m..]) == EntriesOf(ls[m..j]) + ls[j].entries + EntriesOf(ls[j + 1..])
  {
    var a, b, c := ls[m..j], [ls[j]], ls[j + 1..];
    assert b[1..] == [] && EntriesOf(b) == ls[j].entries + [];
    assert ls[m..j + 1] == a + b && ls[m..] == a + b + c;
    EntriesOfConcat(a, b);
    EntriesOfConcat(a + b, c);
  }
}
