/**
 The leaf chains and the page ids under removal.
 */
module BTreeRemoveLinks {
  import opened BTreeModel
  import opened BTreeInsert
  import opened BTreeInsertLinks
  import opened BTreeRemoveModel
  import opened BTreeRemove

  // ---------------------------------------------------------------- leaf chains

  ghost predicate PairLinked(mem: bool, s: Halves, first: PageId, after: PageId) {
    Linked(mem, s.left, FirstId(s.right)) && Linked(mem, s.right, after) && FirstId(s.left) == first
  }

  lemma {:induction false} InnerJoinLinked(mem: bool, l: Tree, sep: Key, r: Tree, after: PageId)
    requires l.Inner? && r.Inner? && Linked(mem, l, FirstId(r)) && Linked(mem, r, after)
    ensures Linked(mem, Join(l, sep, r), after) && FirstId(Join(l, sep, r)) == FirstId(l)
  {
    var a, b, cs := l.children, r.children, l.children + r.children;
    forall j | 0 <= j < |cs|
      ensures Linked(mem, cs[j], AfterOf(cs, j, after))
    {
      if j < |a| {
        assert cs[j] == a[j] && AfterOf(cs, j, after) == AfterOf(a, j, FirstId(r));
      } else {
        assert cs[j] == b[j - |a|] && AfterOf(cs, j, after) == AfterOf(b, j - |a|, after);
      }
    }
  }

  lemma {:induction false} InnerCutLinked(mem: bool, cs: seq<Tree>, n: nat, after: PageId, l: Tree, r: Tree)
    requires 0 < n < |cs| && forall j | 0 <= j < |cs| :: Linked(mem, cs[j], AfterOf(cs, j, after))
    requires l.Inner? && r.Inner? && l.children == cs[..n] && r.children == cs[n..]
    ensures PairLinked(mem, Halves(l, 0, r), FirstId(cs[0]), after)
  {
    forall j | 0 <= j < n
      ensures Linked(mem, l.children[j], AfterOf(l.children, j, FirstId(r)))
    {
      assert AfterOf(l.children, j, FirstId(r)) == AfterOf(cs, j, after);
    }
    forall j | 0 <= j < |r.children|
      ensures Linked(mem, r.children[j], AfterOf(r.children, j, after))
    {
      assert r.children[j] == cs[n + j] && AfterOf(r.children, j, after) == AfterOf(cs, n + j, after);
    }
  }

  lemma {:induction false} ShiftRightLinked(mem: bool, l: Tree, sep: Key, r: Tree, after: PageId)
    requires l.Leaf? <==> r.Leaf?
    requires if l.Leaf? then l.entries != [] else l.keys != [] && |l.children| == |l.keys| + 1
    requires Linked(mem, l, FirstId(r)) && Linked(mem, r, after)
    ensures PairLinked(mem, ShiftRight(l, sep, r), FirstId(l), after)
  {
    if l.Inner? {
      var a, m := l.children, |l.children| - 1;
      assert a[..m] + ([a[m]] + r.children) == a + r.children;
      InnerShiftLinked(mem, l, sep, r, after, ShiftRight(l, sep, r), m);
    }
  }

  lemma {:induction false} ShiftLeftLinked(mem: bool, l: Tree, sep: Key, r: Tree, after: PageId)
    requires l.Leaf? <==> r.Leaf?
    requires if r.Leaf? then |r.entries| >= 2 else r.keys != [] && |r.children| == |r.keys| + 1
    requires Linked(mem, l, FirstId(r)) && Linked(mem, r, after)
    ensures PairLinked(mem, ShiftLeft(l, sep, r), FirstId(l), after)
  {
    if l.Inner? {
      var b := r.children;
      assert (l.children + [b[0]]) + b[1..] == l.children + b;
      InnerShiftLinked(mem, l, sep, r, after, ShiftLeft(l, sep, r), |l.children| + 1);
    }
  }

  lemma {:induction false} InnerShiftLinked(mem: bool, l: Tree, sep: Key, r: Tree, after: PageId, s: Halves, n: nat)
    requires l.Inner? && r.Inner? && Linked(mem, l, FirstId(r)) && Linked(mem, r, after)
    requires s.left.Inner? && s.right.Inner? && |s.left.children| == n && 0 < n < |l.children| + |r.children|
    requires s.left.children + s.right.children == l.children + r.children
    ensures PairLinked(mem, s, FirstId(l), after)
  {
    InnerJoinLinked(mem, l, sep, r, after);
    RecutLinked(mem, Join(l, sep, r), n, after, s);
  }

  lemma {:induction false} RecutLinked(mem: bool, j: Tree, n: nat, after: PageId, s: Halves)
    requires j.Inner? && Linked(mem, j, after) && 0 < n < |j.children|
    requires s.left.Inner? && s.right.Inner? && |s.left.children| == n
               && s.left.children + s.right.children == j.children
    ensures PairLinked(mem, s, FirstId(j), after)
  {
    assert s.left.children == j.children[..n] && s.right.children == j.children[n..];
    InnerCutLinked(mem, j.children, n, after, s.left, s.right);
  }

  lemma {:induction false} WithPairLinked(mem: bool, p: Tree, i: nat, s: Halves, after: PageId)
    requires p.Inner? && i + 1 < |p.children| && i < |p.keys| && Linked(mem, p, after)
    requires PairLinked(mem, s, FirstId(p.children[i]), AfterOf(p.children, i + 1, after))
    ensures Linked(mem, WithPair(p, i, s), after) && FirstId(WithPair(p, i, s)) == FirstId(p)
  {
    var cs, cs' := p.children, WithPair(p, i, s).children;
    forall j | 0 <= j < |cs'|
      ensures Linked(mem, cs'[j], AfterOf(cs', j, after))
    {
      if j < i || j > i + 1 {
        assert cs'[j] == cs[j] && AfterOf(cs', j, after) == AfterOf(cs, j, after);
      }
    }
  }

  lemma {:induction false} WithJoinedLinked(mem: bool, p: Tree, i: nat, c: Tree, after: PageId)
    requires p.Inner? && i + 1 < |p.children| && i < |p.keys| && Linked(mem, p, after)
    requires Linked(mem, c, AfterOf(p.children, i + 1, after)) && FirstId(c) == FirstId(p.children[i])
    ensures Linked(mem, WithJoined(p, i, c), after) && FirstId(WithJoined(p, i, c)) == FirstId(p)
  {
    var cs, cs' := p.children, WithJoined(p, i, c).children;
    forall j | 0 <= j < |cs'|
      ensures Linked(mem, cs'[j], AfterOf(cs', j, after))
    {
      if j < i {
        assert cs'[j] == cs[j] && AfterOf(cs', j, after) == AfterOf(cs, j, after);
      } else {
        assert j > i ==> cs'[j] == cs[j + 1];
        assert AfterOf(cs', j, after) == AfterOf(cs, j + 1, after);
      }
    }
  }

  /** Borrowing keeps both chains; merging keeps the in-memory one, and the persisted one of inner nodes. */
  lemma {:induction false} BorrowAndMergeKeepLinks(d: nat, mem: bool, t: Tree, i: nat, after: PageId)
    requires d >= 2 && Siblings(d, t) && i + 1 < |t.children| && Linked(mem, t, after)
    ensures |t.children[i].keys| >= d ==>
              Linked(mem, BorrowFromPrev(d, t, i + 1), after) && FirstId(BorrowFromPrev(d, t, i + 1)) == FirstId(t)
    ensures |t.children[i + 1].keys| >= d ==>
              Linked(mem, BorrowFromNext(d, t, i), after) && FirstId(BorrowFromNext(d, t, i)) == FirstId(t)
    ensures mem || t.children[i].Inner? ==>
              Linked(mem, Merge(d, t, i), after) && FirstId(Merge(d, t, i)) == FirstId(t)
  {
    var l, r, sep := t.children[i], t.children[i + 1], t.keys[i];
    var next := AfterOf(t.children, i + 1, after);
    assert Sized(d, l) && Sized(d, r);
    assert Linked(mem, l, AfterOf(t.children, i, after)) && Linked(mem, r, next);
    if |l.keys| >= d {
      ShiftRightLinked(mem, l, sep, r, next);
      WithPairLinked(mem, t, i, ShiftRight(l, sep, r), after);
    }
    if |r.keys| >= d {
      ShiftLeftLinked(mem, l, sep, r, next);
      WithPairLinked(mem, t, i, ShiftLeft(l, sep, r), after);
    }
    if mem || l.Inner? {
      if l.Inner? { InnerJoinLinked(mem, l, sep, r, next); }
      WithJoinedLinked(mem, t, i, Join(l, sep, r), after);
    }
  }

  lemma WithSeparatorLinked(mem: bool, t: Tree, i: nat, k: Key, after: PageId)
    requires t.Inner? && i < |t.keys| && Linked(mem, t, after)
    ensures Linked(mem, WithSeparator(t, i, k), after) && FirstId(WithSeparator(t, i, k)) == FirstId(t)
  {
  }

  lemma {:induction false} PrepareKeepsLinks(d: nat, mem: bool, t: Tree, k: Key, after: PageId)
    requires d >= 2 && Siblings(d, t) && Linked(mem, t, after)
    ensures var r := Prepare(d, t, k);
            mem || r.action != Collapse || t.children[0].Inner? ==>
              Linked(mem, r.node, after) && FirstId(r.node) == FirstId(t)
  {
    hide Linked, FirstId, BorrowFromPrev, BorrowFromNext, Merge, WithSeparator;
    var i := LowerBound(t.keys, k);
    if i < |t.keys| {
      WithSeparatorLinked(mem, t, i, LastKey(t.children[i]), after);
      WithSeparatorLinked(mem, t, i, FirstKey(t.children[i + 1]), after);
      BorrowAndMergeKeepLinks(d, mem, t, i, after);
    }
    if i > 0 {
      BorrowAndMergeKeepLinks(d, mem, t, i - 1, after);
    }
  }

  /** Every removal keeps the in-memory pointers of the leaves in left-to-right order. */
  lemma {:induction false} RemoveKeepsLinks(d: nat, h: nat, t: Tree, k: Key, after: PageId)
    requires d >= 2 && Balanced(d, h, t, RootMin(t)) && Synced(t) && Linked(true, t, after)
    ensures var t' := RemoveFrom(d, h, t, k); Linked(true, t', after) && FirstId(t') == FirstId(t)
    decreases h
  {
    if t.Inner? {
      RemoveStep(d, h, t, k);
      PrepareKeepsLinks(d, true, t, k, after);
      var r := Prepare(d, t, k);
      var c := r.node.children[r.child];
      RemoveKeepsLinks(d, h - 1, c, r.key, AfterOf(r.node.children, r.child, after));
      WithChildLinked(true, r.node, r.child, RemoveFrom(d, h - 1, c, r.key), after);
    }
  }

  /** The descent of a removal merges two leaves. */
  ghost predicate MergesLeaves(d: nat, h: nat, t: Tree, k: Key)
    requires d >= 2 && Balanced(d, h, t, RootMin(t)) && Synced(t)
    decreases h
  {
    t.Inner? &&
      (RemoveStep(d, h, t, k);
       var r := Prepare(d, t, k);
       || (r.action == Collapse && t.children[0].Leaf?)
       || MergesLeaves(d, h - 1, r.node.children[r.child], r.key))
  }

  // ---------------------------------------------------------------- page ids

  ghost function IdsOf(cs: seq<Tree>): set<PageId> {
    set i, x | 0 <= i < |cs| && x in Ids(cs[i]) :: x
  }

  ghost predicate DistinctAll(cs: seq<Tree>) {
    && (forall i | 0 <= i < |cs| :: Distinct(cs[i]))
    && forall i, j | 0 <= i < j < |cs| :: Ids(cs[i]) !! Ids(cs[j])
  }

  lemma {:induction false} DistinctInner(t: Tree)
    requires t.Inner?
    ensures Ids(t) == {t.id} + IdsOf(t.children)
    ensures Distinct(t) <==> t.id !in IdsOf(t.children) && DistinctAll(t.children)
  {
    if t.id !in IdsOf(t.children) && DistinctAll(t.children) {
      assert forall i | 0 <= i < |t.children| :: t.id in Ids(t.children[i]) ==> t.id in IdsOf(t.children);
    }
  }

  lemma {:induction false} IdsOfConcat(a: seq<Tree>, b: seq<Tree>)
    ensures IdsOf(a + b) == IdsOf(a) + IdsOf(b)
  {
    var c := a + b;
    forall x | x in IdsOf(c)
      ensures x in IdsOf(a) + IdsOf(b)
    {
      var i :| 0 <= i < |c| && x in Ids(c[i]);
      if i < |a| { assert x in Ids(a[i]); } else { assert x in Ids(b[i - |a|]); }
    }
    forall x | x in IdsOf(a) + IdsOf(b)
      ensures x in IdsOf(c)
    {
      if x in IdsOf(a) {
        var i :| 0 <= i < |a| && x in Ids(a[i]);
        assert x in Ids(c[i]);
      } else {
        var i :| 0 <= i < |b| && x in Ids(b[i]);
        assert x in Ids(c[|a| + i]);
      }
    }
  }

  lemma {:induction false} DistinctConcat(a: seq<Tree>, b: seq<Tree>)
    ensures DistinctAll(a + b) <==> DistinctAll(a) && DistinctAll(b) && IdsOf(a) !! IdsOf(b)
  {
    var c := a + b;
    assert forall i | 0 <= i < |a| :: c[i] == a[i];
    assert forall i | 0 <= i < |b| :: c[|a| + i] == b[i];
    if DistinctAll(c) {
      DistinctParts(a, b);
    }
    if DistinctAll(a) && DistinctAll(b) && IdsOf(a) !! IdsOf(b) {
      forall i, j | 0 <= i < j < |c|
        ensures Ids(c[i]) !! Ids(c[j])
      {
        if i < |a| <= j {
          assert Ids(a[i]) <= IdsOf(a) && Ids(b[j - |a|]) <= IdsOf(b);
        } else if i >= |a| {
          assert c[i] == b[i - |a|] && c[j] == b[j - |a|];
        }
      }
      assert forall i | |a| <= i < |c| :: c[i] == b[i - |a|];
    }
  }

  lemma {:induction false} DistinctParts(a: seq<Tree>, b: seq<Tree>)
    requires DistinctAll(a + b)
    ensures DistinctAll(a) && DistinctAll(b) && IdsOf(a) !! IdsOf(b)
  {
    var c := a + b;
    assert forall i | 0 <= i < |a| :: c[i] == a[i];
    assert forall i | 0 <= i < |b| :: c[|a| + i] == b[i];
    forall x | x in IdsOf(a)
      ensures x !in IdsOf(b)
    {
      var i :| 0 <= i < |a| && x in Ids(a[i]);
      forall j | 0 <= j < |b|
        ensures x !in Ids(b[j])
      {
        assert Ids(c[i]) !! Ids(c[|a| + j]);
      }
    }
  }

  /** A stretch of children replaced by one that uses no other ids. */
  lemma {:induction false} ReplaceStretch(pre: seq<Tree>, mid: seq<Tree>, mid': seq<Tree>, post: seq<Tree>)
    requires DistinctAll(pre + mid + post) && DistinctAll(mid') && IdsOf(mid') <= IdsOf(mid)
    ensures DistinctAll(pre + mid' + post) && IdsOf(pre + mid' + post) <= IdsOf(pre + mid + post)
  {
    DistinctConcat(pre + mid, post);
    DistinctConcat(pre, mid);
    IdsOfConcat(pre + mid, post);
    IdsOfConcat(pre, mid);
    IdsOfConcat(pre + mid', post);
    IdsOfConcat(pre, mid');
    DistinctConcat(pre, mid');
    DistinctConcat(pre + mid', post);
  }

  lemma {:induction false} IdsOfOne(t: Tree)
    ensures IdsOf([t]) == Ids(t) && (DistinctAll([t]) <==> Distinct(t))
  {
    assert forall x | x in Ids(t) :: x in Ids([t][0]);
  }

  lemma {:induction false} IdsOfTwo(l: Tree, r: Tree)
    ensures IdsOf([l, r]) == Ids(l) + Ids(r)
    ensures DistinctAll([l, r]) <==> Distinct(l) && Distinct(r) && Ids(l) !! Ids(r)
  {
    assert [l, r] == [l] + [r];
    IdsOfConcat([l], [r]);
    DistinctConcat([l], [r]);
    IdsOfOne(l);
    IdsOfOne(r);
  }

  /** Two inner nodes on the pages of `l` and `r` that share out the children of both differently. */
  lemma {:induction false} RecutIds(l: Tree, r: Tree, l': Tree, r': Tree)
    requires l.Inner? && r.Inner? && l'.Inner? && r'.Inner? && l'.id == l.id && r'.id == r.id
    requires l'.children + r'.children == l.children + r.children
    requires Distinct(l) && Distinct(r) && Ids(l) !! Ids(r)
    ensures Distinct(l') && Distinct(r') && Ids(l') !! Ids(r') && Ids(l') + Ids(r') == Ids(l) + Ids(r)
  {
    DistinctInner(l);
    DistinctInner(r);
    DistinctInner(l');
    DistinctInner(r');
    IdsOfConcat(l.children, r.children);
    IdsOfConcat(l'.children, r'.children);
    DistinctConcat(l.children, r.children);
    DistinctConcat(l'.children, r'.children);
  }

  lemma {:induction false} ShiftIds(l: Tree, sep: Key, r: Tree)
    requires l.Leaf? <==> r.Leaf?
    requires Distinct(l) && Distinct(r) && Ids(l) !! Ids(r)
    ensures (if l.Leaf? then l.entries != [] else l.keys != [] && l.children != []) ==>
              var s := ShiftRight(l, sep, r);
              DistinctAll([s.left, s.right]) && IdsOf([s.left, s.right]) == Ids(l) + Ids(r)
    ensures (if r.Leaf? then |r.entries| >= 2 else r.keys != [] && r.children != []) ==>
              var s := ShiftLeft(l, sep, r);
              DistinctAll([s.left, s.right]) && IdsOf([s.left, s.right]) == Ids(l) + Ids(r)
    ensures Distinct(Join(l, sep, r)) && Ids(Join(l, sep, r)) <= Ids(l) + Ids(r)
  {
    hide DistinctAll, IdsOf, Distinct, Ids;
    JoinIds(l, sep, r);
    if if l.Leaf? then l.entries != [] else l.keys != [] && l.children != [] { ShiftRightIds(l, sep, r); }
    if if r.Leaf? then |r.entries| >= 2 else r.keys != [] && r.children != [] { ShiftLeftIds(l, sep, r); }
  }

  lemma {:induction false} ShiftRightIds(l: Tree, sep: Key, r: Tree)
    requires l.Leaf? <==> r.Leaf?
    requires Distinct(l) && Distinct(r) && Ids(l) !! Ids(r)
    requires if l.Leaf? then l.entries != [] else l.keys != [] && l.children != []
    ensures var s := ShiftRight(l, sep, r);
            DistinctAll([s.left, s.right]) && IdsOf([s.left, s.right]) == Ids(l) + Ids(r)
  {
    hide DistinctAll, IdsOf;
    var s := ShiftRight(l, sep, r);
    IdsOfTwo(s.left, s.right);
    if l.Inner? {
      var m := |l.children| - 1;
      assert l.children[..m] + ([l.children[m]] + r.children) == l.children + r.children;
      RecutIds(l, r, s.left, s.right);
    }
  }

  lemma {:induction false} ShiftLeftIds(l: Tree, sep: Key, r: Tree)
    requires l.Leaf? <==> r.Leaf?
    requires Distinct(l) && Distinct(r) && Ids(l) !! Ids(r)
    requires if r.Leaf? then |r.entries| >= 2 else r.keys != [] && r.children != []
    ensures var s := ShiftLeft(l, sep, r); DistinctAll([s.left, s.right]) && IdsOf([s.left, s.right]) == Ids(l) + Ids(r)
  {
    hide DistinctAll, IdsOf;
    var s := ShiftLeft(l, sep, r);
    IdsOfTwo(s.left, s.right);
    if l.Inner? {
      assert (l.children + [r.children[0]]) + r.children[1..] == l.children + r.children;
      RecutIds(l, r, s.left, s.right);
    }
  }

  lemma {:induction false} JoinIds(l: Tree, sep: Key, r: Tree)
    requires l.Leaf? <==> r.Leaf?
    requires Distinct(l) && Distinct(r) && Ids(l) !! Ids(r)
    ensures Distinct(Join(l, sep, r)) && Ids(Join(l, sep, r)) <= Ids(l) + Ids(r)
  {
    if l.Inner? {
      DistinctInner(l);
      DistinctInner(r);
      DistinctInner(Join(l, sep, r));
      IdsOfConcat(l.children, r.children);
      DistinctConcat(l.children, r.children);
    }
  }

  lemma {:induction false} SplitAtPair(cs: seq<Tree>, i: nat)
    requires i + 1 < |cs|
    ensures cs == cs[..i] + [cs[i], cs[i + 1]] + cs[i + 2..]
  {
  }

  lemma {:induction false} PairOfDistinct(p: Tree, i: nat)
    requires p.Inner? && Distinct(p) && i + 1 < |p.children|
    ensures Distinct(p.children[i]) && Distinct(p.children[i + 1]) && Ids(p.children[i]) !! Ids(p.children[i + 1])
  {
  }

  /** The parent of a recut or joined pair keeps its ids distinct and uses no new ones. */
  lemma {:induction false} ReplacePairIds(p: Tree, i: nat, mid: seq<Tree>, q: Tree)
    requires p.Inner? && Distinct(p) && i + 1 < |p.children| && q.Inner? && q.id == p.id
    requires q.children == p.children[..i] + mid + p.children[i + 2..]
    requires DistinctAll(mid) && IdsOf(mid) <= Ids(p.children[i]) + Ids(p.children[i + 1])
    ensures Distinct(q) && Ids(q) <= Ids(p)
  {
    var cs := p.children;
    DistinctInner(p);
    DistinctInner(q);
    SplitAtPair(cs, i);
    IdsOfTwo(cs[i], cs[i + 1]);
    ReplaceStretch(cs[..i], [cs[i], cs[i + 1]], mid, cs[i + 2..]);
  }

  lemma {:induction false} BorrowAndMergeKeepIds(d: nat, t: Tree, i: nat)
    requires d >= 2 && Siblings(d, t) && i + 1 < |t.children| && Distinct(t)
    ensures |t.children[i].keys| >= d ==>
              Distinct(BorrowFromPrev(d, t, i + 1)) && Ids(BorrowFromPrev(d, t, i + 1)) <= Ids(t)
    ensures |t.children[i + 1].keys| >= d ==>
              Distinct(BorrowFromNext(d, t, i)) && Ids(BorrowFromNext(d, t, i)) <= Ids(t)
    ensures Distinct(Merge(d, t, i)) && Ids(Merge(d, t, i)) <= Ids(t)
  {
    var l, r, sep := t.children[i], t.children[i + 1], t.keys[i];
    var cs := t.children;
    assert Sized(d, l) && Sized(d, r) && (l.Leaf? <==> r.Leaf?);
    hide Distinct, Ids, DistinctAll, IdsOf, ShiftRight, ShiftLeft, Join;
    PairOfDistinct(t, i);
    ShiftIds(l, sep, r);
    var j := Join(l, sep, r);
    IdsOfOne(j);
    ReplacePairIds(t, i, [j], Merge(d, t, i));
    if |l.keys| >= d {
      var s := ShiftRight(l, sep, r);
      assert cs[i := s.left][i + 1 := s.right] == cs[..i] + [s.left, s.right] + cs[i + 2..];
      ReplacePairIds(t, i, [s.left, s.right], BorrowFromPrev(d, t, i + 1));
    }
    if |r.keys| >= d {
      var s := ShiftLeft(l, sep, r);
      assert cs[i := s.left][i + 1 := s.right] == cs[..i] + [s.left, s.right] + cs[i + 2..];
      ReplacePairIds(t, i, [s.left, s.right], BorrowFromNext(d, t, i));
    }
  }

  lemma {:induction false} PrepareKeepsIds(d: nat, t: Tree, k: Key)
    requires d >= 2 && Siblings(d, t) && Distinct(t)
    ensures Distinct(Prepare(d, t, k).node) && Ids(Prepare(d, t, k).node) <= Ids(t)
  {
    var i := LowerBound(t.keys, k);
    if i < |t.keys| && t.keys[i] == k {
      BorrowAndMergeKeepIds(d, t, i);
      var r := Prepare(d, t, k);
      if r.action == Swap || r.action == Replace {
        DistinctInner(t);
        DistinctInner(r.node);
      }
    } else {
      BesideKeepsIds(d, t, i, k);
    }
  }

  lemma {:induction false} BesideKeepsIds(d: nat, t: Tree, i: nat, k: Key)
    requires d >= 2 && Siblings(d, t) && Distinct(t) && i < |t.children|
    ensures var r := BesideSeparators(d, t, i, k); Distinct(r.node) && Ids(r.node) <= Ids(t)
  {
    if i > 0 {
      BorrowAndMergeKeepIds(d, t, i - 1);
    }
    if i + 1 < |t.children| {
      BorrowAndMergeKeepIds(d, t, i);
    }
  }

  /** A removal uses no new page ids and keeps them distinct. */
  lemma {:induction false} RemoveKeepsIds(d: nat, h: nat, t: Tree, k: Key)
    requires d >= 2 && Balanced(d, h, t, RootMin(t)) && Synced(t) && Distinct(t)
    ensures var t' := RemoveFrom(d, h, t, k); Distinct(t') && Ids(t') <= Ids(t)
    decreases h
  {
    if t.Inner? {
      RemoveStep(d, h, t, k);
      PrepareKeepsIds(d, t, k);
      var r := Prepare(d, t, k);
      var c := r.node.children[r.child];
      ChildIds(r.node, r.child);
      RemoveKeepsIds(d, h - 1, c, r.key);
      WithChildFewerIds(r.node, r.child, RemoveFrom(d, h - 1, c, r.key));
    }
  }

  lemma {:induction false} WithChildFewerIds(p: Tree, j: nat, c: Tree)
    requires p.Inner? && j < |p.children| && Distinct(p) && Distinct(c) && Ids(c) <= Ids(p.children[j])
    ensures Distinct(WithChild(p, j, c)) && Ids(WithChild(p, j, c)) <= Ids(p)
  {
    var cs := p.children;
    DistinctInner(p);
    DistinctInner(WithChild(p, j, c));
    IdsOfOne(c);
    IdsOfOne(cs[j]);
    assert cs == cs[..j] + [cs[j]] + cs[j + 1..] && cs[j := c] == cs[..j] + [c] + cs[j + 1..];
    ReplaceStretch(cs[..j], [cs[j]], [c], cs[j + 1..]);
  }
}
