/**
 Runs of a tree of minimum degree 2 in which the code does less than it promises: a removal that takes out
 another key, searches that miss a stored key, and a persisted leaf chain that breaks.
 */
module BTreeExamples {
  import opened BTreeModel
  import opened BTreeInsert
  import opened BTreeIndex
  import opened BTreeSearch
  import opened BTreePoint
  import opened BTreeRemoveModel
  import opened BTreeRemove
  import opened BTreeRemoveLinks
  import opened BTreeRemoveExact
  import opened BTreeRuns

  // ---------------------------------------------------------------- one insertion, evaluated

  ghost function E(k: Key): Entry {
    Entry(k, Rid(k, 0))
  }

  ghost function Es(ks: seq<Key>): (es: seq<Entry>)
    ensures |es| == |ks| && forall i | 0 <= i < |ks| :: es[i] == E(ks[i])
    ensures KeysOf(es) == ks
  {
    seq(|ks|, i requires 0 <= i < |ks| => E(ks[i]))
  }

  /** A leaf whose two sibling ids agree. */
  ghost function L(id: PageId, ks: seq<Key>, next: PageId): Tree {
    Leaf(id, Es(ks), ks, next, next)
  }

  lemma LeafPut(id: PageId, ks: seq<Key>, next: PageId, k: Key, p: nat, last: nat)
    requires p <= |ks| <= 2 && (forall j | 0 <= j < p :: ks[j] < k) && (p < |ks| ==> k <= ks[p])
    ensures var l := L(id, ks, next);
            Balanced(2, 0, l, 0) && InsertNonFull(2, 0, l, E(k), last)
                == Grown(L(id, ks[..p] + [k] + ks[p..], next), last)
  {
    assert LowerBound(ks, k) == p;
    assert Es(ks)[..p] + [E(k)] + Es(ks)[p..] == Es(ks[..p] + [k] + ks[p..]);
  }

  /** An insertion below a child that is not full. */
  lemma PutBelow(h: nat, t: Tree, i: nat, k: Key, last: nat)
    requires t.Inner? && Balanced(2, h, t, 0) && Size(t) < 3 && i <= |t.keys|
    requires (i > 0 ==> t.keys[i - 1] <= k) && (forall j | i <= j < |t.keys| :: k < t.keys[j])
    requires i < |t.children| && Size(t.children[i]) < 3
    ensures h > 0 && Balanced(2, h - 1, t.children[i], 0)
    ensures Descend(2, h, t, k, last) == Step(t, i, last)
    ensures var g := InsertNonFull(2, h - 1, t.children[i], E(k), last);
            InsertNonFull(2, h, t, E(k), last) == Grown(WithChild(t, i, g.tree), g.last)
  {
    assert RouteInsert(t.keys, k) == i;
    BalancedMin(2, h - 1, t.children[i], 1, 0);
  }

  /** An insertion below a full child, which is split first. */
  lemma PutSplit(h: nat, t: Tree, i: nat, k: Key, last: nat, s: Tree, j: nat)
    requires t.Inner? && Balanced(2, h, t, 0) && Size(t) < 3 && i <= |t.keys|
    requires (i > 0 ==> t.keys[i - 1] <= k) && (forall j | i <= j < |t.keys| :: k < t.keys[j])
    requires i < |t.children| && Full(2, t.children[i]) && s == SplitChild(2, t, i, last + 1)
    requires j == if k > s.keys[i] then i + 1 else i
    ensures h > 0 && Balanced(2, h - 1, s.children[j], 0) && Size(s.children[j]) < 3
    ensures Descend(2, h, t, k, last) == Step(s, j, last + 1)
    ensures var g := InsertNonFull(2, h - 1, s.children[j], E(k), last + 1);
            InsertNonFull(2, h, t, E(k), last) == Grown(WithChild(s, j, g.tree), g.last)
  {
    assert RouteInsert(t.keys, k) == i;
    SplitKeepsBalance(2, h, t, i, last + 1);
    assert Descend(2, h, t, k, last) == Step(s, j, last + 1);
    BalancedMin(2, h - 1, s.children[j], 1, 0);
  }

  lemma SplitLeaf(p: Tree, i: nat, id: PageId, a: Key, b: Key, c: Key, next: PageId, newId: PageId)
    requires p.Inner? && |p.children| == |p.keys| + 1 && i < |p.children| && p.children[i] == L(id, [a, b, c], next)
    ensures Full(2, p.children[i])
    ensures SplitChild(2, p, i, newId)
         == Inner(p.id, p.keys[..i] + [b] + p.keys[i..],
                  p.children[..i] + [L(id, [a], newId), L(newId, [b, c], next)] + p.children[i + 1..])
  {
    var es := Es([a, b, c]);
    assert es[..1] == Es([a]) && es[1..] == Es([b, c]);
  }

  lemma SplitInner(p: Tree, i: nat, ks: seq<Key>, cs: seq<Tree>, newId: PageId)
    requires p.Inner? && |p.children| == |p.keys| + 1 && i < |p.children| && |ks| == 3 && |cs| == 4
    requires p.children[i].Inner? && p.children[i].keys == ks && p.children[i].children == cs
    ensures Full(2, p.children[i])
    ensures SplitChild(2, p, i, newId)
         == Inner(p.id, p.keys[..i] + [ks[1]] + p.keys[i..],
                  p.children[..i] + [Inner(p.children[i].id, [ks[0]], [cs[0], cs[1]]),
                      Inner(newId, [ks[2]], [cs[2], cs[3]])]
                  + p.children[i + 1..])
  {
    assert ks[..1] == [ks[0]] && ks[2..] == [ks[2]] && cs[..2] == [cs[0], cs[1]] && cs[2..] == [cs[2], cs[3]];
  }

  /** An insertion into a leaf with room, below its parent. */
  lemma PutLeaf(t: Tree, i: nat, id: PageId, ks: seq<Key>, next: PageId, k: Key, p: nat, last: nat)
    requires t.Inner? && Balanced(2, 1, t, 0) && Size(t) < 3 && i <= |t.keys| && i < |t.children|
    requires (i > 0 ==> t.keys[i - 1] <= k) && (forall j | i <= j < |t.keys| :: k < t.keys[j])
    requires t.children[i] == L(id, ks, next)
    requires p <= |ks| <= 2 && (forall j | 0 <= j < p :: ks[j] < k) && (p < |ks| ==> k <= ks[p])
    ensures InsertNonFull(2, 1, t, E(k), last)
         == Grown(Inner(t.id, t.keys, t.children[i := L(id, ks[..p] + [k] + ks[p..], next)]), last)
  {
    hide InsertNonFull, Balanced, Descend;
    PutBelow(1, t, i, k, last);
    LeafPut(id, ks, next, k, p, last);
  }

  /** An insertion below a full leaf: into its right half behind the last key, or into its left half. */
  lemma PutLeafSplit(t: Tree, i: nat, id: PageId, a: Key, b: Key, c: Key, next: PageId, k: Key, last: nat)
    requires t.Inner? && Balanced(2, 1, t, 0) && Size(t) < 3 && i <= |t.keys| && |t.children| == |t.keys| + 1
    requires (i > 0 ==> t.keys[i - 1] <= k) && (forall j | i <= j < |t.keys| :: k < t.keys[j])
    requires t.children[i] == L(id, [a, b, c], next) && (a < k < b || b < c < k)
    ensures InsertNonFull(2, 1, t, E(k), last)
         == Grown(Inner(t.id, t.keys[..i] + [b] + t.keys[i..],
                        t.children[..i]
                        + (if k < b then [L(id, [a, k], last + 1), L(last + 1, [b, c], next)]
                           else [L(id, [a], last + 1), L(last + 1, [b, c, k], next)])
                        + t.children[i + 1..]), last + 1)
  {
    hide InsertNonFull, Balanced, Descend, SplitChild, Full, L;
    SplitLeaf(t, i, id, a, b, c, next, last + 1);
    var s := SplitChild(2, t, i, last + 1);
    var j := if k > b then i + 1 else i;
    PutSplit(1, t, i, k, last, s, j);
    var l, r := L(id, [a], last + 1), L(last + 1, [b, c], next);
    if k < b {
      LeafPut(id, [a], last + 1, k, 1, last + 1);
      assert [a][..1] + [k] + [a][1..] == [a, k];
      SpliceFirst(t.children[..i], l, r, t.children[i + 1..], L(id, [a, k], last + 1));
    } else {
      LeafPut(last + 1, [b, c], next, k, 2, last + 1);
      assert [b, c][..2] + [k] + [b, c][2..] == [b, c, k];
      SpliceSecond(t.children[..i], l, r, t.children[i + 1..], L(last + 1, [b, c, k], next));
    }
  }

  lemma SpliceFirst(a: seq<Tree>, x: Tree, y: Tree, b: seq<Tree>, z: Tree)
    ensures (a + [x, y] + b)[|a| := z] == a + [z, y] + b
  {
  }

  lemma SpliceSecond(a: seq<Tree>, x: Tree, y: Tree, b: seq<Tree>, z: Tree)
    ensures (a + [x, y] + b)[|a| + 1 := z] == a + [x, z] + b
  {
  }

  ghost function Ix(t: Tree, last: nat): Version {
    Version(Rooted(t), last)
  }

  /** An insertion into an index whose root is not full. */
  lemma PutIndex(t: Tree, h: nat, last: nat, k: Key)
    requires Sound(2, false, Ix(t, last)) && Size(t) < 3 && h == Height(t)
    ensures Balanced(2, h, t, 0)
    ensures var g := InsertNonFull(2, h, t, E(k), last); Apply(2, Ix(t, last), Put(E(k))) == Ix(g.tree, g.last)
  {
    BalancedMin(2, h, t, RootMin(t), 0);
  }

  /** An insertion into an index whose root is full. */
  lemma PutIndexFull(t: Tree, h: nat, last: nat, k: Key)
    requires Sound(2, false, Ix(t, last)) && Size(t) == 3 && h == Height(t)
    ensures Full(2, t) && Balanced(2, h + 1, NewRoot(2, t, last), 0) && Size(NewRoot(2, t, last)) == 1
    ensures NewRoot(2, t, last) == SplitChild(2, Inner(last + 1, [], [t]), 0, last + 2)
    ensures var g := InsertNonFull(2, h + 1, NewRoot(2, t, last), E(k), last + 2);
            Apply(2, Ix(t, last), Put(E(k))) == Ix(g.tree, g.last)
  {
    hide InsertNonFull, SplitChild, Split, Full, Balanced, Ordered, Distinct, IdsWithin, Linked, Synced;
    BalancedMin(2, h, t, RootMin(t), 0);
    SplitRoot(2, h, t, last);
    BalancedMin(2, h + 1, NewRoot(2, t, last), 1, 0);
  }

  // ---------------------------------------------------------------- the tree of the examples

  ghost function Low(): Tree {
    Inner(2, [2], [L(1, [1], 3), L(3, [2], 4)])
  }

  ghost function High(): Tree {
    Inner(7, [5, 6, 8], [L(4, [3], 5), L(5, [5], 8), L(8, [6, 7], 9), L(9, [8, 9], NULL_PAGE)])
  }

  ghost function Base(): Tree {
    Inner(6, [3], [Low(), High()])
  }

  /** The index after the first `n` insertions of the keys 1, 2, 3, 5, 6, 8, 9 and 7. */
  ghost function Stage(n: nat): Version {
    match n
    case 3 => Ix(L(1, [1, 2, 3], NULL_PAGE), 1)
    case 4 => Ix(Inner(2, [2], [L(1, [1], 3), L(3, [2, 3, 5], NULL_PAGE)]), 3)
    case 5 => Ix(Inner(2, [2, 3], [L(1, [1], 3), L(3, [2], 4), L(4, [3, 5, 6], NULL_PAGE)]), 4)
    case 6 => Ix(Inner(2, [2, 3, 5], [L(1, [1], 3), L(3, [2], 4), L(4, [3], 5), L(5, [5, 6, 8], NULL_PAGE)]), 5)
    case 7 => Ix(Inner(6, [3], [Low(), Inner(7, [5, 6], [L(4, [3], 5), L(5, [5], 8), L(8, [6, 8, 9], NULL_PAGE)])]), 8)
    case _ => Ix(Base(), 9)
  }

  lemma {:induction false} PutThree()
    ensures var v1 := Apply(2, Version(Empty, 0), Put(E(1)));
            var v2 := Apply(2, v1, Put(E(2)));
            Apply(2, v2, Put(E(3))) == Stage(3)
  {
    hide InsertNonFull, Balanced;
    var v1 := Apply(2, Version(Empty, 0), Put(E(1)));
    PutFirst();
    PutIndex(v1.index.tree, 0, 1, 2);
    LeafPut(1, [1], NULL_PAGE, 2, 1, 1);
    assert [1][..1] + [2] + [1][1..] == [1, 2];
    var v2 := Apply(2, v1, Put(E(2)));
    PutIndex(v2.index.tree, 0, 1, 3);
    LeafPut(1, [1, 2], NULL_PAGE, 3, 2, 1);
    assert [1, 2][..2] + [3] + [1, 2][2..] == [1, 2, 3];
  }

  lemma PutFirst()
    ensures Apply(2, Version(Empty, 0), Put(E(1))) == Ix(L(1, [1], NULL_PAGE), 1)
  {
    assert Es([1]) == [E(1)];
  }

  lemma {:induction false} PutFive()
    requires Sound(2, false, Stage(3))
    ensures Apply(2, Stage(3), Put(E(5))) == Stage(4)
  {
    hide InsertNonFull, Balanced, Sound, Apply, SplitChild, Full, NewRoot;
    var t := L(1, [1, 2, 3], NULL_PAGE);
    var l, r := L(1, [1], 3), L(3, [2, 3], NULL_PAGE);
    var top, s := Inner(2, [], [t]), Inner(2, [2], [l, r]);
    PutIndexFull(t, 0, 1, 5);
    SplitLeaf(top, 0, 1, 1, 2, 3, NULL_PAGE, 3);
    assert top.keys[..0] + [2] + top.keys[0..] == [2];
    assert top.children[..0] + [l, r] + top.children[1..] == [l, r];
    PutLeaf(s, 1, 3, [2, 3], NULL_PAGE, 5, 2, 3);
    assert [2, 3][..2] + [5] + [2, 3][2..] == [2, 3, 5];
    assert [l, r][1 := L(3, [2, 3, 5], NULL_PAGE)] == [l, L(3, [2, 3, 5], NULL_PAGE)];
  }

  lemma {:induction false} PutSix()
    requires Sound(2, false, Stage(4))
    ensures Apply(2, Stage(4), Put(E(6))) == Stage(5)
  {
    hide InsertNonFull, Balanced, Sound, Apply;
    var l := L(1, [1], 3);
    var t := Inner(2, [2], [l, L(3, [2, 3, 5], NULL_PAGE)]);
    PutIndex(t, 1, 3, 6);
    PutLeafSplit(t, 1, 3, 2, 3, 5, NULL_PAGE, 6, 3);
    assert t.keys[..1] + [3] + t.keys[1..] == [2, 3];
    assert t.children[..1] + [L(3, [2], 4), L(4, [3, 5, 6], NULL_PAGE)] + t.children[2..]
        == [l, L(3, [2], 4), L(4, [3, 5, 6], NULL_PAGE)];
  }

  lemma {:induction false} PutEight()
    requires Sound(2, false, Stage(5))
    ensures Apply(2, Stage(5), Put(E(8))) == Stage(6)
  {
    hide InsertNonFull, Balanced, Sound, Apply;
    var l, m := L(1, [1], 3), L(3, [2], 4);
    var t := Inner(2, [2, 3], [l, m, L(4, [3, 5, 6], NULL_PAGE)]);
    PutIndex(t, 1, 4, 8);
    PutLeafSplit(t, 2, 4, 3, 5, 6, NULL_PAGE, 8, 4);
    assert t.keys[..2] + [5] + t.keys[2..] == [2, 3, 5];
    assert t.children[..2] + [L(4, [3], 5), L(5, [5, 6, 8], NULL_PAGE)] + t.children[3..]
        == [l, m, L(4, [3], 5), L(5, [5, 6, 8], NULL_PAGE)];
  }

  lemma {:induction false} PutNine()
    requires Sound(2, false, Stage(6))
    ensures Apply(2, Stage(6), Put(E(9))) == Stage(7)
  {
    hide InsertNonFull, Balanced, Sound, Apply, SplitChild, Full, NewRoot, Descend;
    var cs := [L(1, [1], 3), L(3, [2], 4), L(4, [3], 5), L(5, [5, 6, 8], NULL_PAGE)];
    var t, c := Inner(2, [2, 3, 5], cs), Inner(7, [5], [cs[2], cs[3]]);
    var top, s := Inner(6, [], [t]), Inner(6, [3], [Low(), c]);
    PutIndexFull(t, 1, 5, 9);
    SplitInner(top, 0, t.keys, cs, 7);
    assert top.keys[..0] + [3] + top.keys[0..] == [3];
    assert top.children[..0] + [Low(), c] + top.children[1..] == [Low(), c];
    PutBelow(2, s, 1, 9, 7);
    PutLeafSplit(c, 1, 5, 5, 6, 8, NULL_PAGE, 9, 7);
    assert c.keys[..1] + [6] + c.keys[1..] == [5, 6];
    assert c.children[..1] + [L(5, [5], 8), L(8, [6, 8, 9], NULL_PAGE)] + c.children[2..]
        == [cs[2], L(5, [5], 8), L(8, [6, 8, 9], NULL_PAGE)];
    var c' := Inner(7, [5, 6], [cs[2], L(5, [5], 8), L(8, [6, 8, 9], NULL_PAGE)]);
    assert [Low(), c][1 := c'] == [Low(), c'];
  }

  lemma {:induction false} PutSeven()
    requires Sound(2, false, Stage(7))
    ensures Apply(2, Stage(7), Put(E(7))) == Stage(8)
  {
    hide InsertNonFull, Balanced, Sound, Apply, Descend;
    var l, m := L(4, [3], 5), L(5, [5], 8);
    var c := Inner(7, [5, 6], [l, m, L(8, [6, 8, 9], NULL_PAGE)]);
    var t := Inner(6, [3], [Low(), c]);
    PutIndex(t, 2, 8, 7);
    PutBelow(2, t, 1, 7, 8);
    PutLeafSplit(c, 2, 8, 6, 8, 9, NULL_PAGE, 7, 8);
    assert c.keys[..2] + [8] + c.keys[2..] == [5, 6, 8];
    assert c.children[..2] + [L(8, [6, 7], 9), L(9, [8, 9], NULL_PAGE)] + c.children[3..]
        == [l, m, L(8, [6, 7], 9), L(9, [8, 9], NULL_PAGE)];
    assert [Low(), c][1 := High()] == [Low(), High()];
  }

  // ---------------------------------------------------------------- the run that builds it

  ghost function Puts(ks: seq<Key>): (ops: seq<Op>)
    ensures |ops| == |ks| && forall i | 0 <= i < |ks| :: ops[i] == Put(E(ks[i]))
  {
    seq(|ks|, i requires 0 <= i < |ks| => Put(E(ks[i])))
  }

  const KEYS: seq<Key> := [1, 2, 3, 5, 6, 8, 9, 7]

  lemma RunStep(ops: seq<Op>, n: nat)
    requires n < |ops|
    ensures Run(2, ops[..n + 1], 0) == Apply(2, Run(2, ops[..n], 0), ops[n])
  {
    assert ops[..n + 1][..n] == ops[..n];
  }

  lemma RunMore(ops: seq<Op>, op: Op)
    ensures Run(2, ops + [op], 0) == Apply(2, Run(2, ops, 0), op)
  {
    assert (ops + [op])[..|ops|] == ops;
  }

  lemma {:induction false} BaseRun()
    ensures Run(2, Puts(KEYS), 0) == Stage(8)
  {
    hide Sound, Apply, Stage, Run;
    var ops := Puts(KEYS);
    RunFirst(ops);
    RunStep(ops, 0);
    RunStep(ops, 1);
    RunStep(ops, 2);
    PutThree();
    RunStep(ops, 3);
    PutFive();
    RunStep(ops, 4);
    PutSix();
    RunStep(ops, 5);
    PutEight();
    RunStep(ops, 6);
    PutNine();
    RunStep(ops, 7);
    PutSeven();
    assert ops[..8] == ops;
  }

  lemma RunFirst(ops: seq<Op>)
    ensures Run(2, ops[..0], 0) == Version(Empty, 0)
  {
  }

  // ---------------------------------------------------------------- one removal, evaluated

  lemma LeafDel(id: PageId, ks: seq<Key>, next: PageId, nextPid: PageId, p: nat)
    requires p < |ks| <= 3 && forall j | 0 <= j < p :: ks[j] != ks[p]
    ensures var l, ks' := Leaf(id, Es(ks), ks, next, nextPid), ks[..p] + ks[p + 1..];
            Balanced(2, 0, l, 0) && Synced(l) && RemoveFrom(2, 0, l, ks[p]) == Leaf(id, Es(ks'), ks', next, nextPid)
  {
    var es := Es(ks);
    assert es[p].key == ks[p];
    assert FindEntry(es, ks[p]) == p;
    assert DropAt(es, p) == Es(ks[..p] + ks[p + 1..]);
  }

  /** The key lies beside the separators, and the child to take has an entry to spare. */
  lemma KeepAt(t: Tree, k: Key, i: nat)
    requires Siblings(2, t) && i < |t.children| && |t.children[i].keys| >= 2
    requires (forall j | 0 <= j < i :: t.keys[j] < k) && (i < |t.keys| ==> k < t.keys[i])
    ensures Prepare(2, t, k) == Turn(t, i, k, Keep)
  {
    assert LowerBound(t.keys, k) == i;
  }

  lemma SwapAt(t: Tree, k: Key, i: nat)
    requires Siblings(2, t) && i < |t.keys| && t.keys[i] == k && (forall j | 0 <= j < i :: t.keys[j] < k)
    requires |t.children[i].keys| >= 2
    ensures var pred := LastKey(t.children[i]);
            Prepare(2, t, k) == Turn(Inner(t.id, t.keys[i := pred], t.children), i, pred, Swap)
  {
    assert LowerBound(t.keys, k) == i;
  }

  lemma ReplaceAt(t: Tree, k: Key, i: nat)
    requires Siblings(2, t) && i < |t.keys| && t.keys[i] == k && (forall j | 0 <= j < i :: t.keys[j] < k)
    requires |t.children[i].keys| < 2 <= |t.children[i + 1].keys|
    ensures var succ := FirstKey(t.children[i + 1]);
            Prepare(2, t, k) == Turn(Inner(t.id, t.keys[i := succ], t.children), i + 1, succ, Replace)
  {
    assert LowerBound(t.keys, k) == i;
  }

  /** The first two children are merged: the key equals their separator, or lies left of it. */
  lemma MergeFirst(t: Tree, k: Key)
    requires Siblings(2, t) && k <= t.keys[0] && |t.children[0].keys| < 2 && |t.children[1].keys| < 2
    ensures Prepare(2, t, k)
         == Turn(Inner(t.id, t.keys[1..], [Join(t.children[0], t.keys[0], t.children[1])] + t.children[2..]), 0, k,
             Collapse)
  {
    assert LowerBound(t.keys, k) == 0;
    assert t.keys[..0] + t.keys[1..] == t.keys[1..];
    assert t.children[..0] + [Join(t.children[0], t.keys[0], t.children[1])] + t.children[2..]
        == [Join(t.children[0], t.keys[0], t.children[1])] + t.children[2..];
  }

  /** A removal from an index whose root keeps a separator. */
  lemma DelIndex(t: Tree, h: nat, last: nat, k: Key)
    requires Sound(2, false, Ix(t, last)) && h == Height(t)
    ensures Balanced(2, h, t, RootMin(t)) && Synced(t)
    ensures var t' := RemoveFrom(2, h, t, k);
            t'.Inner? && t'.keys != [] ==> Apply(2, Ix(t, last), Del(k)) == Ix(t', last)
  {
  }

  /** The key of one child's entry, removed below a node that keeps the child as it is. */
  lemma DelBelow(h: nat, t: Tree, k: Key, i: nat)
    requires t.Inner? && Balanced(2, h, t, RootMin(t)) && Synced(t) && i < |t.children| && |t.children[i].keys| >= 2
    requires (forall j | 0 <= j < i :: t.keys[j] < k) && (i < |t.keys| ==> k < t.keys[i])
    ensures h > 0 && Siblings(2, t) && Prepare(2, t, k) == Turn(t, i, k, Keep)
    ensures var c := t.children[i];
            && Balanced(2, h - 1, c, RootMin(c)) && Synced(c)
            && RemoveFrom(2, h, t, k) == WithChild(t, i, RemoveFrom(2, h - 1, c, k))
  {
    RemoveStep(2, h, t, k);
    KeepAt(t, k, i);
  }

  // ---------------------------------------------------------------- a removal that takes out another key

  lemma EntriesTwo(a: Tree, b: Tree)
    ensures EntriesOf([a, b]) == Entries(a) + Entries(b)
  {
    assert [a, b][1..] == [b] && [b][1..] == [];
    assert EntriesOf([b]) == Entries(b) + [];
  }

  lemma EntriesFour(a: Tree, b: Tree, c: Tree, d: Tree)
    ensures EntriesOf([a, b, c, d]) == Entries(a) + Entries(b) + Entries(c) + Entries(d)
  {
    assert [a, b] + [c, d] == [a, b, c, d];
    EntriesOfConcat([a, b], [c, d]);
    EntriesTwo(a, b);
    EntriesTwo(c, d);
  }

  /** The base tree with other entries in the leaf of 6 and 7, and another last separator. */
  ghost function BaseWith(sep: Key, ks: seq<Key>): Tree {
    Inner(6, [3], [Low(), Inner(7, [5, 6, sep], [L(4, [3], 5), L(5, [5], 8), L(8, ks, 9), L(9, [8, 9], NULL_PAGE)])])
  }

  lemma BaseEntries(sep: Key, ks: seq<Key>)
    ensures Entries(BaseWith(sep, ks)) == Es([1, 2, 3, 5] + ks + [8, 9])
  {
    EntriesTwo(Low(), BaseWith(sep, ks).children[1]);
    EntriesTwo(L(1, [1], 3), L(3, [2], 4));
    EntriesFour(L(4, [3], 5), L(5, [5], 8), L(8, ks, 9), L(9, [8, 9], NULL_PAGE));
    assert Es([1]) + Es([2]) + (Es([3]) + Es([5]) + Es(ks) + Es([8, 9])) == Es([1, 2, 3, 5] + ks + [8, 9]);
  }

  /** A removal that misses: removing 8 takes out 7. */
  lemma {:induction false} MissExample()
    ensures var ops := Puts([1, 2, 3, 5, 6, 8, 9, 7]);
            && Contents(Run(2, ops, 0).index) == Es([1, 2, 3, 5, 6, 7, 8, 9])
            && Contents(Run(2, ops + [Del(8)], 0).index) == Es([1, 2, 3, 5, 6, 8, 9])
  {
    hide Sound, Apply, Run;
    var ops := Puts(KEYS);
    BaseRun();
    RunMore(ops, Del(8));
    MissedKey();
    BaseEntries(8, [6, 7]);
    BaseEntries(7, [6]);
    assert [1, 2, 3, 5] + [6, 7] + [8, 9] == [1, 2, 3, 5, 6, 7, 8, 9];
    assert [1, 2, 3, 5] + [6] + [8, 9] == [1, 2, 3, 5, 6, 8, 9];
  }

  lemma {:induction false} MissedKey()
    requires Sound(2, false, Ix(Base(), 9))
    ensures Apply(2, Ix(Base(), 9), Del(8)) == Ix(BaseWith(7, [6]), 9)
  {
    hide Sound, Apply, Balanced, Synced, RemoveFrom, Siblings, Prepare;
    var t, c := Base(), High();
    DelIndex(t, 2, 9, 8);
    DelBelow(2, t, 8, 1);
    RemoveStep(2, 1, c, 8);
    SwapAt(c, 8, 2);
    LeafDel(8, [6, 7], 9, 9, 1);
    assert [6, 7][..1] + [6, 7][2..] == [6];
    var c' := BaseWith(7, [6]).children[1];
    assert c.keys[2 := 7] == c'.keys && c.children[2 := L(8, [6], 9)] == c'.children;
    assert [Low(), c][1 := c'] == [Low(), c'];
  }

  // ---------------------------------------------------------------- searches that miss

  lemma {:induction false} PutsMap(ks: seq<Key>, k: Key)
    ensures k in MapOf(Puts(ks)) <==> k in ks
  {
    if ks != [] {
      var n := |ks| - 1;
      assert Puts(ks)[..n] == Puts(ks[..n]);
      PutsMap(ks[..n], k);
      assert ks == ks[..n] + [ks[n]];
    }
  }

  /** Insertions of distinct keys are a clean run. */
  lemma {:induction false} PutsClean(ks: seq<Key>)
    requires forall i, j | 0 <= i < j < |ks| :: ks[i] != ks[j]
    ensures CleanRun(2, Puts(ks), 0)
  {
    if ks != [] {
      var n := |ks| - 1;
      var ops := Puts(ks[..n]);
      assert Puts(ks)[..n] == ops;
      PutsClean(ks[..n]);
      CleanRunIsMap(2, ops, 0);
      RepresentsKey(Contents(Run(2, ops, 0).index), MapOf(ops), ks[n]);
      PutsMap(ks[..n], ks[n]);
    }
  }

  /** Removing 6 replaces the separator 6 by itself: a clean step, after which 6 is a separator only. */
  lemma {:induction false} ReplacedByItself()
    requires Sound(2, false, Ix(Base(), 9))
    ensures Apply(2, Ix(Base(), 9), Del(6)) == Ix(BaseWith(8, [7]), 9) && Hits(2, Ix(Base(), 9), 6)
  {
    hide Sound, Apply, Balanced, Synced, RemoveFrom, Siblings, Prepare;
    var t, c := Base(), High();
    DelIndex(t, 2, 9, 6);
    DelBelow(2, t, 6, 1);
    RemoveStep(2, 1, c, 6);
    ReplaceAt(c, 6, 1);
    LeafDel(8, [6, 7], 9, 9, 0);
    assert [6, 7][..0] + [6, 7][1..] == [7];
    var c' := BaseWith(8, [7]).children[1];
    assert c.keys[1 := 6] == c.keys && c.children[2 := L(8, [7], 9)] == c'.children;
    assert [Low(), c][1 := c'] == [Low(), c'];
  }

  /** Inserting 6 again splits the full node around its separator 6, and takes the left half. */
  lemma {:induction false} SixIsPromoted()
    requires Sound(2, false, Ix(BaseWith(8, [7]), 9))
    ensures Balanced(2, 2, BaseWith(8, [7]), 0) && PromotesIn(2, Ix(BaseWith(8, [7]), 9), 6)
  {
    hide Sound, Apply, Balanced, SplitChild, Full, Descend;
    var t := BaseWith(8, [7]);
    var c := t.children[1];
    PutIndex(t, 2, 9, 6);
    SplitInner(t, 1, c.keys, c.children, 10);
    var s := SplitChild(2, t, 1, 10);
    assert s.keys == [3, 6];
    PutSplit(2, t, 1, 6, 9, s, 1);
  }

  lemma CleanMore(ops: seq<Op>, op: Op)
    requires CleanRun(2, ops, 0) && CleanStep(2, Run(2, ops, 0), op)
    ensures CleanRun(2, ops + [op], 0)
  {
    assert (ops + [op])[..|ops|] == ops;
  }

  lemma {:induction false} GoneFromMap(ops: seq<Op>, k: Key)
    requires CleanRun(2, ops + [Del(k)], 0)
    ensures !HasKey(Contents(Run(2, ops + [Del(k)], 0).index), k)
  {
    var more := ops + [Del(k)];
    assert more[..|ops|] == ops;
    CleanRunIsMap(2, more, 0);
    RepresentsKey(Contents(Run(2, more, 0).index), MapOf(more), k);
  }

  /** An insertion that promotes its key stores it where the search does not look. */
  lemma {:induction false} PromotedPut(v: Version, e: Entry)
    requires Sound(2, false, v) && !HasKey(Contents(v.index), e.key)
    requires v.index.Rooted? && Balanced(2, Height(v.index.tree), v.index.tree, 0) && PromotesIn(2, v, e.key)
    ensures var x := Apply(2, v, Put(e)).index; HasKey(Contents(x), e.key) && !Found(x, e.key)
  {
    InsertedIsFound(2, v, e);
    InsertKeepsValid(2, false, v, e);
    var es := Contents(Insert(2, v, e).index);
    assert e in multiset(es);
    var i :| 0 <= i < |es| && es[i] == e;
  }

  /** After distinct insertions and a removal that all do what they promise, 6 is inserted again: it is stored, and
      a search for it fails. */
  lemma {:induction false} PromotedIsMissed()
    ensures var ops := Puts([1, 2, 3, 5, 6, 8, 9, 7]) + [Del(6)] + [Put(E(6))];
            var x := Run(2, ops, 0).index;
            CleanRun(2, ops, 0) && HasKey(Contents(x), 6) && !Found(x, 6)
  {
    hide Sound, Apply, Run, PromotesIn, Hits, Found, CleanRun, Balanced;
    var ops := Puts(KEYS);
    BaseRun();
    PutsClean(KEYS);
    RunMore(ops, Del(6));
    ReplacedByItself();
    CleanMore(ops, Del(6));
    GoneFromMap(ops, 6);
    SixIsPromoted();
    RunMore(ops + [Del(6)], Put(E(6)));
    CleanMore(ops + [Del(6)], Put(E(6)));
    assert Height(BaseWith(8, [7])) == 2;
    PromotedPut(Ix(BaseWith(8, [7]), 9), E(6));
  }

  // ---------------------------------------------------------------- a chain that breaks

  lemma {:induction false} BaseChained()
    ensures Chained(false, Stage(8).index)
  {
    var t := Base();
    assert Linked(false, Low(), 4) && Linked(false, High(), NULL_PAGE);
  }

  lemma {:induction false} FiveMerges()
    requires Sound(2, false, Ix(Base(), 9))
    ensures Height(Base()) == 2 && MergesLeaves(2, 2, Base(), 5)
  {
    hide Sound, Apply, Balanced, Synced, RemoveFrom, Siblings, Prepare;
    var t, c := Base(), High();
    DelIndex(t, 2, 9, 5);
    DelBelow(2, t, 5, 1);
    RemoveStep(2, 1, c, 5);
    MergeFirst(c, 5);
  }

  /** A removal that merges two leaves: before it the persisted sibling ids name the leaves in order, after it not. */
  lemma {:induction false} ChainBreaks()
    ensures var ops := Puts([1, 2, 3, 5, 6, 8, 9, 7]);
            Chained(false, Run(2, ops, 0).index) && !Chained(false, Run(2, ops + [Del(5)], 0).index)
  {
    hide Sound, Run, Chained, MergesLeaves;
    var ops := Puts(KEYS);
    BaseRun();
    BaseChained();
    FiveMerges();
    RunMore(ops, Del(5));
    IndexChainSurvives(2, Ix(Base(), 9), 5);
  }

  // ---------------------------------------------------------------- a search that misses after a removal that misses

  /** The base tree after 4 was inserted: the node on the right of 3 is split around 6. */
  ghost function Wide(): Tree {
    Inner(6, [3, 6], [Low(), Inner(7, [5], [L(4, [3, 4], 5), L(5, [5], 8)]), Upper()])
  }

  ghost function Upper(): Tree {
    Inner(10, [8], [L(8, [6, 7], 9), L(9, [8, 9], NULL_PAGE)])
  }

  /** The leaf of 1 and 2 after they were merged and 1 was removed: its persisted sibling id is that of a page
      no longer in use. */
  ghost function Stale(): Tree {
    Leaf(1, Es([2]), [2], 4, 3)
  }

  ghost function Narrow(): Tree {
    Inner(6, [6], [Inner(2, [3, 5], [Stale(), L(4, [3, 4], 5), L(5, [5], 8)]), Upper()])
  }

  ghost function Swapped(): Tree {
    Inner(6, [5], [Inner(2, [3, 4], [Stale(), L(4, [3], 5), L(5, [5], 8)]), Upper()])
  }

  lemma {:induction false} PutFour()
    requires Sound(2, false, Ix(Base(), 9))
    ensures Apply(2, Ix(Base(), 9), Put(E(4))) == Ix(Wide(), 10)
  {
    hide InsertNonFull, Sound, Apply, Balanced, SplitChild, Full, Descend;
    var t, c := Base(), High();
    PutIndex(t, 2, 9, 4);
    SplitInner(t, 1, c.keys, c.children, 10);
    var s := SplitChild(2, t, 1, 10);
    var m := Inner(7, [5], [L(4, [3], 5), L(5, [5], 8)]);
    assert s.keys == [3, 6] && s.children == [Low(), m, Upper()];
    PutSplit(2, t, 1, 4, 9, s, 1);
    PutLeaf(m, 0, 4, [3], 5, 4, 1, 10);
    assert [3][..1] + [4] + [3][1..] == [3, 4];
    assert m.children[0 := L(4, [3, 4], 5)] == [L(4, [3, 4], 5), L(5, [5], 8)];
    assert s.children[1 := Wide().children[1]] == Wide().children;
  }

  lemma {:induction false} DelOne()
    requires Sound(2, false, Ix(Wide(), 10))
    ensures Apply(2, Ix(Wide(), 10), Del(1)) == Ix(Narrow(), 10) && Hits(2, Ix(Wide(), 10), 1)
  {
    hide Sound, Apply, Balanced, Synced, RemoveFrom, Siblings, Prepare;
    var t := Wide();
    DelIndex(t, 2, 10, 1);
    RemoveStep(2, 2, t, 1);
    MergeFirst(t, 1);
    var cs := [L(1, [1], 3), L(3, [2], 4), L(4, [3, 4], 5), L(5, [5], 8)];
    var c := Inner(2, [2, 3, 5], cs);
    assert Join(t.children[0], 3, t.children[1]) == c;
    assert [3, 6][1..] == [6] && [c] + t.children[2..] == [c, Upper()];
    RemoveStep(2, 1, c, 1);
    DelOneLow(c);
    assert [c, Upper()][0 := Narrow().children[0]] == [Narrow().children[0], Upper()];
  }

  lemma {:induction false} DelOneLow(c: Tree)
    requires c == Inner(2, [2, 3, 5], [L(1, [1], 3), L(3, [2], 4), L(4, [3, 4], 5), L(5, [5], 8)])
    requires Balanced(2, 1, c, 1) && Synced(c)
    ensures Siblings(2, c) && Prepare(2, c, 1).key == 1
    ensures RemoveFrom(2, 1, c, 1) == Narrow().children[0]
    ensures Prepare(2, c, 1).node.children[0].Leaf?
  {
    hide Balanced, Synced, RemoveFrom, Siblings, Prepare;
    var cs := c.children;
    RemoveStep(2, 1, c, 1);
    MergeFirst(c, 1);
    var l := Leaf(1, Es([1, 2]), [1, 2], 4, 3);
    assert Es([1]) + Es([2]) == Es([1, 2]);
    assert Join(cs[0], 2, cs[1]) == l;
    assert [2, 3, 5][1..] == [3, 5] && [l] + cs[2..] == [l, cs[2], cs[3]];
    LeafDel(1, [1, 2], 4, 3, 0);
    assert [1, 2][..0] + [1, 2][1..] == [2];
    assert [l, cs[2], cs[3]][0 := Stale()] == [Stale(), cs[2], cs[3]];
  }

  lemma {:induction false} DelSix()
    requires Sound(2, false, Ix(Narrow(), 10))
    ensures Apply(2, Ix(Narrow(), 10), Del(6)) == Ix(Swapped(), 10)
  {
    hide Sound, Apply, Balanced, Synced, RemoveFrom, Siblings, Prepare;
    var t := Narrow();
    var c := t.children[0];
    DelIndex(t, 2, 10, 6);
    RemoveStep(2, 2, t, 6);
    SwapAt(t, 6, 0);
    assert LastKey(c) == 5;
    assert [6][0 := 5] == [5];
    RemoveStep(2, 1, c, 5);
    SwapAt(c, 5, 1);
    assert [3, 5][1 := 4] == [3, 4];
    LeafDel(4, [3, 4], 5, 5, 1);
    assert [3, 4][..1] + [3, 4][2..] == [3];
    assert c.children[1 := L(4, [3], 5)] == Swapped().children[0].children;
    assert [c, Upper()][0 := Swapped().children[0]] == [Swapped().children[0], Upper()];
  }

  lemma FiveIsMissed(last: nat)
    ensures HasKey(Contents(Ix(Swapped(), last).index), 5) && !Found(Ix(Swapped(), last).index, 5)
  {
    hide HasKey, LeafEntries;
    var t := Swapped();
    FiveStored(t.children[0]);
    HasKeyBelow(t, 0, 5);
    FiveNotReached(t);
  }

  lemma FiveStored(c: Tree)
    requires c.Inner? && |c.children| == 3 && c.children[2] == L(5, [5], 8)
    ensures HasKey(Entries(c), 5)
  {
    assert Es([5])[0].key == 5;
    HasKeyBelow(c, 2, 5);
  }

  lemma FiveNotReached(t: Tree)
    requires t.Inner? && t.keys == [5] && |t.children| == 2 && t.children[1] == Upper()
    ensures !HasKey(LeafEntries(true, t, 5), 5)
  {
    assert UpperBound([5], 5) == 1 && UpperBound([8], 5) == 0;
    assert LeafFor(true, t, 5) == LeafFor(true, Upper(), 5) == L(8, [6, 7], 9);
  }

  /** The removal of 6 takes out 4 instead and leaves 5 left of a separator 5: 5 is stored, and a search for it
      fails. */
  lemma {:induction false} ReplacedIsMissed()
    ensures var ops := Puts([1, 2, 3, 5, 6, 8, 9, 7]) + [Put(E(4))] + [Del(1)];
            && CleanRun(2, ops, 0)
            && var x := Run(2, ops + [Del(6)], 0).index; HasKey(Contents(x), 5) && !Found(x, 5)
  {
    hide Sound, Apply, Run, CleanRun, Found, HasKey;
    var ops := Puts(KEYS);
    BaseRun();
    RunMore(ops, Put(E(4)));
    PutsClean(KEYS + [4]);
    assert Puts(KEYS + [4]) == ops + [Put(E(4))];
    PutFour();
    RunMore(ops + [Put(E(4))], Del(1));
    DelOne();
    CleanMore(ops + [Put(E(4))], Del(1));
    RunMore(ops + [Put(E(4))] + [Del(1)], Del(6));
    DelSix();
    FiveIsMissed(10);
  }
}
