/** Exactly when the persisted chain of sibling ids survives a removal. */
module BTreeRemoveChain {
  import opened BTreeModel
  import opened BTreeInsertLinks
  import opened BTreeRemoveModel
  import opened BTreeRemove
  import opened BTreeRemoveLinks

  lemma {:induction false} FirstIdAmongIds(mem: bool, t: Tree, after: PageId)
    requires Linked(mem, t, after)
    ensures FirstId(t) in Ids(t)
    decreases t
  {
    if t.Inner? {
      FirstIdAmongIds(mem, t.children[0], AfterOf(t.children, 0, after));
      assert Ids(t.children[0]) <= Ids(t);
    }
  }

  /** What follows a child in the chain is no page of that child. */
  lemma {:induction false} AfterChild(mem: bool, p: Tree, j: nat, after: PageId)
    requires p.Inner? && j < |p.children| && Linked(mem, p, after) && Distinct(p) && after !in Ids(p)
    ensures AfterOf(p.children, j, after) !in Ids(p.children[j])
  {
    if j + 1 < |p.children| {
      FirstIdAmongIds(mem, p.children[j + 1], AfterOf(p.children, j + 1, after));
    } else {
      ChildIds(p, j);
    }
  }

  /** A leaf merged into its left neighbour stays the neighbour's persisted sibling, so no tree with that
      merged leaf has an intact persisted chain. */
  lemma {:induction false} MergedLeafBreaksChain(p: Tree, i: nat, q: Tree, c: Tree, after: PageId)
    requires p.Inner? && i + 1 < |p.children| && i < |p.keys| && Linked(false, p, after) && Distinct(p)
               && after !in Ids(p)
    requires forall j | 0 <= j < |p.children| :: p.children[j].Leaf?
    requires q.Inner? && q.children == p.children[..i] + [c] + p.children[i + 2..]
    requires c.Leaf? && c.nextPid == p.children[i].nextPid
    ensures !Linked(false, q, after)
  {
    var r := p.children[i + 1];
    assert Linked(false, p.children[i], AfterOf(p.children, i, after)) && p.children[i].nextPid == r.id;
    assert r.id in Ids(r);
    ChildIds(p, i + 1);
    if i + 2 < |p.children| {
      var s := p.children[i + 2];
      assert s.id in Ids(s) && Ids(r) !! Ids(s);
      assert q.children[i + 1] == s && FirstId(s) == s.id;
    }
    assert q.children[i] == c && AfterOf(q.children, i, after) != r.id;
  }

  lemma {:induction false} LinkedChild(mem: bool, p: Tree, j: nat, c: Tree, after: PageId)
    requires p.Inner? && j < |p.children| && Linked(mem, p, after) && FirstId(c) == FirstId(p.children[j])
    ensures Linked(mem, WithChild(p, j, c), after) <==> Linked(mem, c, AfterOf(p.children, j, after))
  {
    var cs := WithChild(p, j, c).children;
    if Linked(mem, c, AfterOf(p.children, j, after)) {
      WithChildLinked(mem, p, j, c, after);
    } else {
      assert cs[j] == c && AfterOf(cs, j, after) == AfterOf(p.children, j, after);
    }
  }

  /** A removal keeps the persisted chain of sibling ids if and only if it merges no two leaves. */
  lemma {:induction false} ChainSurvives(d: nat, h: nat, t: Tree, k: Key, after: PageId)
    requires d >= 2 && Balanced(d, h, t, RootMin(t)) && Synced(t)
    requires Linked(false, t, after) && Distinct(t) && after !in Ids(t)
    ensures Linked(false, RemoveFrom(d, h, t, k), after) && FirstId(RemoveFrom(d, h, t, k)) == FirstId(t)
            <==> !MergesLeaves(d, h, t, k)
    decreases h
  {
    if t.Inner? {
      RemoveStep(d, h, t, k);
      var r := Prepare(d, t, k);
      var c := r.node.children[r.child];
      if r.action == Collapse && t.children[0].Leaf? {
        CollapseBreaksChain(d, h, t, k, after);
      } else {
        PrepareKeepsLinks(d, false, t, k, after);
        PrepareKeepsIds(d, t, k);
        ChildIds(r.node, r.child);
        AfterChild(false, r.node, r.child, after);
        var next := AfterOf(r.node.children, r.child, after);
        assert Linked(false, c, next);
        ChainSurvives(d, h - 1, c, r.key, next);
        SurvivesBelow(r.node, r.child, RemoveFrom(d, h - 1, c, r.key), after);
      }
    }
  }

  lemma {:induction false} SurvivesBelow(p: Tree, j: nat, c: Tree, after: PageId)
    requires p.Inner? && j < |p.children| && Linked(false, p, after)
    ensures Linked(false, WithChild(p, j, c), after) && FirstId(WithChild(p, j, c)) == FirstId(p)
            <==> Linked(false, c, AfterOf(p.children, j, after)) && FirstId(c) == FirstId(p.children[j])
  {
    var cs, cs' := p.children, WithChild(p, j, c).children;
    assert cs'[j] == c && AfterOf(cs', j, after) == AfterOf(cs, j, after);
    if FirstId(c) == FirstId(cs[j]) {
      LinkedChild(false, p, j, c, after);
    } else if j > 0 && Linked(false, WithChild(p, j, c), after) {
      assert cs'[j - 1] == cs[j - 1] && AfterOf(cs', j - 1, after) == FirstId(c)
          && AfterOf(cs, j - 1, after) == FirstId(cs[j]);
      OneNext(cs[j - 1], FirstId(c), FirstId(cs[j]));
    }
  }

  /** A chain has one end. */
  lemma {:induction false} OneNext(t: Tree, a: PageId, b: PageId)
    requires Linked(false, t, a) && Linked(false, t, b)
    ensures a == b
    decreases t
  {
    if t.Inner? {
      var n := |t.children| - 1;
      OneNext(t.children[n], AfterOf(t.children, n, a), AfterOf(t.children, n, b));
    }
  }

  lemma {:induction false} CollapseBreaksChain(d: nat, h: nat, t: Tree, k: Key, after: PageId)
    requires d >= 2 && Balanced(d, h, t, RootMin(t)) && Synced(t) && t.Inner? && Siblings(d, t)
    requires Linked(false, t, after) && Distinct(t) && after !in Ids(t)
    requires Prepare(d, t, k).action == Collapse && t.children[0].Leaf?
    ensures !Linked(false, RemoveFrom(d, h, t, k), after)
  {
    hide Prepare, Linked, Distinct, Synced, Siblings, Balanced;
    RemoveStep(d, h, t, k);
    CollapseJoins(d, h, t, k);
    var r := Prepare(d, t, k);
    var i := r.child;
    var c := RemoveFrom(d, h - 1, r.node.children[i], r.key);
    assert r.node.children[i := c] == t.children[..i] + [c] + t.children[i + 2..];
    MergedLeafBreaksChain(t, i, WithChild(r.node, i, c), c, after);
  }

  lemma {:induction false} CollapseJoins(d: nat, h: nat, t: Tree, k: Key)
    requires d >= 2 && Balanced(d, h, t, RootMin(t)) && Synced(t) && t.Inner? && Siblings(d, t)
    requires Prepare(d, t, k).action == Collapse && t.children[0].Leaf?
    ensures var r := Prepare(d, t, k);
            && r.child + 1 < |t.children| && r.child < |t.keys|
            && t.children[r.child].Leaf? && t.children[r.child + 1].Leaf?
            && var j := Join(t.children[r.child], t.keys[r.child], t.children[r.child + 1]);
            && r.node == WithJoined(t, r.child, j) && r.node.children[r.child] == j && j.Leaf?
  {
  }
}
