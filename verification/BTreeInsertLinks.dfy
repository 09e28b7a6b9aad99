/**
 What an insertion keeps besides balance and order: the leaf chain, the key caches,
 the uniqueness of page ids, and that separators are stored keys.
 */
module BTreeInsertLinks {
  import opened BTreeModel
  import opened BTreeInsert

  // ---------------------------------------------------------------- the leaf chain

  lemma {:induction false} HalvesLinked(d: nat, mem: bool, c: Tree, newId: PageId, after: PageId)
    requires d >= 2 && Full(d, c) && Linked(mem, c, after)
    ensures var h := Split(d, c, newId);
            && Linked(mem, h.left, FirstId(h.right)) && Linked(mem, h.right, after)
            && FirstId(h.left) == FirstId(c)
  {
    if c.Inner? {
      var h := Split(d, c, newId);
      assert FirstId(h.right) == FirstId(c.children[d]);
      forall j | 0 <= j < d
        ensures Linked(mem, h.left.children[j], AfterOf(h.left.children, j, FirstId(h.right)))
      {
        assert AfterOf(h.left.children, j, FirstId(h.right)) == AfterOf(c.children, j, after);
      }
      forall j | 0 <= j < d
        ensures Linked(mem, h.right.children[j], AfterOf(h.right.children, j, after))
      {
        assert h.right.children[j] == c.children[j + d];
        assert AfterOf(h.right.children, j, after) == AfterOf(c.children, j + d, after);
      }
    }
  }

  lemma {:induction false} SplitKeepsLinks(d: nat, mem: bool, p: Tree, i: nat, newId: PageId, after: PageId)
    requires d >= 2 && p.Inner? && |p.children| == |p.keys| + 1 && i < |p.children|
    requires Full(d, p.children[i]) && Linked(mem, p, after)
    ensures var s := SplitChild(d, p, i, newId); Linked(mem, s, after) && FirstId(s) == FirstId(p)
  {
    var c := p.children[i];
    var h := Split(d, c, newId);
    HalvesLinked(d, mem, c, newId, AfterOf(p.children, i, after));
    var cs := SplitChild(d, p, i, newId).children;
    forall j | 0 <= j < |cs|
      ensures Linked(mem, cs[j], AfterOf(cs, j, after))
    {
      if j < i {
        assert cs[j] == p.children[j] && AfterOf(cs, j, after) == AfterOf(p.children, j, after);
      } else if j > i + 1 {
        assert cs[j] == p.children[j - 1] && AfterOf(cs, j, after) == AfterOf(p.children, j - 1, after);
      }
    }
  }

  lemma {:induction false} WithChildLinked(mem: bool, p: Tree, j: nat, c: Tree, after: PageId)
    requires p.Inner? && j < |p.children| && Linked(mem, p, after)
    requires Linked(mem, c, AfterOf(p.children, j, after)) && FirstId(c) == FirstId(p.children[j])
    ensures Linked(mem, WithChild(p, j, c), after) && FirstId(WithChild(p, j, c)) == FirstId(p)
  {
    var cs := WithChild(p, j, c).children;
    assert forall i | 0 <= i < |cs| :: AfterOf(cs, i, after) == AfterOf(p.children, i, after);
  }

  lemma {:induction false} InsertKeepsLinks(d: nat, h: nat, mem: bool, t: Tree, e: Entry, last: nat, after: PageId)
    requires d >= 2 && Balanced(d, h, t, 0) && Size(t) < 2 * d - 1 && Linked(mem, t, after)
    ensures var t' := InsertNonFull(d, h, t, e, last).tree; Linked(mem, t', after) && FirstId(t') == FirstId(t)
    decreases h
  {
    if t.Inner? {
      var s := Descend(d, h, t, e.key, last);
      var i := RouteInsert(t.keys, e.key);
      assert Balanced(d, h - 1, t.children[i], d - 1);
      if Size(t.children[i]) == 2 * d - 1 {
        SplitKeepsLinks(d, mem, t, i, last + 1, after);
      }
      var c := s.node.children[s.child];
      InsertKeepsLinks(d, h - 1, mem, c, e, s.last, AfterOf(s.node.children, s.child, after));
      WithChildLinked(mem, s.node, s.child, InsertNonFull(d, h - 1, c, e, s.last).tree, after);
    }
  }

  // ---------------------------------------------------------------- key caches

  lemma {:induction false} SplitKeepsSync(d: nat, p: Tree, i: nat, newId: PageId)
    requires d >= 2 && p.Inner? && |p.children| == |p.keys| + 1 && i < |p.children|
    requires Full(d, p.children[i]) && Synced(p)
    ensures Synced(SplitChild(d, p, i, newId))
  {
    var c := p.children[i];
    var h := Split(d, c, newId);
    assert Synced(c);
    assert Synced(h.left) && Synced(h.right);
  }

  lemma {:induction false} InsertKeepsSync(d: nat, h: nat, t: Tree, e: Entry, last: nat)
    requires d >= 2 && Balanced(d, h, t, 0) && Size(t) < 2 * d - 1 && Synced(t)
    ensures Synced(InsertNonFull(d, h, t, e, last).tree)
    decreases h
  {
    if t.Inner? {
      var s := Descend(d, h, t, e.key, last);
      var i := RouteInsert(t.keys, e.key);
      assert Balanced(d, h - 1, t.children[i], d - 1);
      if Size(t.children[i]) == 2 * d - 1 {
        SplitKeepsSync(d, t, i, last + 1);
      }
      InsertKeepsSync(d, h - 1, s.node.children[s.child], e, s.last);
    }
  }

  // ---------------------------------------------------------------- page ids

  lemma {:induction false} HalvesIds(d: nat, c: Tree, newId: PageId)
    requires d >= 2 && Full(d, c) && Distinct(c) && newId !in Ids(c)
    ensures var h := Split(d, c, newId);
            && Ids(h.left) + Ids(h.right) == Ids(c) + {newId} && Ids(h.left) !! Ids(h.right)
            && c.id in Ids(h.left) && newId in Ids(h.right)
            && Distinct(h.left) && Distinct(h.right)
  {
    if c.Inner? {
      var h := Split(d, c, newId);
      var l, r := h.left.children, h.right.children;
      assert forall j | 0 <= j < |r| :: r[j] == c.children[j + d];
      forall x | x in Ids(c)
        ensures x in Ids(h.left) + Ids(h.right)
      {
        if x != c.id {
          var j :| 0 <= j < |c.children| && x in Ids(c.children[j]);
          if j >= d { assert x in Ids(r[j - d]); } else { assert x in Ids(l[j]); }
        }
      }
    }
  }

  lemma {:induction false} SplitKeepsIds(d: nat, p: Tree, i: nat, newId: PageId)
    requires d >= 2 && p.Inner? && |p.children| == |p.keys| + 1 && i < |p.children|
    requires Full(d, p.children[i]) && Distinct(p) && newId !in Ids(p)
    ensures var s := SplitChild(d, p, i, newId); Distinct(s) && Ids(s) == Ids(p) + {newId}
  {
    var c := p.children[i];
    var h := Split(d, c, newId);
    assert forall x | x in Ids(c) :: x in Ids(p);
    HalvesIds(d, c, newId);
    var s := SplitChild(d, p, i, newId);
    SpliceIds(p, i, h.left, h.right, newId, s);
  }

  lemma {:induction false} SpliceIds(p: Tree, i: nat, l: Tree, r: Tree, newId: PageId, s: Tree)
    requires p.Inner? && i < |p.children| && Distinct(p) && newId !in Ids(p)
    requires Ids(l) + Ids(r) == Ids(p.children[i]) + {newId} && Ids(l) !! Ids(r)
    requires Distinct(l) && Distinct(r)
    requires s.Inner? && s.id == p.id && s.children == p.children[..i] + [l, r] + p.children[i + 1..]
    ensures Distinct(s) && Ids(s) == Ids(p) + {newId}
  {
    SpliceSameIds(p, i, l, r, newId, s);
    var cs := s.children;
    forall j | 0 <= j < |cs|
      ensures p.id !in Ids(cs[j]) && Distinct(cs[j])
    {
      assert cs[j] == if j < i then p.children[j] else if j == i then l else if j == i + 1 then r
          else p.children[j - 1];
      assert j < i ==> Distinct(p.children[j]);
    }
    forall a, b | 0 <= a < b < |cs|
      ensures Ids(cs[a]) !! Ids(cs[b])
    {
      SpliceDisjoint(p, i, l, r, newId, cs, a, b);
    }
  }

  lemma {:induction false} SpliceSameIds(p: Tree, i: nat, l: Tree, r: Tree, newId: PageId, s: Tree)
    requires p.Inner? && i < |p.children| && Ids(l) + Ids(r) == Ids(p.children[i]) + {newId}
    requires s.Inner? && s.id == p.id && s.children == p.children[..i] + [l, r] + p.children[i + 1..]
    ensures Ids(s) == Ids(p) + {newId}
  {
    var cs := s.children;
    assert cs[i] == l && cs[i + 1] == r;
    forall x | x in Ids(p)
      ensures x in Ids(s)
    {
      if x != p.id {
        var j :| 0 <= j < |p.children| && x in Ids(p.children[j]);
        if j < i { assert x in Ids(cs[j]); } else if j > i { assert x in Ids(cs[j + 1]); }
        else { assert x in Ids(cs[i]) || x in Ids(cs[i + 1]); }
      }
    }
    assert newId in Ids(cs[i]) || newId in Ids(cs[i + 1]);
    forall x | x in Ids(s)
      ensures x in Ids(p) + {newId}
    {
      if x != p.id {
        var j :| 0 <= j < |cs| && x in Ids(cs[j]);
        if j < i { assert x in Ids(p.children[j]); } else if j > i + 1 { assert x in Ids(p.children[j - 1]); }
        else { assert x in Ids(l) + Ids(r); }
      }
    }
  }

  lemma {:induction false} SpliceDisjoint(p: Tree, i: nat, l: Tree, r: Tree, newId: PageId, cs: seq<Tree>, a: nat,
      b: nat)
    requires p.Inner? && i < |p.children| && Distinct(p) && newId !in Ids(p)
    requires Ids(l) + Ids(r) == Ids(p.children[i]) + {newId} && Ids(l) !! Ids(r)
    requires cs == p.children[..i] + [l, r] + p.children[i + 1..] && a < b < |cs|
    ensures Ids(cs[a]) !! Ids(cs[b])
  {
    var a' := if a <= i then a else a - 1;
    var b' := if b <= i then b else b - 1;
    var ca, cb := p.children[a'], p.children[b'];
    assert Ids(cs[a]) <= Ids(ca) + {newId} && (a == i || a == i + 1 || Ids(cs[a]) == Ids(ca)) by {
      if a == i || a == i + 1 { assert Ids(cs[a]) <= Ids(l) + Ids(r); }
    }
    assert Ids(cs[b]) <= Ids(cb) + {newId} && (b == i || b == i + 1 || Ids(cs[b]) == Ids(cb)) by {
      if b == i || b == i + 1 { assert Ids(cs[b]) <= Ids(l) + Ids(r); }
    }
    assert newId !in Ids(ca) && newId !in Ids(cb);
    if a' < b' {
      assert Ids(ca) !! Ids(cb);
    }
  }

  /** The ids an insertion adds are exactly the pages it allocates. */
  ghost function NewPages(last: nat, last': nat): (ps: set<PageId>)
    ensures forall x :: x in ps <==> last < x <= last'
  {
    if last' <= last then {} else NewPages(last, last' - 1) + {last'}
  }

  lemma {:induction false} WithChildIds(p: Tree, j: nat, c: Tree, more: set<PageId>)
    requires p.Inner? && j < |p.children| && Distinct(p) && Distinct(c)
    requires Ids(c) == Ids(p.children[j]) + more && more !! Ids(p)
    ensures Distinct(WithChild(p, j, c)) && Ids(WithChild(p, j, c)) == Ids(p) + more
  {
    var q := WithChild(p, j, c);
    assert forall i | 0 <= i < |p.children| :: Ids(p.children[i]) <= Ids(p);
    forall a, b | 0 <= a < b < |q.children|
      ensures Ids(q.children[a]) !! Ids(q.children[b])
    {
      assert Ids(p.children[a]) !! Ids(p.children[b]);
    }
    forall x | x in Ids(p) + more
      ensures x in Ids(q)
    {
      if x in more {
        assert x in Ids(q.children[j]);
      } else if x != p.id {
        var i :| 0 <= i < |p.children| && x in Ids(p.children[i]);
        assert x in Ids(q.children[i]);
      }
    }
    forall x | x in Ids(q)
      ensures x in Ids(p) + more
    {
      if x != p.id {
        var i :| 0 <= i < |q.children| && x in Ids(q.children[i]);
        assert x in Ids(p.children[i]) + more;
      }
    }
  }

  lemma {:induction false} DescendKeepsIds(d: nat, h: nat, t: Tree, k: Key, last: nat)
    requires d >= 2 && Balanced(d, h, t, 0) && Size(t) < 2 * d - 1 && t.Inner?
    requires Distinct(t) && IdsWithin(t, last)
    ensures var s := Descend(d, h, t, k, last);
            && s.last >= last && Distinct(s.node) && Ids(s.node) == Ids(t) + NewPages(last, s.last)
            && Ids(s.node.children[s.child]) <= Ids(s.node) && Distinct(s.node.children[s.child])
  {
    var s := Descend(d, h, t, k, last);
    var i := RouteInsert(t.keys, k);
    assert Balanced(d, h - 1, t.children[i], d - 1);
    if Size(t.children[i]) == 2 * d - 1 {
      assert last + 1 !in Ids(t);
      SplitKeepsIds(d, t, i, last + 1);
      assert s.node == SplitChild(d, t, i, last + 1);
      assert NewPages(last, last + 1) == {last + 1};
    } else {
      assert s.node == t;
    }
    ChildIds(s.node, s.child);
  }

  lemma {:induction false} ChildIds(p: Tree, j: nat)
    requires p.Inner? && j < |p.children| && Distinct(p)
    ensures Ids(p.children[j]) <= Ids(p) && Distinct(p.children[j]) && p.id !in Ids(p.children[j])
  {
  }

  lemma {:induction false} InsertKeepsIds(d: nat, h: nat, t: Tree, e: Entry, last: nat)
    requires d >= 2 && Balanced(d, h, t, 0) && Size(t) < 2 * d - 1
    requires Distinct(t) && IdsWithin(t, last)
    ensures var g := InsertNonFull(d, h, t, e, last);
            && g.last >= last && Distinct(g.tree) && Ids(g.tree) == Ids(t) + NewPages(last, g.last)
            && IdsWithin(g.tree, g.last)
    decreases h
  {
    if t.Inner? {
      DescendKeepsIds(d, h, t, e.key, last);
      hide Descend, Distinct, Ids, IdsWithin;
      var s := Descend(d, h, t, e.key, last);
      var c := s.node.children[s.child];
      PagesWithin(t, last, s.node, s.last);
      PartWithin(s.node, c, s.last);
      InsertKeepsIds(d, h - 1, c, e, s.last);
      var g := InsertNonFull(d, h - 1, c, e, s.last);
      NewPagesApart(s.node, s.last, g.last);
      WithChildIds(s.node, s.child, g.tree, NewPages(s.last, g.last));
      PagesWithin(s.node, s.last, WithChild(s.node, s.child, g.tree), g.last);
      NewPagesJoin(last, s.last, g.last);
    }
  }

  lemma {:induction false} PagesWithin(t: Tree, last: nat, t': Tree, last': nat)
    requires IdsWithin(t, last) && last <= last' && Ids(t') == Ids(t) + NewPages(last, last')
    ensures IdsWithin(t', last')
  {
  }

  lemma {:induction false} PartWithin(t: Tree, c: Tree, last: nat)
    requires IdsWithin(t, last) && Ids(c) <= Ids(t)
    ensures IdsWithin(c, last)
  {
  }

  lemma {:induction false} NewPagesApart(t: Tree, last: nat, last': nat)
    requires IdsWithin(t, last)
    ensures NewPages(last, last') !! Ids(t)
  {
  }

  lemma {:induction false} NewPagesJoin(a: nat, b: nat, c: nat)
    requires a <= b <= c
    ensures NewPages(a, b) + NewPages(b, c) == NewPages(a, c)
  {
  }
}
