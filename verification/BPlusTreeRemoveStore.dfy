/** The node store and the page images across borrowing, merging and removal. */
module BPlusTreeRemoveStore {
  import opened BTreeModel
  import opened BTreeInsert
  import opened BTreeInsertLinks
  import opened BTreeRemoveModel
  import opened BTreeRemove
  import opened BTreeRemoveLinks
  import opened BPlusTreeStore

  /** What the two stores must hold for node `c` of a recut pair: its own record and image, and as
      children only former children of the pair. */
  ghost predicate Recut(c: Tree, l: Tree, r: Tree, m': map<PageId, Node>, g': map<PageId, Image>) {
    && c.id in m' && m'[c.id] == NodeOf(c) && c.id in g' && g'[c.id] == Serialize(NodeOf(c))
    && (c.Inner? ==> l.Inner? && r.Inner? && forall x | x in c.children :: x in l.children || x in r.children)
  }

  lemma {:induction false} RecutHeld(c: Tree, l: Tree, r: Tree, id: PageId,
      m: map<PageId, Node>, m': map<PageId, Node>, g: map<PageId, Image>, g': map<PageId, Image>)
    requires Recut(c, l, r, m', g')
    requires Distinct(l) && Distinct(r) && Ids(l) !! Ids(r) && id !in Ids(l) + Ids(r)
    requires InMemory(m, l) && InMemory(m, r) && OnDisk(g, l) && OnDisk(g, r)
    requires SameOutside(m, m', {id, l.id, r.id}) && SameOutside(g, g', {id, l.id, r.id})
    ensures InMemory(m', c) && OnDisk(g', c)
  {
    if c.Inner? {
      forall j | 0 <= j < |c.children|
        ensures InMemory(m', c.children[j]) && OnDisk(g', c.children[j])
      {
        var x := c.children[j];
        if x in l.children {
          ChildHeld(l, r.id, id, x, m, m', g, g');
        } else {
          ChildHeld(r, l.id, id, x, m, m', g, g');
        }
      }
    }
  }

  lemma {:induction false} ChildHeld(p: Tree, other: PageId, id: PageId, x: Tree,
      m: map<PageId, Node>, m': map<PageId, Node>, g: map<PageId, Image>, g': map<PageId, Image>)
    requires p.Inner? && x in p.children && Distinct(p) && other !in Ids(p) && id !in Ids(p)
    requires InMemory(m, p) && OnDisk(g, p)
    requires SameOutside(m, m', {id, p.id, other}) && SameOutside(g, g', {id, p.id, other})
    ensures InMemory(m', x) && OnDisk(g', x)
  {
    var i :| 0 <= i < |p.children| && p.children[i] == x;
    ChildIds(p, i);
    InMemoryFrame(m, m', x, {id, p.id, other});
    OnDiskFrame(g, g', x, {id, p.id, other});
  }

  /** The stores after two neighbours are replaced by a recut pair or by one joined node. */
  lemma {:induction false} PairHeld(p: Tree, i: nat, mid: seq<Tree>, q: Tree,
      m: map<PageId, Node>, m': map<PageId, Node>, g: map<PageId, Image>, g': map<PageId, Image>)
    requires p.Inner? && i + 1 < |p.children| && Distinct(p)
    requires q.Inner? && q.id == p.id && q.children == p.children[..i] + mid + p.children[i + 2..]
    requires InMemory(m, p) && ChildrenOnDisk(g, p)
    requires var xs := {p.id, p.children[i].id, p.children[i + 1].id}; SameOutside(m, m', xs) && SameOutside(g, g', xs)
    requires p.id in m' && m'[p.id] == NodeOf(q)
    requires forall c | c in mid :: Recut(c, p.children[i], p.children[i + 1], m', g')
    ensures InMemory(m', q) && ChildrenOnDisk(g', q)
  {
    var l, r := p.children[i], p.children[i + 1];
    var xs := {p.id, l.id, r.id};
    PairOfDistinct(p, i);
    ChildIds(p, i);
    ChildIds(p, i + 1);
    assert l.id in Ids(l) && r.id in Ids(r);
    forall j | 0 <= j < |q.children|
      ensures InMemory(m', q.children[j]) && OnDisk(g', q.children[j])
    {
      if j < i || j >= i + |mid| {
        var o := if j < i then j else j - |mid| + 2;
        assert q.children[j] == p.children[o];
        OtherChild(p, i, o);
        InMemoryFrame(m, m', p.children[o], xs);
        OnDiskFrame(g, g', p.children[o], xs);
      } else {
        assert q.children[j] == mid[j - i] && mid[j - i] in mid;
        RecutHeld(mid[j - i], l, r, p.id, m, m', g, g');
      }
    }
  }

  lemma {:induction false} OtherChild(p: Tree, i: nat, o: nat)
    requires p.Inner? && Distinct(p) && i + 1 < |p.children| && o < |p.children| && o != i && o != i + 1
    ensures Ids(p.children[o]) !! {p.id, p.children[i].id, p.children[i + 1].id}
  {
    assert p.children[i].id in Ids(p.children[i]) && p.children[i + 1].id in Ids(p.children[i + 1]);
    ChildIds(p, o);
    assert Ids(p.children[o]) !! Ids(p.children[i]);
    assert Ids(p.children[o]) !! Ids(p.children[i + 1]);
  }

  // ---------------------------------------------------------------- records

  lemma {:induction false} RootIdsPair(cs: seq<Tree>, i: nat, l: Tree, r: Tree)
    requires i + 1 < |cs| && l.id == cs[i].id && r.id == cs[i + 1].id
    ensures RootIds(cs[i := l][i + 1 := r]) == RootIds(cs)
    ensures cs[i := l][i + 1 := r] == cs[..i] + [l, r] + cs[i + 2..]
  {
  }

  lemma {:induction false} RootIdsJoined(cs: seq<Tree>, i: nat, c: Tree)
    requires i + 1 < |cs| && c.id == cs[i].id
    ensures RootIds(cs[..i] + [c] + cs[i + 2..]) == RootIds(cs)[..i + 1] + RootIds(cs)[i + 2..]
  {
  }

  /** The records of a pair after a shift to the right. */
  lemma {:induction false} ShiftRightRecords(l: Tree, sep: Key, r: Tree)
    requires l.Leaf? <==> r.Leaf?
    requires if l.Leaf? then l.entries != [] else l.keys != [] && l.children != []
    ensures var s := ShiftRight(l, sep, r);
            var ln, rn := NodeOf(l), NodeOf(r);
            if l.Leaf? then
              var n := |ln.entries| - 1;
              && NodeOf(s.left) == ln.(entries := ln.entries[..n], keys := KeysOf(ln.entries[..n]))
              && NodeOf(s.right) == rn.(entries := [ln.entries[n]] + rn.entries,
                 keys := KeysOf([ln.entries[n]] + rn.entries))
              && s.sep == ln.entries[n].key
            else
              var n, m := |ln.keys| - 1, |ln.children| - 1;
              && NodeOf(s.left) == ln.(keys := ln.keys[..n], children := ln.children[..m], childIds := ln.childIds[..m])
              && NodeOf(s.right) == rn.(keys := [sep] + rn.keys, children := [ln.children[m]] + rn.children,
                                        childIds := [ln.childIds[m]] + rn.childIds)
              && s.sep == ln.keys[n]
  {
    if l.Inner? {
      var m := |l.children| - 1;
      assert RootIds(l.children[..m]) == RootIds(l.children)[..m];
      assert RootIds([l.children[m]] + r.children) == [l.children[m].id] + RootIds(r.children);
    }
  }

  /** The records of a pair after a shift to the left. */
  lemma {:induction false} ShiftLeftRecords(l: Tree, sep: Key, r: Tree)
    requires l.Leaf? <==> r.Leaf?
    requires if r.Leaf? then |r.entries| >= 2 else r.keys != [] && r.children != []
    ensures var s := ShiftLeft(l, sep, r);
            var ln, rn := NodeOf(l), NodeOf(r);
            if l.Leaf? then
              && NodeOf(s.left) == ln.(entries := ln.entries + [rn.entries[0]],
                 keys := KeysOf(ln.entries + [rn.entries[0]]))
              && NodeOf(s.right) == rn.(entries := rn.entries[1..], keys := KeysOf(rn.entries[1..]))
              && s.sep == rn.entries[1].key
            else
              && NodeOf(s.left) == ln.(keys := ln.keys + [sep], children := ln.children + [rn.children[0]],
                                       childIds := ln.childIds + [rn.childIds[0]])
              && NodeOf(s.right) == rn.(keys := rn.keys[1..], children := rn.children[1..],
                 childIds := rn.childIds[1..])
              && s.sep == rn.keys[0]
  {
    if l.Inner? {
      assert RootIds(r.children[1..]) == RootIds(r.children)[1..];
      assert RootIds(l.children + [r.children[0]]) == RootIds(l.children) + [r.children[0].id];
    }
  }

  lemma {:induction false} JoinRecord(l: Tree, sep: Key, r: Tree)
    requires l.Leaf? <==> r.Leaf?
    ensures var ln, rn := NodeOf(l), NodeOf(r);
            NodeOf(Join(l, sep, r)) ==
              if l.Leaf? then ln.(entries := ln.entries + rn.entries, keys := KeysOf(ln.entries + rn.entries),
                  next := rn.next)
              else ln.(keys := ln.keys + [sep] + rn.keys, children := ln.children + rn.children,
                       childIds := ln.childIds + rn.childIds)
  {
    if l.Inner? {
      assert RootIds(l.children + r.children) == RootIds(l.children) + RootIds(r.children);
    }
  }

  // ---------------------------------------------------------------- the three repairs

  /** The stores after a pair of neighbours changed as one shift says. */
  lemma {:induction false} ShiftHeld(d: nat, p: Tree, i: nat, s: Halves,
      m: map<PageId, Node>, m': map<PageId, Node>, g: map<PageId, Image>, g': map<PageId, Image>)
    requires d >= 2 && Siblings(d, p) && i + 1 < |p.children| && Distinct(p)
    requires InMemory(m, p) && ChildrenOnDisk(g, p)
    requires var l, r, sep := p.children[i], p.children[i + 1], p.keys[i];
             || (|l.keys| >= d && Sized(d, l) && s == ShiftRight(l, sep, r))
             || (|r.keys| >= d && Sized(d, r) && s == ShiftLeft(l, sep, r))
    requires var l, r, pn := p.children[i], p.children[i + 1], NodeOf(p);
             && m' == m[l.id := NodeOf(s.left)][r.id := NodeOf(s.right)][p.id := pn.(keys := pn.keys[i := s.sep])]
             && (|| g' == g[l.id := Serialize(NodeOf(s.left))][r.id := Serialize(NodeOf(s.right))]
                 || g' == g[r.id := Serialize(NodeOf(s.right))][l.id := Serialize(NodeOf(s.left))])
    ensures InMemory(m', WithPair(p, i, s)) && ChildrenOnDisk(g', WithPair(p, i, s))
    ensures SameOutside(m, m', Ids(p)) && SameOutside(g, g', Ids(p))
  {
    var l, r := p.children[i], p.children[i + 1];
    PairOfDistinct(p, i);
    ChildIds(p, i);
    ChildIds(p, i + 1);
    assert l.id in Ids(l) && r.id in Ids(r) && p.id in Ids(p);
    RootIdsPair(p.children, i, s.left, s.right);
    assert NodeOf(WithPair(p, i, s)) == NodeOf(p).(keys := p.keys[i := s.sep]);
    RecutShift(l, r, s, p.keys[i], m', g');
    PairHeld(p, i, [s.left, s.right], WithPair(p, i, s), m, m', g, g');
  }

  lemma {:induction false} RecutShift(l: Tree, r: Tree, s: Halves, sep: Key,
      m': map<PageId, Node>, g': map<PageId, Image>)
    requires l.Leaf? <==> r.Leaf?
    requires || ((if l.Leaf? then l.entries != [] else l.keys != [] && l.children != []) && s == ShiftRight(l, sep, r))
             || ((if r.Leaf? then |r.entries| >= 2 else r.keys != [] && r.children != []) && s == ShiftLeft(l, sep, r))
    requires forall c | c == s.left || c == s.right ::
               c.id in m' && m'[c.id] == NodeOf(c) && c.id in g' && g'[c.id] == Serialize(NodeOf(c))
    ensures Recut(s.left, l, r, m', g') && Recut(s.right, l, r, m', g')
  {
  }

  /** The stores after two neighbours were merged. */
  lemma {:induction false} MergeHeld(d: nat, p: Tree, i: nat,
      m: map<PageId, Node>, m': map<PageId, Node>, g: map<PageId, Image>, g': map<PageId, Image>)
    requires d >= 2 && Siblings(d, p) && i + 1 < |p.children| && Distinct(p)
    requires InMemory(m, p) && ChildrenOnDisk(g, p)
    requires var l, r, pn := p.children[i], p.children[i + 1], NodeOf(p);
             var j := Join(l, p.keys[i], r);
             && m' == m[l.id := NodeOf(j)][p.id := pn.(keys := pn.keys[..i] + pn.keys[i + 1..],
                                                       children := pn.children[..i + 1] + pn.children[i + 2..],
                                                       childIds := pn.childIds[..i + 1]
                                                           + pn.childIds[i + 2..])] - {r.id}
             && g' == g[l.id := Serialize(NodeOf(j))]
    ensures InMemory(m', Merge(d, p, i)) && ChildrenOnDisk(g', Merge(d, p, i))
    ensures SameOutside(m, m', Ids(p)) && SameOutside(g, g', Ids(p))
  {
    var l, r := p.children[i], p.children[i + 1];
    var j := Join(l, p.keys[i], r);
    PairOfDistinct(p, i);
    ChildIds(p, i);
    ChildIds(p, i + 1);
    assert l.id in Ids(l) && r.id in Ids(r) && p.id in Ids(p);
    RootIdsJoined(p.children, i, j);
    assert Recut(j, l, r, m', g');
    PairHeld(p, i, [j], Merge(d, p, i), m, m', g, g');
  }
}
