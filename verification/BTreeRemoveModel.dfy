/** Removal from a B+ tree: borrowing from a sibling, merging two siblings, and the descent. */
module BTreeRemoveModel {
  import opened BTreeModel

  // ---------------------------------------------------------------- two neighbours and their separator

  /** The last entry or child of `l` moves to the front of `r`. */
  ghost function ShiftRight(l: Tree, sep: Key, r: Tree): Halves
    requires l.Leaf? <==> r.Leaf?
    requires if l.Leaf? then l.entries != [] else l.keys != [] && l.children != []
  {
    if l.Leaf? then
      var n := |l.entries| - 1;
      var e := l.entries[n];
      Halves(l.(entries := l.entries[..n], keys := KeysOf(l.entries[..n])), e.key,
             r.(entries := [e] + r.entries, keys := KeysOf([e] + r.entries)))
    else
      var n, m := |l.keys| - 1, |l.children| - 1;
      Halves(l.(keys := l.keys[..n], children := l.children[..m]), l.keys[n],
             r.(keys := [sep] + r.keys, children := [l.children[m]] + r.children))
  }

  /** The first entry or child of `r` moves to the end of `l`. */
  ghost function ShiftLeft(l: Tree, sep: Key, r: Tree): Halves
    requires l.Leaf? <==> r.Leaf?
    requires if r.Leaf? then |r.entries| >= 2 else r.keys != [] && r.children != []
  {
    if l.Leaf? then
      var e := r.entries[0];
      Halves(l.(entries := l.entries + [e], keys := KeysOf(l.entries + [e])), r.entries[1].key,
             r.(entries := r.entries[1..], keys := KeysOf(r.entries[1..])))
    else
      Halves(l.(keys := l.keys + [sep], children := l.children + [r.children[0]]), r.keys[0],
             r.(keys := r.keys[1..], children := r.children[1..]))
  }

  /** Two neighbours as one node on the left one's page.  Of two leaves, only the in-memory pointer
      is redirected; the persisted sibling id stays. */
  ghost function Join(l: Tree, sep: Key, r: Tree): Tree
    requires l.Leaf? <==> r.Leaf?
  {
    if l.Leaf? then
      l.(entries := l.entries + r.entries, keys := KeysOf(l.entries + r.entries), next := r.next)
    else
      l.(keys := l.keys + [sep] + r.keys, children := l.children + r.children)
  }

  /** The parent after the i-th and the next child, and the separator between them, are replaced. */
  ghost function WithPair(p: Tree, i: nat, h: Halves): Tree
    requires p.Inner? && i + 1 < |p.children| && i < |p.keys|
  {
    p.(keys := p.keys[i := h.sep], children := p.children[i := h.left][i + 1 := h.right])
  }

  /** The parent after the i-th and the next child are replaced by one. */
  ghost function WithJoined(p: Tree, i: nat, c: Tree): Tree
    requires p.Inner? && i + 1 < |p.children| && i < |p.keys|
  {
    p.(keys := p.keys[..i] + p.keys[i + 1..], children := p.children[..i] + [c] + p.children[i + 2..])
  }

  ghost function WithSeparator(p: Tree, i: nat, k: Key): Tree
    requires p.Inner? && i < |p.keys|
  {
    Inner(p.id, p.keys[i := k], p.children)
  }

  // ---------------------------------------------------------------- the descent

  ghost predicate Branch(p: Tree) {
    p.Inner? && |p.children| == |p.keys| + 1 && |p.keys| > 0
  }

  /** What balance and synchronised caches give the code that handles the children of `p`:
      all children are of one kind, and their cached sizes are within the bounds. */
  ghost predicate Siblings(d: nat, p: Tree) {
    && Branch(p)
    && (forall i, j | 0 <= i < |p.children| && 0 <= j < |p.children| :: p.children[i].Leaf? == p.children[j].Leaf?)
    && forall i | 0 <= i < |p.children| :: Sized(d, p.children[i])
  }

  ghost predicate Sized(d: nat, c: Tree) {
    && d - 1 <= |c.keys| <= 2 * d - 1
    && (if c.Leaf? then |c.entries| == |c.keys| else |c.children| == |c.keys| + 1)
  }

  lemma {:induction false} BalancedSiblings(d: nat, h: nat, t: Tree)
    requires d >= 2 && t.Inner? && Balanced(d, h, t, 1) && Synced(t)
    ensures Siblings(d, t)
  {
    forall i | 0 <= i < |t.children|
      ensures Sized(d, t.children[i]) && (t.children[i].Leaf? <==> h == 1)
    {
      assert Balanced(d, h - 1, t.children[i], d - 1) && Synced(t.children[i]);
    }
  }

  ghost function BorrowFromPrev(d: nat, p: Tree, i: nat): Tree
    requires d >= 2 && Siblings(d, p) && 0 < i < |p.children| && |p.children[i - 1].keys| >= d
  {
    assert Sized(d, p.children[i - 1]);
    WithPair(p, i - 1, ShiftRight(p.children[i - 1], p.keys[i - 1], p.children[i]))
  }

  ghost function BorrowFromNext(d: nat, p: Tree, i: nat): Tree
    requires d >= 2 && Siblings(d, p) && i + 1 < |p.children| && |p.children[i + 1].keys| >= d
  {
    assert Sized(d, p.children[i + 1]);
    WithPair(p, i, ShiftLeft(p.children[i], p.keys[i], p.children[i + 1]))
  }

  ghost function Merge(d: nat, p: Tree, i: nat): Tree
    requires Siblings(d, p) && i + 1 < |p.children|
  {
    WithJoined(p, i, Join(p.children[i], p.keys[i], p.children[i + 1]))
  }

  /** The key at the right end of the rightmost leaf's cache. */
  ghost function LastKey(t: Tree): Key
    decreases t
  {
    match t
    case Leaf(_, _, ks, _, _) => if ks == [] then 0 else ks[|ks| - 1]
    case Inner(_, _, cs) => if cs == [] then 0 else LastKey(cs[|cs| - 1])
  }

  /** The key at the left end of the leftmost leaf's cache. */
  ghost function FirstKey(t: Tree): Key
    decreases t
  {
    match t
    case Leaf(_, _, ks, _, _) => if ks == [] then 0 else ks[0]
    case Inner(_, _, cs) => if cs == [] then 0 else FirstKey(cs[0])
  }

  /** What a removal does at an inner node before it descends. */
  datatype Action = Swap | Replace | Collapse | Borrow | Keep

  /** A node ready to be descended into, the child to take and the key to remove there. */
  datatype Turn = Turn(node: Tree, child: nat, key: Key, action: Action)

  /** The key equals the separator at `i`: replaced by its predecessor or successor, or merged away. */
  ghost function AtSeparator(d: nat, t: Tree, i: nat, k: Key): (r: Turn)
    requires d >= 2 && Siblings(d, t) && i < |t.keys|
    ensures r.node.Inner? && r.child < |r.node.children|
  {
    if |t.children[i].keys| >= d then
      var pred := LastKey(t.children[i]);
      Turn(WithSeparator(t, i, pred), i, pred, Swap)
    else if |t.children[i + 1].keys| >= d then
      var succ := FirstKey(t.children[i + 1]);
      Turn(WithSeparator(t, i, succ), i + 1, succ, Replace)
    else
      Turn(Merge(d, t, i), i, k, Collapse)
  }

  /** The key lies strictly between separators: the child to descend to is brought above the minimum. */
  ghost function BesideSeparators(d: nat, t: Tree, i: nat, k: Key): (r: Turn)
    requires d >= 2 && Siblings(d, t) && i < |t.children|
    ensures r.node.Inner? && r.child < |r.node.children|
  {
    if |t.children[i].keys| >= d then Turn(t, i, k, Keep)
    else if i > 0 && |t.children[i - 1].keys| >= d then Turn(BorrowFromPrev(d, t, i), i, k, Borrow)
    else if i + 1 < |t.children| && |t.children[i + 1].keys| >= d then Turn(BorrowFromNext(d, t, i), i, k, Borrow)
    else if i + 1 < |t.children| then Turn(Merge(d, t, i), i, k, Collapse)
    else Turn(Merge(d, t, i - 1), i - 1, k, Collapse)
  }

  ghost function Prepare(d: nat, t: Tree, k: Key): (r: Turn)
    requires d >= 2 && Siblings(d, t)
    ensures r.node.Inner? && r.child < |r.node.children|
  {
    var i := LowerBound(t.keys, k);
    if i < |t.keys| && t.keys[i] == k then AtSeparator(d, t, i, k) else BesideSeparators(d, t, i, k)
  }

  /** The position of the first entry with the key, or -1. */
  function FindEntry(es: seq<Entry>, k: Key): (p: int)
    ensures -1 <= p < |es|
    ensures p >= 0 ==> es[p].key == k
    ensures forall j | 0 <= j < (if p < 0 then |es| else p) :: es[j].key != k
  {
    if es == [] then -1
    else if es[0].key == k then 0
    else var p := FindEntry(es[1..], k); if p < 0 then -1 else p + 1
  }

  ghost function DropAt(es: seq<Entry>, p: int): seq<Entry> {
    if 0 <= p < |es| then es[..p] + es[p + 1..] else es
  }

  /** The leaf without the first entry with the key. */
  ghost function RemoveFromLeaf(t: Tree, k: Key): Tree
    requires t.Leaf?
  {
    var p := FindEntry(t.entries, k);
    if p < 0 then t else t.(entries := DropAt(t.entries, p), keys := KeysOf(DropAt(t.entries, p)))
  }
}
