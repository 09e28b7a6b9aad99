/**
 The B+ tree of the index layer as a mathematical value, and what every tree must satisfy.

 A node is identified by its page id.  A leaf carries its entries, the cached copy of their
 keys, the in-memory sibling pointer `next` and the persisted sibling id `nextPid`.
 The null page id is -1.
 */
module BTreeModel {

  type PageId = int
  type Key = int

  const NULL_PAGE: PageId := -1

  datatype Rid = Rid(pageId: PageId, slot: int)

  datatype Entry = Entry(key: Key, rid: Rid)

  datatype Tree =
    | Leaf(id: PageId, entries: seq<Entry>, keys: seq<Key>, next: PageId, nextPid: PageId)
    | Inner(id: PageId, keys: seq<Key>, children: seq<Tree>)

  /** The keys of a list of entries, in order. */
  function KeysOf(es: seq<Entry>): (ks: seq<Key>)
    ensures |ks| == |es|
    ensures forall i | 0 <= i < |es| :: ks[i] == es[i].key
  {
    seq(|es|, i requires 0 <= i < |es| => es[i].key)
  }

  /** The number of entries of a leaf, or of separators of an inner node. */
  ghost function Size(t: Tree): nat {
    if t.Leaf? then |t.entries| else |t.keys|
  }

  // ---------------------------------------------------------------- contents

  /** All entries of a tree, left to right. */
  ghost function Entries(t: Tree): seq<Entry>
    decreases t
  {
    match t
    case Leaf(_, es, _, _, _) => es
    case Inner(_, _, cs) => EntriesOf(cs)
  }

  ghost function EntriesOf(cs: seq<Tree>): seq<Entry>
    decreases cs
  {
    if cs == [] then [] else Entries(cs[0]) + EntriesOf(cs[1..])
  }

  /** All leaves of a tree, left to right. */
  ghost function Leaves(t: Tree): seq<Tree>
    decreases t
  {
    match t
    case Leaf(_, _, _, _, _) => [t]
    case Inner(_, _, cs) => LeavesOf(cs)
  }

  ghost function LeavesOf(cs: seq<Tree>): seq<Tree>
    decreases cs
  {
    if cs == [] then [] else Leaves(cs[0]) + LeavesOf(cs[1..])
  }

  /** The page ids of a tree's nodes. */
  ghost function Ids(t: Tree): set<PageId>
    decreases t
  {
    match t
    case Leaf(id, _, _, _, _) => {id}
    case Inner(id, _, cs) => {id} + set i, x | 0 <= i < |cs| && x in Ids(cs[i]) :: x
  }

  /** `es'` has the entries of `es` and one more `e`. */
  ghost predicate Adds(es: seq<Entry>, e: Entry, es': seq<Entry>) {
    multiset(es') == multiset(es) + multiset{e}
  }

  /** Some entry of the list has this key. */
  ghost predicate HasKey(es: seq<Entry>, k: Key) {
    exists i :: 0 <= i < |es| && es[i].key == k
  }

  /** No two entries have the same key. */
  ghost predicate DistinctKeys(es: seq<Entry>) {
    forall i, j | 0 <= i < j < |es| :: es[i].key != es[j].key
  }

  /** All separators of a tree's inner nodes. */
  ghost function Separators(t: Tree): set<Key>
    decreases t
  {
    match t
    case Leaf(_, _, _, _, _) => {}
    case Inner(_, ks, cs) =>
      (set i | 0 <= i < |ks| :: ks[i]) + (set i, x | 0 <= i < |cs| && x in Separators(cs[i]) :: x)
  }

  // ---------------------------------------------------------------- well-formedness

  /** Every leaf is `h` levels down, and node sizes are within the bounds of minimum degree `d`. */
  ghost predicate Balanced(d: nat, h: nat, t: Tree, min: int)
    decreases t
  {
    && min <= Size(t) <= 2 * d - 1
    && match t
       case Leaf(_, _, _, _, _) => h == 0
       case Inner(_, ks, cs) =>
         && h > 0
         && |cs| == |ks| + 1
         && forall i | 0 <= i < |cs| :: Balanced(d, h - 1, cs[i], d - 1)
  }

  datatype Bound = Unbounded | At(k: Key)

  predicate Above(lo: Bound, k: Key) {
    lo.At? ==> lo.k <= k
  }

  predicate Below(strict: bool, k: Key, hi: Bound) {
    hi.At? ==> if strict then k < hi.k else k <= hi.k
  }

  predicate SortedEntries(strict: bool, es: seq<Entry>) {
    forall i, j | 0 <= i < j < |es| :: if strict then es[i].key < es[j].key else es[i].key <= es[j].key
  }

  predicate SortedKeys(ks: seq<Key>) {
    forall i, j | 0 <= i < j < |ks| :: ks[i] <= ks[j]
  }

  predicate SeparatorsWithin(ks: seq<Key>, lo: Bound, hi: Bound) {
    && SortedKeys(ks)
    && forall i | 0 <= i < |ks| :: Above(lo, ks[i]) && Below(false, ks[i], hi)
  }

  ghost function LoOf(ks: seq<Key>, lo: Bound, i: nat): Bound
    requires i <= |ks|
  {
    if i == 0 then lo else At(ks[i - 1])
  }

  ghost function HiOf(ks: seq<Key>, hi: Bound, i: nat): Bound
    requires i <= |ks|
  {
    if i == |ks| then hi else At(ks[i])
  }

  /** Left subtree <= separator <= right subtree at every inner node.
      With `strict`, entries are distinct and left subtree < separator. */
  ghost predicate Ordered(strict: bool, t: Tree, lo: Bound, hi: Bound)
    decreases t
  {
    match t
    case Leaf(_, es, _, _, _) =>
      && SortedEntries(strict, es)
      && forall i | 0 <= i < |es| :: Above(lo, es[i].key) && Below(strict, es[i].key, hi)
    case Inner(_, ks, cs) =>
      && |cs| == |ks| + 1
      && SeparatorsWithin(ks, lo, hi)
      && forall i | 0 <= i < |cs| :: Ordered(strict, cs[i], LoOf(ks, lo, i), HiOf(ks, hi, i))
  }

  /** The leftmost leaf's page id. */
  ghost function FirstId(t: Tree): PageId
    decreases t
  {
    match t
    case Leaf(id, _, _, _, _) => id
    case Inner(_, _, cs) => if cs == [] then NULL_PAGE else FirstId(cs[0])
  }

  ghost function AfterOf(cs: seq<Tree>, i: nat, after: PageId): PageId
    requires i < |cs|
  {
    if i + 1 < |cs| then FirstId(cs[i + 1]) else after
  }

  /** Each leaf points to the leaf on its right and the last one to `after`:
      by the in-memory pointer if `mem`, by the persisted page id otherwise. */
  ghost predicate Linked(mem: bool, t: Tree, after: PageId)
    decreases t
  {
    match t
    case Leaf(_, _, _, next, nextPid) => (if mem then next else nextPid) == after
    case Inner(_, _, cs) =>
      cs != [] && forall i | 0 <= i < |cs| :: Linked(mem, cs[i], AfterOf(cs, i, after))
  }

  /** Each leaf's cached keys are the keys of its entries. */
  ghost predicate Synced(t: Tree)
    decreases t
  {
    match t
    case Leaf(_, es, ks, _, _) => ks == KeysOf(es)
    case Inner(_, _, cs) => forall i | 0 <= i < |cs| :: Synced(cs[i])
  }

  /** No page id is used twice. */
  ghost predicate Distinct(t: Tree)
    decreases t
  {
    match t
    case Leaf(_, _, _, _, _) => true
    case Inner(id, _, cs) =>
      && (forall i | 0 <= i < |cs| :: id !in Ids(cs[i]) && Distinct(cs[i]))
      && forall i, j | 0 <= i < j < |cs| :: Ids(cs[i]) !! Ids(cs[j])
  }

  lemma BalancedMin(d: nat, h: nat, t: Tree, min: int, min': int)
    requires Balanced(d, h, t, min) && min' <= Size(t)
    ensures Balanced(d, h, t, min')
  {
  }

  // ---------------------------------------------------------------- routing

  /** How many separators are <= k, scanning from the right: the child an insert descends to. */
  function RouteInsert(ks: seq<Key>, k: Key): (i: nat)
    ensures i <= |ks|
    ensures i > 0 ==> ks[i - 1] <= k
    ensures forall j | i <= j < |ks| :: k < ks[j]
  {
    if ks == [] || ks[|ks| - 1] <= k then |ks| else RouteInsert(ks[..|ks| - 1], k)
  }

  /** The first position whose key is not below k. */
  function LowerBound(ks: seq<Key>, k: Key): (i: nat)
    ensures i <= |ks|
    ensures i < |ks| ==> k <= ks[i]
    ensures forall j | 0 <= j < i :: ks[j] < k
  {
    if ks == [] || k <= ks[0] then 0 else 1 + LowerBound(ks[1..], k)
  }

  // ---------------------------------------------------------------- insertion

  /** A node of maximal size. */
  ghost predicate Full(d: nat, c: Tree) {
    Size(c) == 2 * d - 1 && (c.Inner? ==> |c.children| == 2 * d)
  }

  datatype Halves = Halves(left: Tree, sep: Key, right: Tree)

  /** A full node cut in two around its middle; the right half lives on page `newId`. */
  ghost function Split(d: nat, c: Tree, newId: PageId): Halves
    requires d >= 2 && Full(d, c)
  {
    match c
    case Leaf(id, es, _, next, nextPid) =>
      var l, r := es[..d - 1], es[d - 1..];
      Halves(Leaf(id, l, KeysOf(l), newId, newId), r[0].key, Leaf(newId, r, KeysOf(r), next, nextPid))
    case Inner(id, ks, cs) =>
      Halves(Inner(id, ks[..d - 1], cs[..d]), ks[d - 1], Inner(newId, ks[d..], cs[d..]))
  }

  /** The parent after its full i-th child is split. */
  ghost function SplitChild(d: nat, p: Tree, i: nat, newId: PageId): Tree
    requires d >= 2 && p.Inner? && |p.children| == |p.keys| + 1 && i < |p.children|
    requires Full(d, p.children[i])
  {
    var h := Split(d, p.children[i], newId);
    Inner(p.id, p.keys[..i] + [h.sep] + p.keys[i..],
          p.children[..i] + [h.left, h.right] + p.children[i + 1..])
  }

  /** Splitting the full i-th child keeps depth and occupancy and adds one separator. */
  lemma {:induction false} SplitKeepsBalance(d: nat, h: nat, p: Tree, i: nat, newId: PageId)
    requires d >= 2 && Balanced(d, h, p, 0) && p.Inner? && i < |p.children|
    requires Size(p) < 2 * d - 1 && Full(d, p.children[i])
    ensures var s := SplitChild(d, p, i, newId);
            && Balanced(d, h, s, 1) && Size(s) == Size(p) + 1
            && Size(s.children[i]) == d - 1 && Size(s.children[i + 1]) < 2 * d - 1
  {
    var c := p.children[i];
    var hv := Split(d, c, newId);
    assert Balanced(d, h - 1, c, d - 1);
    assert Balanced(d, h - 1, hv.left, d - 1);
    assert Balanced(d, h - 1, hv.right, d - 1);
  }

  /** A node ready to be descended into, the child to take, and the highest page id in use. */
  datatype Step = Step(node: Tree, child: nat, last: nat)

  /** One step of an insertion's descent: a full child on the path is split first. */
  ghost function Descend(d: nat, h: nat, t: Tree, k: Key, last: nat): (s: Step)
    requires d >= 2 && Balanced(d, h, t, 0) && Size(t) < 2 * d - 1 && t.Inner?
    ensures s.node.Inner? && Balanced(d, h, s.node, Size(t)) && s.child < |s.node.children|
    ensures Balanced(d, h - 1, s.node.children[s.child], d - 1)
    ensures Size(s.node.children[s.child]) < 2 * d - 1
  {
    var i := RouteInsert(t.keys, k);
    assert Balanced(d, h - 1, t.children[i], d - 1);
    if Size(t.children[i]) == 2 * d - 1 then
      SplitKeepsBalance(d, h, t, i, last + 1);
      var s := SplitChild(d, t, i, last + 1);
      Step(s, if k > s.keys[i] then i + 1 else i, last + 1)
    else
      Step(t, i, last)
  }

  ghost function WithChild(p: Tree, j: nat, c: Tree): Tree
    requires p.Inner? && j < |p.children|
  {
    p.(children := p.children[j := c])
  }

  /** A tree together with the highest page id handed out so far. */
  datatype Grown = Grown(tree: Tree, last: nat)

  /** Adds an entry below a node that is not full, splitting full children on the way down. */
  ghost function InsertNonFull(d: nat, h: nat, t: Tree, e: Entry, last: nat): (g: Grown)
    requires d >= 2 && Balanced(d, h, t, 0) && Size(t) < 2 * d - 1
    decreases h
  {
    match t
    case Leaf(id, es, _, next, nextPid) =>
      var p := LowerBound(KeysOf(es), e.key);
      var es' := es[..p] + [e] + es[p..];
      Grown(Leaf(id, es', KeysOf(es'), next, nextPid), last)
    case Inner(_, ks, cs) =>
      var s := Descend(d, h, t, e.key, last);
      var c := s.node.children[s.child];
      assert Balanced(d, h - 1, c, 0);
      var g := InsertNonFull(d, h - 1, c, e, s.last);
      Grown(WithChild(s.node, s.child, g.tree), g.last)
  }

  /** An index without nodes, or a tree. */
  datatype Index = Empty | Rooted(tree: Tree)

  /** An index and the highest page id handed out so far. */
  datatype Version = Version(index: Index, last: nat)

  /** Distance from the root to the leftmost leaf. */
  ghost function Height(t: Tree): nat
    decreases t
  {
    match t
    case Leaf(_, _, _, _, _) => 0
    case Inner(_, _, cs) => if cs == [] then 0 else 1 + Height(cs[0])
  }

  lemma {:induction false} HeightOfBalanced(d: nat, h: nat, t: Tree, min: int)
    requires Balanced(d, h, t, min)
    ensures h == Height(t)
    decreases t
  {
    if t.Inner? {
      HeightOfBalanced(d, h - 1, t.children[0], d - 1);
    }
  }

  /** The fewest entries or separators a root may have. */
  function RootMin(t: Tree): nat {
    if t.Inner? then 1 else 0
  }

  /** A new root over the two halves of a full one. */
  ghost function NewRoot(d: nat, root: Tree, last: nat): Tree
    requires d >= 2 && Full(d, root)
  {
    SplitChild(d, Inner(last + 1, [], [root]), 0, last + 2)
  }

  lemma {:induction false} SplitRoot(d: nat, h: nat, root: Tree, last: nat)
    requires d >= 2 && Balanced(d, h, root, 0) && Size(root) == 2 * d - 1
    ensures Full(d, root)
    ensures Balanced(d, h + 1, NewRoot(d, root, last), 1) && Size(NewRoot(d, root, last)) == 1
  {
    var top := Inner(last + 1, [], [root]);
    assert Balanced(d, h, root, d - 1);
    assert Balanced(d, h + 1, top, 0);
    SplitKeepsBalance(d, h + 1, top, 0, last + 2);
  }

  /** A root ready for an insertion, its height, and the highest page id in use. */
  datatype Ready = Ready(root: Tree, height: nat, last: nat)

  /** A full root is first split under a new one. */
  ghost function Prepared(d: nat, root: Tree, last: nat): (r: Ready)
    requires d >= 2 && Balanced(d, Height(root), root, 0)
    ensures Balanced(d, r.height, r.root, 0) && Size(r.root) < 2 * d - 1
  {
    if Size(root) == 2 * d - 1 then
      SplitRoot(d, Height(root), root, last);
      assert Balanced(d, Height(root) + 1, NewRoot(d, root, last), 0);
      Ready(NewRoot(d, root, last), Height(root) + 1, last + 2)
    else
      Ready(root, Height(root), last)
  }

  /** Adds an entry to an index. */
  ghost function Insert(d: nat, v: Version, e: Entry): Version
    requires d >= 2 && (v.index.Rooted? ==> Balanced(d, Height(v.index.tree), v.index.tree, 0))
  {
    match v.index
    case Empty =>
      Version(Rooted(Leaf(v.last + 1, [e], [e.key], NULL_PAGE, NULL_PAGE)), v.last + 1)
    case Rooted(root) =>
      var r := Prepared(d, root, v.last);
      var g := InsertNonFull(d, r.height, r.root, e, r.last);
      Version(Rooted(g.tree), g.last)
  }

  /** What every tree of height `h` satisfies: equal leaf depth, occupancy, order, and page ids used
      once, within 1..last. */
  ghost predicate ValidTree(d: nat, h: nat, strict: bool, t: Tree, last: nat) {
    && d >= 2
    && Balanced(d, h, t, RootMin(t))
    && Ordered(strict, t, Unbounded, Unbounded)
    && Distinct(t) && IdsWithin(t, last)
  }

  ghost predicate IdsWithin(t: Tree, last: nat) {
    forall x | x in Ids(t) :: 1 <= x <= last
  }

  ghost predicate Valid(d: nat, strict: bool, v: Version) {
    d >= 2 && (v.index.Rooted? ==> ValidTree(d, Height(v.index.tree), strict, v.index.tree, v.last))
  }

  /** The leaves' in-memory pointers (`mem`) or persisted sibling ids are the left-to-right leaf order. */
  ghost predicate Chained(mem: bool, x: Index) {
    x.Rooted? ==> Linked(mem, x.tree, NULL_PAGE)
  }

  /** The key caches of all leaves are up to date. */
  ghost predicate Cached(x: Index) {
    x.Rooted? ==> Synced(x.tree)
  }

  ghost function Contents(x: Index): seq<Entry> {
    if x.Empty? then [] else Entries(x.tree)
  }
}
