/**
 Nodes as the program keeps them: one record a page id, in memory and as page images,
 and what it means that a store holds a given tree.
 */
module BPlusTreeStore {
  import opened BTreeModel

  /** The fields of a node.  `children` are the in-memory pointers, named by the page ids of their
      targets; `childIds` is the persisted list of child page ids. */
  datatype Node = Node(
    isLeaf: bool, entries: seq<Entry>, keys: seq<Key>,
    children: seq<PageId>, childIds: seq<PageId>, next: PageId, nextPid: PageId)

  /** The content of a page that holds a node. */
  datatype Image = Image(isLeaf: bool, nextPid: PageId, entries: seq<Entry>, keys: seq<Key>, childIds: seq<PageId>)

  /** A leaf persists its entries; an inner node its keys and the page ids of its children. */
  function Serialize(n: Node): Image {
    if n.isLeaf then Image(true, n.nextPid, n.entries, [], [])
    else Image(false, n.nextPid, [], n.keys, n.children)
  }

  /** A node read back: neither the key cache of a leaf nor any pointer is persisted. */
  function Deserialize(m: Image): Node {
    if m.isLeaf then Node(true, m.entries, [], [], [], NULL_PAGE, m.nextPid)
    else Node(false, [], m.keys, [], if |m.keys| > 0 then m.childIds else [], NULL_PAGE, m.nextPid)
  }

  ghost function RootIds(cs: seq<Tree>): (ids: seq<PageId>)
    ensures |ids| == |cs|
    ensures forall i | 0 <= i < |cs| :: ids[i] == cs[i].id
  {
    seq(|cs|, i requires 0 <= i < |cs| => cs[i].id)
  }

  ghost function NodeOf(t: Tree): Node {
    match t
    case Leaf(_, es, ks, next, nextPid) => Node(true, es, ks, [], [], next, nextPid)
    case Inner(_, ks, cs) => Node(false, [], ks, RootIds(cs), RootIds(cs), NULL_PAGE, NULL_PAGE)
  }

  /** The node store holds exactly this tree at its page ids. */
  ghost predicate InMemory(nodes: map<PageId, Node>, t: Tree)
    decreases t
  {
    && t.id in nodes && nodes[t.id] == NodeOf(t)
    && (t.Inner? ==> forall i | 0 <= i < |t.children| :: InMemory(nodes, t.children[i]))
  }

  /** The page images of all the tree's nodes are up to date. */
  ghost predicate OnDisk(pages: map<PageId, Image>, t: Tree)
    decreases t
  {
    && t.id in pages && pages[t.id] == Serialize(NodeOf(t))
    && (t.Inner? ==> forall i | 0 <= i < |t.children| :: OnDisk(pages, t.children[i]))
  }

  /** All pages but possibly the root's are up to date. */
  ghost predicate ChildrenOnDisk(pages: map<PageId, Image>, t: Tree) {
    t.Inner? ==> forall i | 0 <= i < |t.children| :: OnDisk(pages, t.children[i])
  }

  /** `m'` agrees with `m` outside `xs`. */
  ghost predicate SameOutside<T(!new)>(m: map<PageId, T>, m': map<PageId, T>, xs: set<PageId>) {
    forall x | x in m && x !in xs :: x in m' && m'[x] == m[x]
  }

  lemma SameOutsideTrans<T(!new)>(m: map<PageId, T>, m': map<PageId, T>, m'': map<PageId, T>,
      xs: set<PageId>, ys: set<PageId>, zs: set<PageId>)
    requires SameOutside(m, m', xs) && SameOutside(m', m'', ys) && xs <= zs && ys <= zs
    ensures SameOutside(m, m'', zs)
  {
  }

  /** Two steps and a final page write inside `zs` change nothing outside it. */
  lemma FramesCompose(m: map<PageId, Node>, m1: map<PageId, Node>, m2: map<PageId, Node>,
      g: map<PageId, Image>, g1: map<PageId, Image>, g2: map<PageId, Image>, g3: map<PageId, Image>,
      xs: set<PageId>, ys: set<PageId>, zs: set<PageId>, id: PageId)
    requires SameOutside(m, m1, xs) && SameOutside(m1, m2, ys)
    requires SameOutside(g, g1, xs) && SameOutside(g1, g2, ys)
    requires id in zs && xs <= zs && ys <= zs && id in m2 && g3 == g2[id := Serialize(m2[id])]
    ensures SameOutside(m, m2, zs) && SameOutside(g, g3, zs)
  {
    SameOutsideTrans(g, g1, g2, xs, ys, zs);
  }

  lemma {:induction false} InMemoryFrame(m: map<PageId, Node>, m': map<PageId, Node>, t: Tree, xs: set<PageId>)
    requires InMemory(m, t) && SameOutside(m, m', xs) && Ids(t) !! xs
    ensures InMemory(m', t)
    decreases t
  {
    assert t.id in Ids(t);
    if t.Inner? {
      forall i | 0 <= i < |t.children|
        ensures InMemory(m', t.children[i])
      {
        assert Ids(t.children[i]) <= Ids(t);
        InMemoryFrame(m, m', t.children[i], xs);
      }
    }
  }

  lemma {:induction false} OnDiskFrame(m: map<PageId, Image>, m': map<PageId, Image>, t: Tree, xs: set<PageId>)
    requires OnDisk(m, t) && SameOutside(m, m', xs) && Ids(t) !! xs
    ensures OnDisk(m', t)
    decreases t
  {
    assert t.id in Ids(t);
    if t.Inner? {
      forall i | 0 <= i < |t.children|
        ensures OnDisk(m', t.children[i])
      {
        assert Ids(t.children[i]) <= Ids(t);
        OnDiskFrame(m, m', t.children[i], xs);
      }
    }
  }

  /** Writing the root's page after its children completes the images of a tree. */
  lemma {:induction false} RootWritten(g: map<PageId, Image>, g': map<PageId, Image>, t: Tree)
    requires ChildrenOnDisk(g, t) && Distinct(t) && g' == g[t.id := Serialize(NodeOf(t))]
    ensures OnDisk(g', t)
  {
    if t.Inner? {
      forall i | 0 <= i < |t.children|
        ensures OnDisk(g', t.children[i])
      {
        OnDiskFrame(g, g', t.children[i], {t.id});
      }
    }
  }

  // ---------------------------------------------------------------- leaves by page

  lemma {:induction false} LeafPages(pages: map<PageId, Image>, t: Tree, j: nat)
    requires OnDisk(pages, t) && j < |Leaves(t)|
    ensures var l := Leaves(t)[j]; l.id in Ids(t) && l.id in pages && pages[l.id] == Serialize(NodeOf(l))
    decreases t
  {
    if t.Inner? {
      var i, k := LeafInChild(t.children, j);
      LeafPages(pages, t.children[i], k);
      assert Ids(t.children[i]) <= Ids(t);
    }
  }

  /** The j-th leaf of a list of trees is the k-th leaf of its i-th tree. */
  lemma {:induction false} LeafInChild(cs: seq<Tree>, j: nat) returns (i: nat, k: nat)
    requires j < |LeavesOf(cs)|
    ensures i < |cs| && k < |Leaves(cs[i])| && Leaves(cs[i])[k] == LeavesOf(cs)[j]
    decreases cs
  {
    var n := |Leaves(cs[0])|;
    if j < n {
      i, k := 0, j;
    } else {
      i, k := LeafInChild(cs[1..], j - n);
      i := i + 1;
    }
  }
}
