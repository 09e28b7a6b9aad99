/** The B+ tree with its nodes changed in place and every touched node written to its page. */
module BPlusTrees {
  import opened BTreeModel
  import opened BTreeInsert
  import opened BTreeInsertLinks
  import opened BTreeIndex
  import opened BTreeSearch
  import opened BTreeReload
  import opened BTreeRemoveModel
  import opened BTreeRemove
  import opened BTreeRemoveLinks
  import opened BPlusTreeStore
  import opened BPlusTreeRemoveStore

  class BPlusTree {
    var degree: nat
    var root: PageId
    var nodes: map<PageId, Node>
    var pages: map<PageId, Image>
    var lastPage: nat
    /** The content of the meta page: minimum degree and root page id. */
    var meta: (nat, PageId)
    /** The tree that the node store holds. */
    ghost var index: Index

    /** The node store holds `index`, whatever the pages hold. */
    ghost predicate InStore()
      reads this
    {
      if index.Empty? then root == NULL_PAGE else root == index.tree.id && InMemory(nodes, index.tree)
    }

    /** The node store and the page images both hold `index`. */
    ghost predicate Holds()
      reads this
    {
      if index.Empty? then root == NULL_PAGE
      else root == index.tree.id && InMemory(nodes, index.tree) && OnDisk(pages, index.tree)
    }

    /** The stores hold an index that satisfies every invariant. */
    ghost predicate Valid(strict: bool)
      reads this
    {
      Holds() && BTreeModel.Valid(degree, strict, Version(index, lastPage))
    }

    constructor (t: nat, handedOut: nat)
      requires t >= 2
      ensures Valid(true) && index == Empty && degree == t && lastPage == handedOut
    {
      degree, root, nodes, pages, lastPage := t, NULL_PAGE, map[], map[], handedOut;
      meta := (t, NULL_PAGE);
      index := Empty;
    }

    /** The buffer pool hands out dense page ids. */
    method NewPage() returns (id: PageId)
      modifies this`lastPage
      ensures lastPage == old(lastPage) + 1 && id == lastPage
    {
      lastPage := lastPage + 1;
      id := lastPage;
    }

    /** Serializes a node into its page and marks the page dirty. */
    method WriteNode(id: PageId)
      requires id in nodes
      modifies this`pages
      ensures pages == old(pages)[id := Serialize(nodes[id])]
    {
      pages := pages[id := Serialize(nodes[id])];
    }

    method SplitChild(parent: PageId, index: nat, child: PageId, ghost p: Tree)
      requires degree >= 2 && p.Inner? && |p.children| == |p.keys| + 1 && index < |p.children|
      requires Full(degree, p.children[index]) && Distinct(p) && IdsWithin(p, lastPage)
      requires InMemory(nodes, p) && parent == p.id && child == p.children[index].id
      requires ChildrenOnDisk(pages, p)
      modifies this`nodes, this`pages, this`lastPage
      ensures lastPage == old(lastPage) + 1
      ensures InMemory(nodes, BTreeModel.SplitChild(degree, p, index, lastPage))
      ensures ChildrenOnDisk(pages, BTreeModel.SplitChild(degree, p, index, lastPage))
      ensures forall xs | Ids(p) + {lastPage} <= xs ::
                SameOutside(old(nodes), nodes, xs) && SameOutside(old(pages), pages, xs)
    {
      ghost var c := p.children[index];
      assert InMemory(nodes, c) && c.id in Ids(c) && p.id in Ids(p) && lastPage + 1 !in Ids(p);
      SplitRecords(degree, p, index, lastPage + 1);
      var newChild := NewPage();
      var pn, cn := nodes[parent], nodes[child];
      var nn: Node;
      if cn.isLeaf {
        nn := Node(true, cn.entries[degree - 1..], KeysOf(cn.entries[degree - 1..]), [], [], cn.next, cn.nextPid);
        pn := pn.(keys := pn.keys[..index] + [nn.entries[0].key] + pn.keys[index..]);
        cn := cn.(entries := cn.entries[..degree - 1], keys := KeysOf(cn.entries[..degree - 1]),
                  nextPid := newChild, next := newChild);
      } else {
        pn := pn.(keys := pn.keys[..index] + [cn.keys[degree - 1]] + pn.keys[index..]);
        nn := Node(false, [], cn.keys[degree..], cn.children[degree..], cn.childIds[degree..], NULL_PAGE, NULL_PAGE);
        cn := cn.(keys := cn.keys[..degree - 1], children := cn.children[..degree], childIds := cn.childIds[..degree]);
      }
      pn := pn.(children := pn.children[..index + 1] + [newChild] + pn.children[index + 1..],
                childIds := pn.childIds[..index + 1] + [newChild] + pn.childIds[index + 1..]);
      nodes := nodes[child := cn][newChild := nn][parent := pn];
      WriteNode(child);
      WriteNode(newChild);
      SplitStores(degree, p, index, newChild, old(nodes), nodes, old(pages), pages);
    }

    /** The index of the child that an insertion descends to, scanning the separators from the right. */
    method InsertPosition(keys: seq<Key>, key: Key) returns (i: nat)
      ensures i <= |keys| && (i > 0 ==> keys[i - 1] <= key)
      ensures forall j | i <= j < |keys| :: key < keys[j]
      ensures i == RouteInsert(keys, key)
    {
      var j := |keys| - 1;
      while j >= 0 && key < keys[j]
        invariant -1 <= j < |keys|
        invariant forall x | j < x < |keys| :: key < keys[x]
      {
        j := j - 1;
      }
      i := j + 1;
    }

    /** Chooses the child of inner node `id` that an insertion of `key` descends to; splits it if it is full. */
    method ChooseChild(id: PageId, key: Key, ghost h: nat, ghost t: Tree) returns (i: nat)
      requires degree >= 2 && Balanced(degree, h, t, 0) && Size(t) < 2 * degree - 1 && t.Inner?
      requires Distinct(t) && IdsWithin(t, lastPage)
      requires InMemory(nodes, t) && id == t.id && ChildrenOnDisk(pages, t)
      modifies this`nodes, this`pages, this`lastPage
      ensures var s := Descend(degree, h, t, key, old(lastPage));
              && i == s.child && lastPage == s.last && InMemory(nodes, s.node) && ChildrenOnDisk(pages, s.node)
              && SameOutside(old(nodes), nodes, Ids(t) + NewPages(old(lastPage), lastPage))
              && SameOutside(old(pages), pages, Ids(t) + NewPages(old(lastPage), lastPage))
    {
      hide Full, RouteInsert, Ids, NewPages, Descend, BTreeModel.SplitChild, InMemory, ChildrenOnDisk, Balanced,
           Distinct, IdsWithin, SameOutside;
      DescendCases(degree, h, t, key, lastPage);
      ChildRecord(nodes, t, RouteInsert(t.keys, key));
      SameOutsideSelf(nodes, pages, Ids(t) + NewPages(lastPage, lastPage));
      var node := nodes[id];
      i := InsertPosition(node.keys, key);
      var child := nodes[node.children[i]];
      var childSize := if child.isLeaf then |child.entries| else |child.keys|;
      if childSize == 2 * degree - 1 {
        SplitIdsUsed(t, lastPage);
        SplitChild(id, i, node.children[i], t);
        SplitRecord(nodes, degree, t, i, lastPage);
        if key > nodes[id].keys[i] {
          i := i + 1;
        }
      }
    }

    /** The child that a search descends to: the separators are scanned from the left. */
    method SearchPosition(point: bool, keys: seq<Key>, key: Key) returns (i: nat)
      ensures i <= |keys| && (forall j | 0 <= j < i :: if point then key >= keys[j] else key > keys[j])
      ensures i < |keys| ==> if point then key < keys[i] else key <= keys[i]
      ensures i == Route(point, keys, key)
    {
      i := 0;
      while i < |keys| && (if point then key >= keys[i] else key > keys[i])
        invariant i <= |keys|
        invariant forall j | 0 <= j < i :: if point then key >= keys[j] else key > keys[j]
      {
        i := i + 1;
      }
    }

    /** Descends from the root to the leaf for `key`: right of equal separators for a point query,
        left of them for a range query. */
    method FindLeaf(point: bool, key: Key) returns (current: Node)
      requires Valid(false) && index.Rooted?
      ensures LeafFor(point, index.tree, key).Leaf? && current == NodeOf(LeafFor(point, index.tree, key))
    {
      current := nodes[root];
      ghost var t, lo, hi := index.tree, Unbounded, Unbounded;
      while !current.isLeaf
        invariant InMemory(nodes, t) && current == NodeOf(t) && Ordered(false, t, lo, hi)
        invariant LeafFor(point, t, key) == LeafFor(point, index.tree, key)
        decreases t
      {
        var i := SearchPosition(point, current.keys, key);
        SearchStep(point, t, key, lo, hi, nodes);
        current := nodes[current.children[i]];
        t, lo, hi := t.children[i], LoOf(t.keys, lo, i), HiOf(t.keys, hi, i);
      }
    }

    /** Whether the leaf for `key` has it. */
    method Search(key: Key) returns (found: bool)
      requires Valid(false)
      ensures found <==> index.Rooted? && HasKey(LeafEntries(true, index.tree, key), key)
    {
      if root == NULL_PAGE {
        assert index.Rooted? ==> index.tree.id in Ids(index.tree);
        return false;
      }
      var current := FindLeaf(true, key);
      LeafSorted(true, false, index.tree, key, Unbounded, Unbounded);
      found := SearchEntries(current.entries, key);
    }

    /** Scans sorted entries for the key, giving up at the first greater one. */
    method SearchEntries(entries: seq<Entry>, key: Key) returns (found: bool)
      requires SortedEntries(false, entries)
      ensures found <==> HasKey(entries, key)
    {
      for p := 0 to |entries|
        invariant forall i | 0 <= i < p :: entries[i].key < key
      {
        if entries[p].key == key {
          return true;
        }
        if entries[p].key > key {
          return false;
        }
      }
      return false;
    }

    /** All record ids of the key in the leaf for it and the leaves that follow on the chain of pages. */
    method FindValue(key: Key) returns (results: seq<Rid>)
      requires Valid(false) && Chained(false, index)
      ensures results == if index.Empty? then [] else InRange(EntriesFrom(true, index.tree, key), key, key)
      ensures index.Rooted? ==> exists ps: seq<nat> ::
                Answers(EntriesFrom(true, index.tree, key), key, key, results, ps)
    {
      ghost var seen := if index.Empty? then [] else EntriesFrom(true, index.tree, key);
      ghost var ps := InRangeExact(seen, key, key);
      results := [];
      if root == NULL_PAGE {
        assert index.Rooted? ==> index.tree.id in Ids(index.tree);
        return;
      }
      var current := FindLeaf(true, key);
      results := ScanChain(true, key, key, key, current);
    }

    /** The record ids of exactly the entries with lower <= key <= upper, each once, in key order. */
    method RangeQuery(lower: Key, upper: Key) returns (result: seq<Rid>)
      requires Valid(false) && Chained(false, index)
      ensures result == InRange(Contents(index), lower, upper)
      ensures exists ps: seq<nat> :: Answers(Contents(index), lower, upper, result, ps)
    {
      ghost var ps := InRangeExact(Contents(index), lower, upper);
      result := [];
      if root == NULL_PAGE {
        assert index.Rooted? ==> index.tree.id in Ids(index.tree);
        return;
      }
      var current := FindLeaf(false, lower);
      result := ScanChain(false, lower, lower, upper, current);
      RangeScanComplete(false, index.tree, lower, upper);
    }

    /** Appends the record ids of a sorted leaf's entries in range; `done` when a greater key was seen. */
    method ScanLeaf(entries: seq<Entry>, lower: Key, upper: Key, acc: seq<Rid>) returns (result: seq<Rid>, done: bool)
      requires SortedEntries(false, entries)
      ensures result == acc + InRange(entries, lower, upper)
      ensures done <==> exists p :: 0 <= p < |entries| && entries[p].key > upper
    {
      result := acc;
      for p := 0 to |entries|
        invariant result == acc + InRange(entries[..p], lower, upper)
        invariant forall i | 0 <= i < p :: entries[i].key <= upper
      {
        var e := entries[p];
        if e.key > upper {
          BeyondIsEmpty(false, entries, p, lower, upper);
          return result, true;
        }
        InRangeConcat(entries[..p], [e], lower, upper);
        assert entries[..p + 1] == entries[..p] + [e];
        assert InRange([e], lower, upper) == if lower <= e.key then [e.rid] else [];
        if e.key >= lower && e.key <= upper {
          result := result + [e.rid];
        }
      }
      assert entries[..|entries|] == entries;
      done := false;
    }

    /** Collects record ids with lower <= key <= upper from a leaf on, following the persisted sibling
        ids from page to page, until a greater key appears or the chain ends. */
    method ScanChain(point: bool, key: Key, lower: Key, upper: Key, start: Node) returns (result: seq<Rid>)
      requires Valid(false) && Chained(false, index) && index.Rooted?
      requires LeafFor(point, index.tree, key).Leaf? && start == NodeOf(LeafFor(point, index.tree, key))
      ensures result == InRange(EntriesFrom(point, index.tree, key), lower, upper)
    {
      hide Ordered, Linked, Distinct, Balanced, InRange, EntriesOf, SortedEntries, LeafIndex, Leaves;
      ghost var ls, m := Leaves(index.tree), LeafIndex(point, index.tree, key);
      ScanFacts(point, index.tree, key);
      var current := start;
      ghost var j := m;
      result := [];
      assert ls[m..m] == [];
      NothingInRange(lower, upper);
      while true
        invariant m <= j < |ls| && current.entries == ls[j].entries && current.nextPid == ls[j].nextPid
        invariant result == InRange(EntriesOf(ls[m..j]), lower, upper)
        decreases |ls| - j
      {
        ScanProgress(ls, m, j, lower, upper);
        var done;
        result, done := ScanLeaf(current.entries, lower, upper, result);
        if done {
          return;
        }
        var nextPid := current.nextPid;
        NextLeaf(index.tree, pages, j);
        if nextPid <= -1 {
          assert ls[m..] == ls[m..j + 1];
          return;
        }
        current := Deserialize(pages[nextPid]);
        j := j + 1;
      }
    }

    /** Adds an entry to the index. */
    method Insert(key: Key, value: Rid)
      requires Valid(false)
      modifies this
      ensures Valid(false) && degree == old(degree)
      ensures Version(index, lastPage) == BTreeModel.Insert(degree, old(Version(index, lastPage)), Entry(key, value))
    {
      InsertKeepsValid(degree, false, Version(index, lastPage), Entry(key, value));
      assert index.Rooted? ==> index.tree.id in Ids(index.tree);
      if root == NULL_PAGE {
        InsertFirst(key, value);
      } else {
        InsertRooted(key, value);
      }
    }

    method InsertFirst(key: Key, value: Rid)
      requires index.Empty? && root == NULL_PAGE && degree >= 2
      modifies this
      ensures degree == old(degree) && Holds()
      ensures Version(index, lastPage) == BTreeModel.Insert(degree, old(Version(index, lastPage)), Entry(key, value))
    {
      root := NewPage();
      nodes := nodes[root := Node(true, [Entry(key, value)], [key], [], [], NULL_PAGE, NULL_PAGE)];
      WriteNode(root);
      index := Rooted(Leaf(root, [Entry(key, value)], [key], NULL_PAGE, NULL_PAGE));
    }

    method InsertRooted(key: Key, value: Rid)
      requires Valid(false) && index.Rooted?
      requires Balanced(degree, Height(index.tree), index.tree, 0)
      modifies this
      ensures degree == old(degree) && Holds()
      ensures Version(index, lastPage) == BTreeModel.Insert(degree, old(Version(index, lastPage)), Entry(key, value))
    {
      ghost var r := Prepared(degree, index.tree, lastPage);
      ghost var g := BTreeModel.InsertNonFull(degree, r.height, r.root, Entry(key, value), r.last);
      PrepareRoot();
      InsertNonFull(root, key, value, r.height, r.root);
      InsertKeepsId(degree, r.height, r.root, Entry(key, value), r.last);
      index := Rooted(g.tree);
    }

    /** Splits the root first if it is full. */
    method PrepareRoot()
      requires Valid(false) && index.Rooted?
      requires Balanced(degree, Height(index.tree), index.tree, 0)
      modifies this`root, this`nodes, this`pages, this`lastPage
      ensures var r := Prepared(degree, index.tree, old(lastPage));
              && lastPage == r.last && root == r.root.id && InMemory(nodes, r.root) && ChildrenOnDisk(pages, r.root)
              && Distinct(r.root) && IdsWithin(r.root, r.last)
    {
      PreparedFacts(degree, index.tree, lastPage);
      var n := nodes[root];
      var rootSize := if n.isLeaf then |n.entries| else |n.keys|;
      if rootSize == 2 * degree - 1 {
        GrowRoot();
      }
    }

    /** Puts a new root over the full old one and splits the old one. */
    method GrowRoot()
      requires Valid(false) && index.Rooted? && Size(index.tree) == 2 * degree - 1 && Full(degree, index.tree)
      modifies this`root, this`nodes, this`pages, this`lastPage
      ensures lastPage == old(lastPage) + 2
      ensures var s := NewRoot(degree, index.tree, old(lastPage));
              root == s.id && InMemory(nodes, s) && ChildrenOnDisk(pages, s)
    {
      ghost var t := index.tree;
      ghost var top := Top(t, lastPage);
      var newRoot := NewPage();
      ghost var nodes0 := nodes;
      nodes := nodes[newRoot := Node(false, [], [], [root], [root], NULL_PAGE, NULL_PAGE)];
      InMemoryFrame(nodes0, nodes, t, {newRoot});
      TopIds(t, lastPage - 1);
      assert RootIds(top.children) == [root];
      SplitChild(newRoot, 0, root, top);
      root := newRoot;
    }

    /** Adds an entry below node `id`, which is not full. */
    method InsertNonFull(id: PageId, key: Key, value: Rid, ghost h: nat, ghost t: Tree)
      requires degree >= 2 && Balanced(degree, h, t, 0) && Size(t) < 2 * degree - 1
      requires Distinct(t) && IdsWithin(t, lastPage)
      requires InMemory(nodes, t) && id == t.id && ChildrenOnDisk(pages, t)
      modifies this`nodes, this`pages, this`lastPage
      ensures var g := BTreeModel.InsertNonFull(degree, h, t, Entry(key, value), old(lastPage));
              && lastPage == g.last && InMemory(nodes, g.tree) && OnDisk(pages, g.tree)
              && SameOutside(old(nodes), nodes, Ids(t) + NewPages(old(lastPage), lastPage))
              && SameOutside(old(pages), pages, Ids(t) + NewPages(old(lastPage), lastPage))
      decreases h, 2
    {
      assert id in Ids(t);
      if nodes[id].isLeaf {
        InsertIntoLeaf(id, key, value, h, t);
      } else {
        InsertIntoInner(id, key, value, h, t);
      }
    }

    method InsertIntoInner(id: PageId, key: Key, value: Rid, ghost h: nat, ghost t: Tree)
      requires degree >= 2 && Balanced(degree, h, t, 0) && Size(t) < 2 * degree - 1 && t.Inner?
      requires Distinct(t) && IdsWithin(t, lastPage)
      requires InMemory(nodes, t) && id == t.id && ChildrenOnDisk(pages, t)
      modifies this`nodes, this`pages, this`lastPage
      ensures var g := BTreeModel.InsertNonFull(degree, h, t, Entry(key, value), old(lastPage));
              && lastPage == g.last && InMemory(nodes, g.tree) && OnDisk(pages, g.tree)
              && SameOutside(old(nodes), nodes, Ids(t) + NewPages(old(lastPage), lastPage))
              && SameOutside(old(pages), pages, Ids(t) + NewPages(old(lastPage), lastPage))
      decreases h, 1
    {
      ghost var s := Descend(degree, h, t, key, lastPage);
      DescendDistinct(degree, h, t, key, lastPage);
      InsertTouches(degree, h, t, Entry(key, value), lastPage);
      var i := ChooseChild(id, key, h, t);
      ghost var nodes1, pages1 := nodes, pages;
      InsertBelow(id, i, key, value, h, s.node);
      hide InMemory, OnDisk, ChildrenOnDisk, Distinct, IdsWithin, Balanced, Descend, WithChild;
      ghost var xs, ys := Ids(t) + NewPages(old(lastPage), s.last),
          Ids(s.node.children[i]) + {id} + NewPages(s.last, lastPage);
      SameOutsideTrans(old(nodes), nodes1, nodes, xs, ys, Ids(t) + NewPages(old(lastPage), lastPage));
      SameOutsideTrans(old(pages), pages1, pages, xs, ys, Ids(t) + NewPages(old(lastPage), lastPage));
    }

    /** Adds an entry below child `i` of inner node `id`, which is not full. */
    method InsertBelow(id: PageId, i: nat, key: Key, value: Rid, ghost h: nat, ghost p: Tree)
      requires degree >= 2 && h > 0 && p.Inner? && i < |p.children|
      requires Balanced(degree, h - 1, p.children[i], 0) && Size(p.children[i]) < 2 * degree - 1
      requires Distinct(p) && IdsWithin(p, lastPage)
      requires InMemory(nodes, p) && id == p.id && ChildrenOnDisk(pages, p)
      modifies this`nodes, this`pages, this`lastPage
      ensures var g := BTreeModel.InsertNonFull(degree, h - 1, p.children[i], Entry(key, value), old(lastPage));
              && lastPage == g.last
              && InMemory(nodes, WithChild(p, i, g.tree)) && OnDisk(pages, WithChild(p, i, g.tree))
      ensures var ys := Ids(p.children[i]) + {id} + NewPages(old(lastPage), lastPage);
              SameOutside(old(nodes), nodes, ys) && SameOutside(old(pages), pages, ys)
      decreases h, 0
    {
      ghost var c, e := p.children[i], Entry(key, value);
      ChildStored(nodes, pages, p, i, lastPage);
      InsertKeepsIds(degree, h - 1, c, e, lastPage);
      InsertKeepsId(degree, h - 1, c, e, lastPage);
      hide BTreeModel.InsertNonFull, Balanced, WithChild, InMemory, OnDisk, ChildrenOnDisk, Distinct, IdsWithin, Ids;
      InsertNonFull(nodes[id].children[i], key, value, h - 1, c);
      ghost var pages1 := pages;
      assert id in nodes;
      WriteNode(id);
      ghost var c' := BTreeModel.InsertNonFull(degree, h - 1, c, e, old(lastPage)).tree;
      BelowStores(p, i, c', old(lastPage), lastPage, old(nodes), nodes, old(pages), pages1, pages);
    }

    method InsertIntoLeaf(id: PageId, key: Key, value: Rid, ghost h: nat, ghost t: Tree)
      requires degree >= 2 && Balanced(degree, h, t, 0) && Size(t) < 2 * degree - 1 && t.Leaf?
      requires InMemory(nodes, t) && id == t.id
      modifies this`nodes, this`pages
      ensures var g := BTreeModel.InsertNonFull(degree, h, t, Entry(key, value), lastPage);
              && g.last == lastPage && InMemory(nodes, g.tree) && OnDisk(pages, g.tree)
              && SameOutside(old(nodes), nodes, {id}) && SameOutside(old(pages), pages, {id})
    {
      var node := nodes[id];
      var p := LowerBound(KeysOf(node.entries), key);
      var entries := node.entries[..p] + [Entry(key, value)] + node.entries[p..];
      nodes := nodes[id := node.(entries := entries, keys := KeysOf(entries))];
      WriteNode(id);
    }

    // -------------------------------------------------------------- removal

    /** Child `index` takes an entry or a child from its left neighbour. */
    method BorrowFromPrev(parent: PageId, index: nat, ghost p: Tree)
      requires degree >= 2 && Siblings(degree, p) && Distinct(p) && 0 < index < |p.children|
      requires |p.children[index - 1].keys| >= degree
      requires InMemory(nodes, p) && ChildrenOnDisk(pages, p) && parent == p.id
      modifies this`nodes, this`pages
      ensures var q := BTreeRemoveModel.BorrowFromPrev(degree, p, index);
              InMemory(nodes, q) && ChildrenOnDisk(pages, q)
      ensures SameOutside(old(nodes), nodes, Ids(p)) && SameOutside(old(pages), pages, Ids(p))
    {
      hide Siblings, Distinct, InMemory, ChildrenOnDisk, Ids, SameOutside, WithPair, ShiftRight, Serialize;
      PairInMemory(degree, nodes, p, index - 1);
      ghost var s := ShiftRight(p.children[index - 1], p.keys[index - 1], p.children[index]);
      ShiftRightRecords(p.children[index - 1], p.keys[index - 1], p.children[index]);
      var pn := nodes[parent];
      var child, sibling := pn.children[index], pn.children[index - 1];
      var cn, sn := nodes[child], nodes[sibling];
      if cn.isLeaf {
        var n := |sn.entries| - 1;
        var moved := sn.entries[n];
        cn := cn.(entries := [moved] + cn.entries, keys := KeysOf([moved] + cn.entries));
        sn := sn.(entries := sn.entries[..n], keys := KeysOf(sn.entries[..n]));
        pn := pn.(keys := pn.keys[index - 1 := cn.entries[0].key]);
      } else {
        var n, m := |sn.keys| - 1, |sn.children| - 1;
        cn := cn.(keys := [pn.keys[index - 1]] + cn.keys, children := [sn.children[m]] + cn.children,
                  childIds := [sn.childIds[m]] + cn.childIds);
        pn := pn.(keys := pn.keys[index - 1 := sn.keys[n]]);
        sn := sn.(keys := sn.keys[..n], children := sn.children[..m], childIds := sn.childIds[..m]);
      }
      nodes := nodes[sibling := sn][child := cn][parent := pn];
      WriteNode(child);
      WriteNode(sibling);
      ShiftHeld(degree, p, index - 1, s, old(nodes), nodes, old(pages), pages);
    }

    /** Child `index` takes an entry or a child from its right neighbour. */
    method BorrowFromNext(parent: PageId, index: nat, ghost p: Tree)
      requires degree >= 2 && Siblings(degree, p) && Distinct(p) && index + 1 < |p.children|
      requires |p.children[index + 1].keys| >= degree
      requires InMemory(nodes, p) && ChildrenOnDisk(pages, p) && parent == p.id
      modifies this`nodes, this`pages
      ensures var q := BTreeRemoveModel.BorrowFromNext(degree, p, index);
              InMemory(nodes, q) && ChildrenOnDisk(pages, q)
      ensures SameOutside(old(nodes), nodes, Ids(p)) && SameOutside(old(pages), pages, Ids(p))
    {
      PairInMemory(degree, nodes, p, index);
      ghost var s := ShiftLeft(p.children[index], p.keys[index], p.children[index + 1]);
      ShiftLeftRecords(p.children[index], p.keys[index], p.children[index + 1]);
      var pn := nodes[parent];
      var child, sibling := pn.children[index], pn.children[index + 1];
      var cn, sn := nodes[child], nodes[sibling];
      if cn.isLeaf {
        var moved := sn.entries[0];
        cn := cn.(entries := cn.entries + [moved], keys := KeysOf(cn.entries + [moved]));
        sn := sn.(entries := sn.entries[1..], keys := KeysOf(sn.entries[1..]));
        pn := pn.(keys := pn.keys[index := sn.entries[0].key]);
      } else {
        cn := cn.(keys := cn.keys + [pn.keys[index]], children := cn.children + [sn.children[0]],
                  childIds := cn.childIds + [sn.childIds[0]]);
        pn := pn.(keys := pn.keys[index := sn.keys[0]]);
        sn := sn.(keys := sn.keys[1..], children := sn.children[1..], childIds := sn.childIds[1..]);
      }
      nodes := nodes[child := cn][sibling := sn][parent := pn];
      WriteNode(child);
      WriteNode(sibling);
      ShiftHeld(degree, p, index, s, old(nodes), nodes, old(pages), pages);
    }

    /** Child `index` absorbs its right neighbour, which is deleted. */
    method Merge(parent: PageId, index: nat, ghost p: Tree)
      requires degree >= 2 && Siblings(degree, p) && Distinct(p) && index + 1 < |p.children|
      requires InMemory(nodes, p) && ChildrenOnDisk(pages, p) && parent == p.id
      modifies this`nodes, this`pages
      ensures var q := BTreeRemoveModel.Merge(degree, p, index);
              InMemory(nodes, q) && ChildrenOnDisk(pages, q)
      ensures SameOutside(old(nodes), nodes, Ids(p)) && SameOutside(old(pages), pages, Ids(p))
    {
      PairInMemory(degree, nodes, p, index);
      JoinRecord(p.children[index], p.keys[index], p.children[index + 1]);
      var pn := nodes[parent];
      var child, sibling := pn.children[index], pn.children[index + 1];
      var cn, sn := nodes[child], nodes[sibling];
      if cn.isLeaf {
        cn := cn.(entries := cn.entries + sn.entries, keys := KeysOf(cn.entries + sn.entries), next := sn.next);
      } else {
        cn := cn.(keys := cn.keys + [pn.keys[index]] + sn.keys, children := cn.children + sn.children,
                  childIds := cn.childIds + sn.childIds);
      }
      pn := pn.(keys := pn.keys[..index] + pn.keys[index + 1..],
                children := pn.children[..index + 1] + pn.children[index + 2..],
                childIds := pn.childIds[..index + 1] + pn.childIds[index + 2..]);
      nodes := nodes[child := cn][parent := pn];
      WriteNode(child);
      nodes := nodes - {sibling};
      MergeHeld(degree, p, index, old(nodes), nodes, old(pages), pages);
    }

    /** The greatest key below node `id`: the last cached key of its rightmost leaf. */
    method Predecessor(id: PageId, ghost h: nat, ghost t: Tree) returns (k: Key)
      requires degree >= 2 && Balanced(degree, h, t, 1) && Synced(t) && InMemory(nodes, t) && id == t.id
      ensures k == LastKey(t)
    {
      var pred := nodes[id];
      ghost var cur, left := t, h;
      while !pred.isLeaf
        invariant InMemory(nodes, cur) && pred == NodeOf(cur) && Balanced(degree, left, cur, 1) && Synced(cur)
        invariant LastKey(cur) == LastKey(t)
        decreases cur
      {
        hide InMemory, Balanced, Synced, LastKey;
        ghost var n := |cur.children| - 1;
        EndChild(degree, left, cur, n, nodes);
        pred := nodes[pred.children[|pred.children| - 1]];
        cur, left := cur.children[n], left - 1;
      }
      k := pred.keys[|pred.keys| - 1];
    }

    /** The least key below node `id`: the first cached key of its leftmost leaf. */
    method Successor(id: PageId, ghost h: nat, ghost t: Tree) returns (k: Key)
      requires degree >= 2 && Balanced(degree, h, t, 1) && Synced(t) && InMemory(nodes, t) && id == t.id
      ensures k == FirstKey(t)
    {
      var succ := nodes[id];
      ghost var cur, left := t, h;
      while !succ.isLeaf
        invariant InMemory(nodes, cur) && succ == NodeOf(cur) && Balanced(degree, left, cur, 1) && Synced(cur)
        invariant FirstKey(cur) == FirstKey(t)
        decreases cur
      {
        EndChild(degree, left, cur, 0, nodes);
        succ := nodes[succ.children[0]];
        cur, left := cur.children[0], left - 1;
      }
      k := succ.keys[0];
    }

    /** Position of the first separator not below the key. */
    method LowerPosition(keys: seq<Key>, key: Key) returns (i: nat)
      ensures i <= |keys| && (i < |keys| ==> key <= keys[i]) && (forall j | 0 <= j < i :: keys[j] < key)
      ensures i == LowerBound(keys, key)
    {
      i := 0;
      while i < |keys| && keys[i] < key
        invariant i <= |keys| && forall j | 0 <= j < i :: keys[j] < key
      {
        i := i + 1;
      }
    }

    /** The key equals separator `idx` of node `id`: it is replaced by its predecessor or successor,
        whose child is descended into next, or merged away. */
    method TurnAtSeparator(id: PageId, idx: nat, key: Key, ghost h: nat, ghost t: Tree) returns (j: nat, key': Key)
      requires degree >= 2 && t.Inner? && Balanced(degree, h, t, 1) && Synced(t) && Siblings(degree, t) && Distinct(t)
      requires InMemory(nodes, t) && ChildrenOnDisk(pages, t) && id == t.id && idx < |t.keys|
      modifies this`nodes, this`pages
      ensures var r := AtSeparator(degree, t, idx, key);
              j == r.child && key' == r.key && InMemory(nodes, r.node) && ChildrenOnDisk(pages, r.node)
      ensures SameOutside(old(nodes), nodes, Ids(t)) && SameOutside(old(pages), pages, Ids(t))
    {
      hide Siblings, Sized, Distinct, InMemory, ChildrenOnDisk, Ids, SameOutside, WithSeparator,
           Balanced, Synced, BTreeRemoveModel.Merge, LastKey, FirstKey;
      ChildCount(degree, t);
      PairInMemory(degree, nodes, t, idx);
      PairBalanced(degree, h, t, idx);
      SameOutsideSelf(nodes, pages, Ids(t));
      var node := nodes[id];
      if |nodes[node.children[idx]].keys| >= degree {
        var pred := Predecessor(node.children[idx], h - 1, t.children[idx]);
        nodes := nodes[id := node.(keys := node.keys[idx := pred])];
        SeparatorHeld(t, idx, pred, old(nodes), nodes);
        return idx, pred;
      }
      if |nodes[node.children[idx + 1]].keys| >= degree {
        var succ := Successor(node.children[idx + 1], h - 1, t.children[idx + 1]);
        nodes := nodes[id := node.(keys := node.keys[idx := succ])];
        SeparatorHeld(t, idx, succ, old(nodes), nodes);
        return idx + 1, succ;
      }
      Merge(id, idx, t);
      return idx, key;
    }

    /** The key lies between separators: child `idx` borrows or is merged if it has no entry to spare. */
    method TurnBeside(id: PageId, idx: nat, key: Key, ghost t: Tree) returns (j: nat)
      requires degree >= 2 && Siblings(degree, t) && Distinct(t)
      requires InMemory(nodes, t) && ChildrenOnDisk(pages, t) && id == t.id && idx < |t.children|
      modifies this`nodes, this`pages
      ensures var r := BesideSeparators(degree, t, idx, key);
              j == r.child && InMemory(nodes, r.node) && ChildrenOnDisk(pages, r.node)
      ensures SameOutside(old(nodes), nodes, Ids(t)) && SameOutside(old(pages), pages, Ids(t))
    {
      if idx > 0 { PairInMemory(degree, nodes, t, idx - 1); }
      if idx + 1 < |t.children| { PairInMemory(degree, nodes, t, idx); }
      var node := nodes[id];
      if |nodes[node.children[idx]].keys| < degree {
        if idx > 0 && |nodes[node.children[idx - 1]].keys| >= degree {
          BorrowFromPrev(id, idx, t);
        } else if idx + 1 < |node.children| && |nodes[node.children[idx + 1]].keys| >= degree {
          BorrowFromNext(id, idx, t);
        } else if idx + 1 < |node.children| {
          Merge(id, idx, t);
        } else {
          Merge(id, idx - 1, t);
          return idx - 1;
        }
      }
      return idx;
    }

    /** Removes a key below node `id`. */
    method RemoveFrom(id: PageId, key: Key, ghost h: nat, ghost t: Tree)
      requires degree >= 2 && Balanced(degree, h, t, RootMin(t)) && Synced(t) && Distinct(t)
      requires InMemory(nodes, t) && OnDisk(pages, t) && id == t.id
      modifies this`nodes, this`pages
      ensures var t' := BTreeRemove.RemoveFrom(degree, h, t, key); InMemory(nodes, t') && OnDisk(pages, t')
      ensures SameOutside(old(nodes), nodes, Ids(t)) && SameOutside(old(pages), pages, Ids(t))
      decreases h, 1
    {
      if nodes[id].isLeaf {
        RemoveFromLeaf(id, key, t);
      } else {
        RemoveFromInner(id, key, h, t);
      }
    }

    method RemoveFromLeaf(id: PageId, key: Key, ghost t: Tree)
      requires t.Leaf? && InMemory(nodes, t) && OnDisk(pages, t) && id == t.id
      modifies this`nodes, this`pages
      ensures var t' := BTreeRemoveModel.RemoveFromLeaf(t, key); InMemory(nodes, t') && OnDisk(pages, t')
      ensures SameOutside(old(nodes), nodes, {id}) && SameOutside(old(pages), pages, {id})
    {
      var node := nodes[id];
      var p := FindEntry(node.entries, key);
      if p >= 0 {
        var entries := node.entries[..p] + node.entries[p + 1..];
        nodes := nodes[id := node.(entries := entries, keys := KeysOf(entries))];
        WriteNode(id);
      }
    }

    method RemoveFromInner(id: PageId, key: Key, ghost h: nat, ghost t: Tree)
      requires degree >= 2 && Balanced(degree, h, t, RootMin(t)) && Synced(t) && Distinct(t) && t.Inner?
      requires InMemory(nodes, t) && OnDisk(pages, t) && id == t.id
      modifies this`nodes, this`pages
      ensures var t' := BTreeRemove.RemoveFrom(degree, h, t, key); InMemory(nodes, t') && OnDisk(pages, t')
      ensures SameOutside(old(nodes), nodes, Ids(t)) && SameOutside(old(pages), pages, Ids(t))
      decreases h, 0
    {
      RemoveStep(degree, h, t, key);
      PrepareKeepsIds(degree, t, key);
      ghost var r := Prepare(degree, t, key);
      var j, key' := Turn(id, key, h, t);
      ghost var nodes1, pages1 := nodes, pages;
      ChildIds(r.node, r.child);
      ghost var c := r.node.children[r.child];
      RemoveFrom(nodes[id].children[j], key', h - 1, c);
      ghost var pages2 := pages;
      WriteNode(id);
      RemoveBelowHeld(degree, h - 1, r, Ids(t), old(nodes), nodes1, nodes, old(pages), pages1, pages2, pages);
    }

    /** Everything a removal does at an inner node before it descends. */
    method Turn(id: PageId, key: Key, ghost h: nat, ghost t: Tree) returns (j: nat, key': Key)
      requires degree >= 2 && t.Inner? && Balanced(degree, h, t, 1) && Synced(t) && Siblings(degree, t) && Distinct(t)
      requires InMemory(nodes, t) && ChildrenOnDisk(pages, t) && id == t.id
      modifies this`nodes, this`pages
      ensures var r := Prepare(degree, t, key);
              j == r.child && key' == r.key && InMemory(nodes, r.node) && ChildrenOnDisk(pages, r.node)
      ensures SameOutside(old(nodes), nodes, Ids(t)) && SameOutside(old(pages), pages, Ids(t))
    {
      var node := nodes[id];
      var idx := LowerPosition(node.keys, key);
      if idx < |node.keys| && node.keys[idx] == key {
        j, key' := TurnAtSeparator(id, idx, key, h, t);
      } else {
        j := TurnBeside(id, idx, key, t);
        key' := key;
      }
    }

    /** Removes a key from the index; an inner root left without separators gives way to its child. */
    method Remove(key: Key)
      requires Holds() && degree >= 2 && Removable(degree, index)
      modifies this`root, this`nodes, this`pages, this`index
      ensures Holds() && index == BTreeRemove.Remove(degree, old(index), key)
    {
      assert index.Rooted? ==> index.tree.id in Ids(index.tree) && index.tree.id >= 1;
      if root == NULL_PAGE {
        return;
      }
      ghost var h := Height(index.tree);
      RemoveFrom(root, key, h, index.tree);
      ghost var t := BTreeRemove.RemoveFrom(degree, h, index.tree, key);
      RemoveKeepsIds(degree, h, index.tree, key);
      if |nodes[root].keys| == 0 && !nodes[root].isLeaf {
        var tmp := root;
        root := nodes[root].children[0];
        ghost var before := nodes;
        ChildIds(t, 0);
        nodes := nodes - {tmp};
        InMemoryFrame(before, nodes, t.children[0], {tmp});
        index := Rooted(t.children[0]);
      } else {
        index := Rooted(t);
      }
    }

    // -------------------------------------------------------------- saving and loading

    /** Writes the meta page and every node's page, from memory alone. */
    method SaveBPlusTree()
      requires InStore() && BTreeModel.Valid(degree, false, Version(index, lastPage))
      modifies this`meta, this`nodes, this`pages
      ensures Valid(false) && meta == (degree, root)
    {
      meta := (degree, if root != NULL_PAGE then root else -1);
      assert index.Rooted? ==> index.tree.id in Ids(index.tree);
      if root != NULL_PAGE {
        SaveNode(root, index.tree);
      }
    }

    /** Recomputes the persisted child ids of node `id`, writes its page and then saves its children. */
    method SaveNode(id: PageId, ghost t: Tree)
      requires InMemory(nodes, t) && id == t.id && Distinct(t)
      modifies this`nodes, this`pages
      ensures InMemory(nodes, t) && OnDisk(pages, t) && SameOutside(old(pages), pages, Ids(t))
      ensures nodes == old(nodes)
      decreases t
    {
      assert id in Ids(t);
      var node := nodes[id];
      node := node.(childIds := []);
      if !node.isLeaf {
        for i := 0 to |node.children|
          invariant node == NodeOf(t).(childIds := NodeOf(t).children[..i])
        {
          node := node.(childIds := node.childIds + [node.children[i]]);
        }
        assert NodeOf(t).children[..|t.children|] == NodeOf(t).children;
      }
      assert node == NodeOf(t);
      nodes := nodes[id := node];
      assert nodes == old(nodes);
      WriteNode(id);
      if !node.isLeaf {
        for i := 0 to |node.children|
          invariant nodes == old(nodes) && id in pages && pages[id] == Serialize(NodeOf(t))
          invariant forall j | 0 <= j < i :: OnDisk(pages, t.children[j])
          invariant SameOutside(old(pages), pages, Ids(t))
        {
          ghost var before := pages;
          ChildIds(t, i);
          SaveNode(node.children[i], t.children[i]);
          forall j | 0 <= j < i
            ensures OnDisk(pages, t.children[j])
          {
            OnDiskFrame(before, pages, t.children[j], Ids(t.children[i]));
          }
          SameOutsideTrans(old(pages), before, pages, Ids(t), Ids(t.children[i]), Ids(t));
        }
      }
    }

    /** Forgets all nodes and reads the tree named by the meta page back from its pages. */
    method LoadBPlusTree()
      requires if index.Empty? then meta.1 == -1 else meta.1 == index.tree.id && OnDisk(pages, index.tree)
      requires BTreeModel.Valid(meta.0, false, Version(index, lastPage))
      modifies this`degree, this`root, this`nodes, this`index
      ensures degree == meta.0 && index == LoadedIndex(old(index)) && Valid(false)
    {
      ReloadKeepsValid(meta.0, false, Version(index, lastPage));
      degree := meta.0;
      var rootPid := meta.1;
      nodes := map[];
      root := NULL_PAGE;
      assert index.Rooted? ==> index.tree.id in Ids(index.tree);
      if rootPid != -1 {
        LoadNode(rootPid, degree, Height(index.tree), index.tree);
        root := rootPid;
        LoadedOnDisk(pages, index.tree);
      }
      index := LoadedIndex(index);
    }

    /** Reads a node and, recursively, its children from their pages. */
    method LoadNode(pid: PageId, ghost d: nat, ghost h: nat, ghost t: Tree)
      requires OnDisk(pages, t) && pid == t.id && Distinct(t)
      requires d >= 2 && Balanced(d, h, t, RootMin(t))
      modifies this`nodes
      ensures InMemory(nodes, Loaded(t)) && SameOutside(old(nodes), nodes, Ids(t))
      decreases t, 1
    {
      assert pid in Ids(t);
      var node := Deserialize(pages[pid]);
      if !node.isLeaf {
        LoadedChildIds(pages, d, h, t);
        LoadChildren(node.childIds, d, h, t);
        node := node.(children := node.childIds);
      }
      ghost var before := nodes;
      nodes := nodes[pid := node];
      LoadedInMemory(t, before, nodes);
    }

    method LoadChildren(childIds: seq<PageId>, ghost d: nat, ghost h: nat, ghost t: Tree)
      requires OnDisk(pages, t) && Distinct(t) && t.Inner? && childIds == RootIds(t.children)
      requires d >= 2 && Balanced(d, h, t, 1)
      modifies this`nodes
      ensures ChildrenLoaded(nodes, t, |t.children|) && SameOutside(old(nodes), nodes, Ids(t))
      decreases t, 0
    {
      for i := 0 to |childIds|
        invariant ChildrenLoaded(nodes, t, i) && SameOutside(old(nodes), nodes, Ids(t))
      {
        ghost var before := nodes;
        ChildIds(t, i);
        BalancedMin(d, h - 1, t.children[i], d - 1, RootMin(t.children[i]));
        LoadNode(childIds[i], d, h - 1, t.children[i]);
        OneMoreLoaded(t, i, before, nodes);
        SameOutsideTrans(old(nodes), before, nodes, Ids(t), Ids(t.children[i]), Ids(t));
      }
    }
  }

  /** The first `n` children of `t` are in memory as read back. */
  ghost predicate ChildrenLoaded(m: map<PageId, Node>, t: Tree, n: nat)
    requires t.Inner? && n <= |t.children|
  {
    forall j | 0 <= j < n :: InMemory(m, Loaded(t.children[j]))
  }

  lemma {:induction false} OneMoreLoaded(t: Tree, i: nat, m: map<PageId, Node>, m': map<PageId, Node>)
    requires t.Inner? && i < |t.children| && Distinct(t) && ChildrenLoaded(m, t, i)
    requires InMemory(m', Loaded(t.children[i])) && SameOutside(m, m', Ids(t.children[i]))
    ensures ChildrenLoaded(m', t, i + 1)
  {
    forall j | 0 <= j < i
      ensures InMemory(m', Loaded(t.children[j]))
    {
      LoadedSame(t.children[j]);
      InMemoryFrame(m, m', Loaded(t.children[j]), Ids(t.children[i]));
    }
  }

  /** The child ids on an inner node's page are those of its children. */
  lemma {:induction false} LoadedChildIds(g: map<PageId, Image>, d: nat, h: nat, t: Tree)
    requires OnDisk(g, t) && t.Inner? && Balanced(d, h, t, 1)
    ensures Deserialize(g[t.id]).childIds == RootIds(t.children) == RootIds(Loaded(t).children)
    ensures Deserialize(g[t.id]) == NodeOf(Loaded(t)).(children := [])
  {
    assert RootIds(t.children) == RootIds(Loaded(t).children);
  }

  lemma {:induction false} LoadedInMemory(t: Tree, m: map<PageId, Node>, m': map<PageId, Node>)
    requires Distinct(t) && m' == m[t.id := NodeOf(Loaded(t))]
    requires t.Inner? ==> ChildrenLoaded(m, t, |t.children|)
    ensures InMemory(m', Loaded(t))
  {
    if t.Inner? {
      forall j | 0 <= j < |t.children|
        ensures InMemory(m', Loaded(t).children[j])
      {
        ChildIds(t, j);
        LoadedSame(t.children[j]);
        InMemoryFrame(m, m', Loaded(t.children[j]), {t.id});
      }
    }
  }

  /** The pages of a tree are also those of the tree read back from them. */
  lemma {:induction false} LoadedOnDisk(g: map<PageId, Image>, t: Tree)
    requires OnDisk(g, t)
    ensures OnDisk(g, Loaded(t))
    decreases t
  {
    if t.Inner? {
      assert RootIds(t.children) == RootIds(Loaded(t).children);
      forall i | 0 <= i < |t.children|
        ensures OnDisk(g, Loaded(t).children[i])
      {
        LoadedOnDisk(g, t.children[i]);
      }
    }
  }

  /** What `remove` needs of an index: balance, synchronised key caches, and pages used once. */
  ghost predicate Removable(d: nat, x: Index) {
    x.Rooted? ==>
      && Balanced(d, Height(x.tree), x.tree, RootMin(x.tree)) && Synced(x.tree) && Distinct(x.tree)
      && forall i | i in Ids(x.tree) :: 1 <= i
  }

  /** A child of a nonempty balanced tree, as the walk to its end key sees it. */
  lemma {:induction false} EndChild(d: nat, h: nat, t: Tree, i: nat, m: map<PageId, Node>)
    requires d >= 2 && t.Inner? && Balanced(d, h, t, 1) && Synced(t) && InMemory(m, t) && i < |t.children|
    ensures var c := t.children[i];
            && h > 0 && Balanced(d, h - 1, c, 1) && Synced(c) && InMemory(m, c)
            && NodeOf(t).children[i] == c.id && m[c.id] == NodeOf(c)
            && |NodeOf(t).children| == |t.children|
            && LastKey(t) == LastKey(t.children[|t.children| - 1])
  {
    ChildFacts(d, h, t, i);
    BalancedMin(d, h - 1, t.children[i], d - 1, 1);
  }

  lemma {:induction false} PairBalanced(d: nat, h: nat, t: Tree, i: nat)
    requires d >= 2 && t.Inner? && Balanced(d, h, t, 1) && Synced(t) && i + 1 < |t.children|
    ensures h > 0 && Balanced(d, h - 1, t.children[i], 1) && Synced(t.children[i])
    ensures Balanced(d, h - 1, t.children[i + 1], 1) && Synced(t.children[i + 1])
  {
    ChildFacts(d, h, t, i);
    ChildFacts(d, h, t, i + 1);
    BalancedMin(d, h - 1, t.children[i], d - 1, 1);
    BalancedMin(d, h - 1, t.children[i + 1], d - 1, 1);
  }

  lemma ChildCount(d: nat, t: Tree)
    requires Siblings(d, t)
    ensures t.Inner? && |t.children| == |t.keys| + 1
  {
  }

  /** The store after only a separator of the root changed. */
  lemma {:induction false} SeparatorHeld(t: Tree, i: nat, k: Key, m: map<PageId, Node>, m': map<PageId, Node>)
    requires t.Inner? && i < |t.keys| && Distinct(t) && InMemory(m, t)
    requires m' == m[t.id := NodeOf(t).(keys := t.keys[i := k])]
    ensures InMemory(m', WithSeparator(t, i, k)) && SameOutside(m, m', Ids(t))
    ensures forall g | ChildrenOnDisk(g, t) :: ChildrenOnDisk(g, WithSeparator(t, i, k))
  {
    assert t.id in Ids(t);
    forall j | 0 <= j < |t.children|
      ensures InMemory(m', t.children[j])
    {
      ChildIds(t, j);
      InMemoryFrame(m, m', t.children[j], {t.id});
    }
  }

  /** The stores after a turn, a removal below and the write of the node itself. */
  lemma {:induction false} RemoveBelowHeld(d: nat, h: nat, r: Turn, zs: set<PageId>,
      m: map<PageId, Node>, m1: map<PageId, Node>, m2: map<PageId, Node>,
      g: map<PageId, Image>, g1: map<PageId, Image>, g2: map<PageId, Image>, g3: map<PageId, Image>)
    requires d >= 2 && r.node.Inner? && r.child < |r.node.children| && Distinct(r.node) && Ids(r.node) <= zs
    requires var c := r.node.children[r.child];
             && Balanced(d, h, c, RootMin(c)) && Synced(c)
             && InMemory(m1, r.node) && ChildrenOnDisk(g1, r.node) && SameOutside(m, m1, zs) && SameOutside(g, g1, zs)
             && var c' := RemoveFrom(d, h, c, r.key);
                InMemory(m2, c') && OnDisk(g2, c') && SameOutside(m1, m2, Ids(c)) && SameOutside(g1, g2, Ids(c))
    requires r.node.id in m2 && g3 == g2[r.node.id := Serialize(m2[r.node.id])]
    ensures var q := WithChild(r.node, r.child, RemoveFrom(d, h, r.node.children[r.child], r.key));
            InMemory(m2, q) && OnDisk(g3, q)
    ensures SameOutside(m, m2, zs) && SameOutside(g, g3, zs)
  {
    var c := r.node.children[r.child];
    var c' := RemoveFrom(d, h, c, r.key);
    ChildIds(r.node, r.child);
    assert r.node.id in Ids(r.node);
    RemoveKeepsIds(d, h, c, r.key);
    WithChildFewerIds(r.node, r.child, c');
    WithChildStores(r.node, r.child, c', Ids(c), m1, m2, g1, g2);
    RootWritten(g2, g3, WithChild(r.node, r.child, c'));
    FramesCompose(m, m1, m2, g, g1, g2, g3, zs, Ids(c), zs, r.node.id);
  }

  /** The records of two neighbours and of their parent. */
  lemma {:induction false} PairInMemory(d: nat, m: map<PageId, Node>, p: Tree, i: nat)
    requires Siblings(d, p) && Distinct(p) && i + 1 < |p.children| && InMemory(m, p)
    ensures p.Inner? && |p.children| == |p.keys| + 1 && p.id in m
    ensures InMemory(m, p.children[i]) && InMemory(m, p.children[i + 1])
    ensures var l, r := p.children[i], p.children[i + 1];
            && Sized(d, l) && Sized(d, r) && m[p.id] == NodeOf(p)
            && NodeOf(p).children[i] == l.id && NodeOf(p).children[i + 1] == r.id
            && l.id in m && m[l.id] == NodeOf(l) && r.id in m && m[r.id] == NodeOf(r)
            && l.id != r.id && l.id != p.id && r.id != p.id
            && (l.Leaf? <==> r.Leaf?)
  {
    PairOfDistinct(p, i);
    ChildIds(p, i);
    ChildIds(p, i + 1);
    assert InMemory(m, p.children[i]) && InMemory(m, p.children[i + 1]);
    assert p.children[i].id in Ids(p.children[i]) && p.children[i + 1].id in Ids(p.children[i + 1]);
  }

  lemma {:induction false} DescendCases(d: nat, h: nat, t: Tree, k: Key, last: nat)
    requires d >= 2 && Balanced(d, h, t, 0) && Size(t) < 2 * d - 1 && t.Inner?
    ensures var i := RouteInsert(t.keys, k);
            |t.children| == |t.keys| + 1 &&
            if Size(t.children[i]) == 2 * d - 1 then
              && Full(d, t.children[i])
              && var s := BTreeModel.SplitChild(d, t, i, last + 1);
                 Descend(d, h, t, k, last) == Step(s, if k > s.keys[i] then i + 1 else i, last + 1)
            else Descend(d, h, t, k, last) == Step(t, i, last)
  {
    assert Balanced(d, h - 1, t.children[RouteInsert(t.keys, k)], d - 1);
  }

  lemma ChildRecord(m: map<PageId, Node>, t: Tree, i: nat)
    requires t.Inner? && i < |t.children| && InMemory(m, t)
    ensures var c := t.children[i];
            && t.id in m && !m[t.id].isLeaf && m[t.id].keys == t.keys && |m[t.id].children| == |t.children|
               && m[t.id].children[i] == c.id
            && c.id in m && m[c.id] == NodeOf(c)
  {
    assert InMemory(m, t.children[i]);
  }

  lemma SplitRecord(m: map<PageId, Node>, d: nat, t: Tree, i: nat, newId: PageId)
    requires d >= 2 && t.Inner? && |t.children| == |t.keys| + 1 && i < |t.children| && Full(d, t.children[i])
    requires InMemory(m, BTreeModel.SplitChild(d, t, i, newId))
    ensures var s := BTreeModel.SplitChild(d, t, i, newId);
            t.id in m && m[t.id].keys == s.keys && i < |s.keys|
  {
  }

  lemma SameOutsideSelf(m: map<PageId, Node>, g: map<PageId, Image>, xs: set<PageId>)
    ensures SameOutside(m, m, xs) && SameOutside(g, g, xs)
  {
  }

  lemma SplitIdsUsed(t: Tree, last: nat)
    ensures Ids(t) + {last + 1} <= Ids(t) + NewPages(last, last + 1)
  {
  }

  /** A descent step and the recursive insertion touch only the tree's own pages and new ones. */
  lemma {:induction false} InsertTouches(d: nat, h: nat, t: Tree, e: Entry, last: nat)
    requires d >= 2 && Balanced(d, h, t, 0) && Size(t) < 2 * d - 1 && t.Inner?
    requires Distinct(t) && IdsWithin(t, last)
    ensures var s := Descend(d, h, t, e.key, last);
            var c := s.node.children[s.child];
            var below := InsertNonFull(d, h - 1, c, e, s.last);
            var zs := Ids(t) + NewPages(last, below.last);
            && Ids(t) + NewPages(last, s.last) <= zs && Ids(c) + NewPages(s.last, below.last) <= zs && t.id in zs
  {
    var s := Descend(d, h, t, e.key, last);
    DescendKeepsIds(d, h, t, e.key, last);
    InsertKeepsIds(d, h - 1, s.node.children[s.child], e, s.last);
    assert t.id in Ids(t);
  }

  lemma {:induction false} ChildStored(m: map<PageId, Node>, g: map<PageId, Image>, p: Tree, j: nat, last: nat)
    requires p.Inner? && j < |p.children| && Distinct(p) && IdsWithin(p, last)
    requires InMemory(m, p) && ChildrenOnDisk(g, p)
    ensures var c := p.children[j];
            && InMemory(m, c) && ChildrenOnDisk(g, c) && Distinct(c) && IdsWithin(c, last) && p.id !in Ids(c)
               && p.id <= last
    ensures p.id in m && |m[p.id].children| == |p.children| && m[p.id].children[j] == p.children[j].id
  {
    ChildIds(p, j);
    assert p.id in Ids(p) && OnDisk(g, p.children[j]);
  }

  /** The stores after an insertion below a child, once the node's own page is written. */
  lemma {:induction false} BelowStores(p: Tree, j: nat, c': Tree, last: nat, last': nat,
      m: map<PageId, Node>, m': map<PageId, Node>,
      g: map<PageId, Image>, g': map<PageId, Image>, g'': map<PageId, Image>)
    requires p.Inner? && j < |p.children| && Distinct(p) && IdsWithin(p, last) && last <= last'
    requires var c := p.children[j];
             c'.id == c.id && Distinct(c') && Ids(c') == Ids(c) + NewPages(last, last')
    requires var ys := Ids(p.children[j]) + NewPages(last, last');
             && InMemory(m, p) && ChildrenOnDisk(g, p)
             && InMemory(m', c') && OnDisk(g', c')
             && SameOutside(m, m', ys) && SameOutside(g, g', ys)
             && p.id in m' && g'' == g'[p.id := Serialize(m'[p.id])]
    ensures InMemory(m', WithChild(p, j, c')) && OnDisk(g'', WithChild(p, j, c'))
  {
    ChildIds(p, j);
    WithChildIds(p, j, c', NewPages(last, last'));
    WithChildStores(p, j, c', Ids(p.children[j]) + NewPages(last, last'), m, m', g, g');
    RootWritten(g', g'', WithChild(p, j, c'));
  }

  lemma {:induction false} InsertKeepsId(d: nat, h: nat, t: Tree, e: Entry, last: nat)
    requires d >= 2 && Balanced(d, h, t, 0) && Size(t) < 2 * d - 1
    ensures InsertNonFull(d, h, t, e, last).tree.id == t.id
  {
    if t.Inner? {
      DescendCases(d, h, t, e.key, last);
    }
  }

  /** One step of a search's descent. */
  lemma {:induction false} SearchStep(point: bool, t: Tree, k: Key, lo: Bound, hi: Bound, m: map<PageId, Node>)
    requires t.Inner? && Ordered(false, t, lo, hi) && InMemory(m, t)
    ensures var i := Route(point, t.keys, k);
            && i < |t.children| && InMemory(m, t.children[i]) && NodeOf(t).children[i] == t.children[i].id
            && m[t.children[i].id] == NodeOf(t.children[i])
            && Ordered(false, t.children[i], LoOf(t.keys, lo, i), HiOf(t.keys, hi, i))
            && LeafFor(point, t.children[i], k) == LeafFor(point, t, k)
  {
  }

  /** What a scan of the leaf chain of a valid tree relies on. */
  lemma {:induction false} ScanFacts(point: bool, t: Tree, k: Key)
    requires Ordered(false, t, Unbounded, Unbounded) && Linked(false, t, NULL_PAGE)
    ensures var ls, m := Leaves(t), LeafIndex(point, t, k);
            && m < |ls| && ls[m] == LeafFor(point, t, k) && EntriesFrom(point, t, k) == EntriesOf(ls[m..])
            && SortedEntries(false, EntriesOf(ls[m..]))
            && forall j | 0 <= j < |ls| :: ls[j].Leaf?
  {
    LeafReached(point, false, t, k, Unbounded, Unbounded);
    LeavesChain(t, NULL_PAGE);
    FromSorted(point, false, t, k);
  }

  /** The persisted sibling id of the j-th leaf is null after the last one, else names a page that
      holds the next leaf. */
  lemma {:induction false} NextLeaf(t: Tree, g: map<PageId, Image>, j: nat)
    requires Linked(false, t, NULL_PAGE) && OnDisk(g, t) && j < |Leaves(t)|
    requires forall x | x in Ids(t) :: 1 <= x
    ensures var ls := Leaves(t);
            && ls[j].Leaf?
            && (ls[j].nextPid <= -1 <==> j + 1 == |ls|)
            && (j + 1 < |ls| ==>
                  && ls[j + 1].Leaf? && ls[j].nextPid in g
                  && Deserialize(g[ls[j].nextPid]).entries == ls[j + 1].entries
                  && Deserialize(g[ls[j].nextPid]).nextPid == ls[j + 1].nextPid)
  {
    var ls := Leaves(t);
    LeavesChain(t, NULL_PAGE);
    assert ls[j].nextPid == IdAfter(ls, j, NULL_PAGE);
    if j + 1 < |ls| {
      LeafPages(g, t, j + 1);
      assert ls[j + 1].Leaf?;
    }
  }

  /** One more leaf scanned; once it holds a key above the range, no later leaf has one in range. */
  lemma NothingInRange(lower: Key, upper: Key)
    ensures InRange(EntriesOf([]), lower, upper) == []
  {
  }

  lemma {:induction false} ScanProgress(ls: seq<Tree>, m: nat, j: nat, lower: Key, upper: Key)
    requires m <= j < |ls| && ls[j].Leaf? && SortedEntries(false, EntriesOf(ls[m..]))
    ensures SortedEntries(false, ls[j].entries)
    ensures InRange(EntriesOf(ls[m..j + 1]), lower, upper)
         == InRange(EntriesOf(ls[m..j]), lower, upper) + InRange(ls[j].entries, lower, upper)
    ensures (exists p :: 0 <= p < |ls[j].entries| && ls[j].entries[p].key > upper) ==>
              InRange(EntriesOf(ls[m..]), lower, upper) == InRange(EntriesOf(ls[m..j + 1]), lower, upper)
  {
    ScanStep(ls, m, j);
    var a, b, c := EntriesOf(ls[m..j]), ls[j].entries, EntriesOf(ls[j + 1..]);
    SortedParts(false, a, b, c);
    InRangeConcat(a, b, lower, upper);
    InRangeConcat(a + b, c, lower, upper);
    if p :| 0 <= p < |b| && b[p].key > upper {
      InRangeEmpty(c, lower, upper);
    }
  }

  lemma {:induction false} PreparedFacts(d: nat, root: Tree, last: nat)
    requires ValidTree(d, Height(root), false, root, last)
    ensures Balanced(d, Height(root), root, 0) && (Size(root) == 2 * d - 1 ==> Full(d, root))
    ensures var r := Prepared(d, root, last); Distinct(r.root) && IdsWithin(r.root, r.last)
  {
    BalancedMin(d, Height(root), root, RootMin(root), 0);
    if Size(root) == 2 * d - 1 {
      NewRootKeeps(d, Height(root), false, root, last);
    }
  }

  lemma {:induction false} DescendDistinct(d: nat, h: nat, t: Tree, k: Key, last: nat)
    requires d >= 2 && Balanced(d, h, t, 0) && Size(t) < 2 * d - 1 && t.Inner?
    requires Distinct(t) && IdsWithin(t, last)
    ensures var s := Descend(d, h, t, k, last);
            var c := s.node.children[s.child];
            s.node.id == t.id && Distinct(s.node) && IdsWithin(s.node, s.last) && Distinct(c) && IdsWithin(c, s.last)
  {
    DescendKeepsIds(d, h, t, k, last);
  }

  /** After one child's subtree changed in the stores, they hold the tree with that child replaced. */
  lemma {:induction false} WithChildStores(p: Tree, j: nat, c: Tree, xs: set<PageId>,
      m: map<PageId, Node>, m': map<PageId, Node>, g: map<PageId, Image>, g': map<PageId, Image>)
    requires p.Inner? && j < |p.children| && Distinct(p) && c.id == p.children[j].id
    requires xs * Ids(p) <= Ids(p.children[j])
    requires InMemory(m, p) && ChildrenOnDisk(g, p) && InMemory(m', c) && OnDisk(g', c)
    requires SameOutside(m, m', xs) && SameOutside(g, g', xs)
    ensures InMemory(m', WithChild(p, j, c)) && ChildrenOnDisk(g', WithChild(p, j, c))
  {
    var q := WithChild(p, j, c);
    assert RootIds(q.children) == RootIds(p.children);
    assert p.id in Ids(p) && p.id !in Ids(p.children[j]);
    forall i | 0 <= i < |q.children|
      ensures InMemory(m', q.children[i]) && OnDisk(g', q.children[i])
    {
      if i != j {
        assert Ids(p.children[i]) <= Ids(p) && Ids(p.children[i]) !! Ids(p.children[j]);
        InMemoryFrame(m, m', p.children[i], xs);
        OnDiskFrame(g, g', p.children[i], xs);
      }
    }
  }

  /** The records of a parent and of the two halves of its split child. */
  lemma {:induction false} SplitRecords(d: nat, p: Tree, i: nat, newId: PageId)
    requires d >= 2 && p.Inner? && |p.children| == |p.keys| + 1 && i < |p.children| && Full(d, p.children[i])
    ensures var c, s, pn := p.children[i], SplitChild(d, p, i, newId), NodeOf(p);
            && s.children[i] == Split(d, c, newId).left && s.children[i + 1] == Split(d, c, newId).right
            && s.children[i].id == c.id && s.children[i + 1].id == newId
            && NodeOf(s) == pn.(keys := pn.keys[..i] + [Split(d, c, newId).sep] + pn.keys[i..],
                                children := pn.children[..i + 1] + [newId] + pn.children[i + 1..],
                                childIds := pn.childIds[..i + 1] + [newId] + pn.childIds[i + 1..])
    ensures var c, s := p.children[i], SplitChild(d, p, i, newId);
            var cn := NodeOf(c);
            if c.Leaf? then
              && NodeOf(s.children[i + 1]) == Node(true, cn.entries[d - 1..], KeysOf(cn.entries[d - 1..]), [], [],
                 cn.next, cn.nextPid)
              && NodeOf(s.children[i]) == cn.(entries := cn.entries[..d - 1], keys := KeysOf(cn.entries[..d - 1]),
                                              nextPid := newId, next := newId)
            else
              && NodeOf(s.children[i + 1]) == Node(false, [], cn.keys[d..], cn.children[d..], cn.childIds[d..],
                 NULL_PAGE, NULL_PAGE)
              && NodeOf(s.children[i]) == cn.(keys := cn.keys[..d - 1], children := cn.children[..d],
                 childIds := cn.childIds[..d])
  {
    var c, s, pn := p.children[i], SplitChild(d, p, i, newId), NodeOf(p);
    SpliceRootIds(p.children, i, s.children[i], s.children[i + 1], newId);
    if c.Inner? {
      assert RootIds(c.children[d..]) == RootIds(c.children)[d..];
      assert RootIds(c.children[..d]) == RootIds(c.children)[..d];
    }
  }

  lemma {:induction false} SpliceRootIds(cs: seq<Tree>, i: nat, l: Tree, r: Tree, newId: PageId)
    requires i < |cs| && l.id == cs[i].id && r.id == newId
    ensures RootIds(cs[..i] + [l, r] + cs[i + 1..]) == RootIds(cs)[..i + 1] + [newId] + RootIds(cs)[i + 1..]
  {
  }

  /** A store that changed only the records of a split holds the split tree. */
  lemma {:induction false} SplitStores(d: nat, p: Tree, i: nat, newId: PageId,
      m: map<PageId, Node>, m': map<PageId, Node>, g: map<PageId, Image>, g': map<PageId, Image>)
    requires d >= 2 && p.Inner? && |p.children| == |p.keys| + 1 && i < |p.children|
    requires Full(d, p.children[i]) && Distinct(p) && newId !in Ids(p)
    requires InMemory(m, p) && ChildrenOnDisk(g, p)
    requires var c, s := p.children[i], SplitChild(d, p, i, newId);
             var l, r := NodeOf(s.children[i]), NodeOf(s.children[i + 1]);
             && m' == m[c.id := l][newId := r][p.id := NodeOf(s)]
             && g' == g[c.id := Serialize(l)][newId := Serialize(r)]
    ensures InMemory(m', SplitChild(d, p, i, newId)) && ChildrenOnDisk(g', SplitChild(d, p, i, newId))
    ensures forall xs | Ids(p) + {newId} <= xs :: SameOutside(m, m', xs) && SameOutside(g, g', xs)
  {
    hide SplitChild, Split, Full, Ids, Distinct, InMemory, OnDisk, Serialize, NodeOf;
    var c, s, xs := p.children[i], SplitChild(d, p, i, newId), {p.id, p.children[i].id, newId};
    SplitShape(d, p, i, newId);
    PartHeld(m, g, p, i);
    assert SameOutside(m, m', xs) && SameOutside(g, g', xs);
    forall j | 0 <= j < |s.children|
      ensures InMemory(m', s.children[j]) && OnDisk(g', s.children[j])
    {
      if j < i || j > i + 1 {
        SiblingStored(p, i, if j < i then j else j - 1, xs, m, m', g, g');
      } else {
        HalfStores(d, c, newId, xs, m, m', g, g', s.children[j]);
      }
    }
    RootHeld(m', s);
  }

  lemma SplitShape(d: nat, p: Tree, i: nat, newId: PageId)
    requires d >= 2 && p.Inner? && |p.children| == |p.keys| + 1 && i < |p.children| && Full(d, p.children[i])
    ensures var s, hv := SplitChild(d, p, i, newId), Split(d, p.children[i], newId);
            && s.Inner? && s.id == p.id && |s.children| == |p.children| + 1
            && s.children[i] == hv.left && s.children[i + 1] == hv.right
            && hv.left.id == p.children[i].id && hv.right.id == newId
            && (forall j | 0 <= j < i :: s.children[j] == p.children[j])
            && forall j | i + 1 < j < |s.children| :: s.children[j] == p.children[j - 1]
  {
  }

  lemma PartHeld(m: map<PageId, Node>, g: map<PageId, Image>, p: Tree, i: nat)
    requires p.Inner? && i < |p.children| && Distinct(p) && InMemory(m, p) && ChildrenOnDisk(g, p)
    ensures var c := p.children[i];
            && Distinct(c) && InMemory(m, c) && OnDisk(g, c)
            && p.id in Ids(p) && c.id in Ids(c) && Ids(c) <= Ids(p) && p.id !in Ids(c)
  {
    ChildIds(p, i);
  }

  lemma RootHeld(m: map<PageId, Node>, t: Tree)
    requires t.id in m && m[t.id] == NodeOf(t)
    requires t.Inner? ==> forall j | 0 <= j < |t.children| :: InMemory(m, t.children[j])
    ensures InMemory(m, t)
  {
  }

  /** A child that the split did not touch. */
  lemma {:induction false} SiblingStored(p: Tree, i: nat, j: nat, xs: set<PageId>,
      m: map<PageId, Node>, m': map<PageId, Node>, g: map<PageId, Image>, g': map<PageId, Image>)
    requires p.Inner? && i < |p.children| && j < |p.children| && i != j && Distinct(p)
    requires InMemory(m, p) && ChildrenOnDisk(g, p) && xs * Ids(p) <= {p.id, p.children[i].id}
    requires SameOutside(m, m', xs) && SameOutside(g, g', xs)
    ensures InMemory(m', p.children[j]) && OnDisk(g', p.children[j])
  {
    ChildIds(p, j);
    var c := p.children[i];
    assert c.id in Ids(c) && Ids(p.children[j]) !! Ids(c) by { assert i < j || j < i; }
    forall x | x in xs
      ensures x !in Ids(p.children[j])
    {
      assert x in Ids(p) ==> x in xs * Ids(p);
    }
    assert InMemory(m, p.children[j]) && OnDisk(g, p.children[j]);
    InMemoryFrame(m, m', p.children[j], xs);
    OnDiskFrame(g, g', p.children[j], xs);
  }

  lemma {:induction false} HalfStores(d: nat, c: Tree, newId: PageId, xs: set<PageId>,
      m: map<PageId, Node>, m': map<PageId, Node>, g: map<PageId, Image>, g': map<PageId, Image>, half: Tree)
    requires d >= 2 && Full(d, c) && Distinct(c) && InMemory(m, c) && OnDisk(g, c)
    requires half == Split(d, c, newId).left || half == Split(d, c, newId).right
    requires SameOutside(m, m', xs) && SameOutside(g, g', xs) && Ids(c) * xs <= {c.id}
    requires half.id in m' && m'[half.id] == NodeOf(half) && half.id in g' && g'[half.id] == Serialize(NodeOf(half))
    ensures InMemory(m', half) && OnDisk(g', half)
  {
    if half.Inner? {
      forall j | 0 <= j < |half.children|
        ensures InMemory(m', half.children[j]) && OnDisk(g', half.children[j])
      {
        var o := if half == Split(d, c, newId).left then j else j + d;
        assert half.children[j] == c.children[o];
        assert Ids(c.children[o]) <= Ids(c);
        InMemoryFrame(m, m', c.children[o], xs);
        OnDiskFrame(g, g', c.children[o], xs);
      }
    }
  }
}
