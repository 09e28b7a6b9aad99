/** The LRU order kept as a doubly linked list with two sentinels and a map from keys to nodes. */
module LruList {
  import opened PoolModel

  class Frame {
    var key: int
    var next: Frame?
    var prev: Frame?

    constructor (key: int)
      ensures this.key == key && this.next == null && this.prev == null
    {
      this.key := key;
      next := null;
      prev := null;
    }
  }

  lemma {:induction false} WithoutAt(s: seq<nat>, i: nat)
    requires i < |s| && NoDuplicates(s)
    ensures Without(s, s[i]) == s[..i] + s[i + 1..]
  {
    assert NoDuplicates(s[1..]);
    if i == 0 {
      WithoutAbsent(s[1..], s[0]);
    } else {
      WithoutAt(s[1..], i - 1);
      assert s[1..][..i - 1] == s[1..i] && s[1..][i..] == s[i + 1..];
      assert [s[0]] + s[1..i] == s[..i];
    }
  }

  lemma {:induction false} WithoutAbsent(s: seq<nat>, x: nat)
    requires x !in s
    ensures Without(s, x) == s
  {
    if s != [] { WithoutAbsent(s[1..], x); }
  }

  /** The sequence without its i-th element. */
  ghost function Cut<T>(s: seq<T>, i: nat): (r: seq<T>)
    requires i < |s|
    ensures |r| == |s| - 1
    ensures forall j | 0 <= j < |r| :: r[j] == if j < i then s[j] else s[j + 1]
  {
    seq(|s| - 1, j requires 0 <= j < |s| - 1 => if j < i then s[j] else s[j + 1])
  }

  /** The i-th node occurs only there, points at its neighbours and holds its key. */
  ghost predicate LinkAt(chain: seq<Frame>, keys: seq<nat>, repr: set<Frame>, i: nat)
    requires i < |chain| == |keys| + 2
    reads repr
  {
    && chain[i] in repr
    && (i + 1 < |chain| ==> chain[i].next == chain[i + 1])
    && (i > 0 ==> chain[i].prev == chain[i - 1])
    && (0 < i <= |keys| ==> chain[i].key == keys[i - 1])
    && Elsewhere(chain, i, chain[i])
  }

  ghost predicate Elsewhere(chain: seq<Frame>, i: int, f: Frame) {
    forall j | 0 <= j < |chain| && j != i :: chain[j] != f
  }

  /** The nodes are distinct and doubly linked in this order. */
  ghost predicate Chained(chain: seq<Frame>, keys: seq<nat>, repr: set<Frame>)
    reads repr
  {
    |chain| == |keys| + 2 && forall i: nat {:trigger LinkAt(chain, keys, repr, i)} | i < |chain| ::
        LinkAt(chain, keys, repr, i)
  }

  /** The map finds the node of the i-th key. */
  predicate FoundAt(chain: seq<Frame>, keys: seq<nat>, framesMap: map<nat, Frame>, i: nat)
    requires i < |keys| && |chain| == |keys| + 2
  {
    keys[i] in framesMap && framesMap[keys[i]] == chain[i + 1]
  }

  /** The map finds the node of each key, and has no other keys. */
  ghost predicate Indexed(chain: seq<Frame>, keys: seq<nat>, framesMap: map<nat, Frame>) {
    && |chain| == |keys| + 2 && NoDuplicates(keys) && |framesMap| == |keys|
    && (forall i: nat {:trigger FoundAt(chain, keys, framesMap, i)} | i < |keys| :: FoundAt(chain, keys, framesMap, i))
    && (forall k | k in framesMap :: k in keys)
  }

  ghost function Position(keys: seq<nat>, k: nat): (i: nat)
    requires k in keys
    ensures i < |keys| && keys[i] == k
  {
    if keys[0] == k then 0 else 1 + Position(keys[1..], k)
  }

  lemma {:induction false} Listed(chain: seq<Frame>, keys: seq<nat>, framesMap: map<nat, Frame>, k: nat)
    requires Indexed(chain, keys, framesMap)
    ensures k in keys <==> k in framesMap
  {
    if k in keys {
      var i: nat :| i < |keys| && keys[i] == k;
      assert FoundAt(chain, keys, framesMap, i);
    }
  }

  lemma {:induction false} CutMembers(keys: seq<nat>, i: nat)
    requires NoDuplicates(keys) && i < |keys|
    ensures NoDuplicates(Cut(keys, i)) && Without(keys, keys[i]) == Cut(keys, i)
    ensures forall k :: k in Cut(keys, i) <==> k in keys && k != keys[i]
  {
    WithoutAt(keys, i);
    forall x, y | 0 <= x < y < |keys| - 1
      ensures Cut(keys, i)[x] != Cut(keys, i)[y]
    {
    }
  }

  lemma {:induction false} CutIndexed(chain: seq<Frame>, keys: seq<nat>, framesMap: map<nat, Frame>, i: nat)
    requires Indexed(chain, keys, framesMap) && i < |keys|
    ensures Indexed(Cut(chain, i + 1), Cut(keys, i), framesMap - {keys[i]})
    ensures Without(keys, keys[i]) == Cut(keys, i)
  {
    CutMembers(keys, i);
    var chain', keys', framesMap' := Cut(chain, i + 1), Cut(keys, i), framesMap - {keys[i]};
    forall j: nat | j < |keys'|
      ensures FoundAt(chain', keys', framesMap', j)
    {
      assert keys'[j] in keys';
      assert FoundAt(chain, keys, framesMap, if j < i then j else j + 1);
    }
    assert forall k | k in framesMap' :: k in keys';
    assert FoundAt(chain, keys, framesMap, i);
    assert framesMap'.Keys == framesMap.Keys - {keys[i]};
    assert |framesMap'| == |framesMap'.Keys| && |framesMap| == |framesMap.Keys|;
  }

  lemma {:induction false} PushIndexed(chain: seq<Frame>, keys: seq<nat>, framesMap: map<nat, Frame>, node: Frame,
      key: nat)
    requires Indexed(chain, keys, framesMap) && key !in keys
    ensures Indexed([chain[0], node] + chain[1..], [key] + keys, framesMap[key := node])
    ensures Touch(keys, key) == [key] + keys
  {
    WithoutAbsent(keys, key);
    var chain', keys', framesMap' := [chain[0], node] + chain[1..], [key] + keys, framesMap[key := node];
    forall j: nat | j < |keys'|
      ensures FoundAt(chain', keys', framesMap', j)
    {
      if j > 0 { assert FoundAt(chain, keys, framesMap, j - 1); }
    }
    assert forall k | k in framesMap' :: k in keys';
    assert framesMap'.Keys == framesMap.Keys + {key};
  }

  lemma {:induction false} FoundFacts(chain: seq<Frame>, keys: seq<nat>, framesMap: map<nat, Frame>, i: nat)
    requires Indexed(chain, keys, framesMap) && i < |keys|
    ensures |chain| == |keys| + 2 && keys[i] in framesMap && framesMap[keys[i]] == chain[i + 1]
  {
    assert FoundAt(chain, keys, framesMap, i);
  }

  lemma {:induction false} RefreshIndexed(chain: seq<Frame>, keys: seq<nat>, framesMap: map<nat, Frame>, i: nat)
    requires Indexed(chain, keys, framesMap) && i < |keys|
    ensures var cut := Cut(chain, i + 1);
            Indexed([cut[0], chain[i + 1]] + cut[1..], Touch(keys, keys[i]), framesMap)
    ensures Touch(keys, keys[i]) == [keys[i]] + Cut(keys, i)
  {
    hide Indexed, NoDuplicates, Without, FoundAt, Cut;
    FoundFacts(chain, keys, framesMap, i);
    CutIndexed(chain, keys, framesMap, i);
    PushIndexed(Cut(chain, i + 1), Cut(keys, i), framesMap - {keys[i]}, chain[i + 1], keys[i]);
    assert (framesMap - {keys[i]})[keys[i] := chain[i + 1]] == framesMap;
  }

  class Lru {
    const capacity: nat
    const head: Frame
    const tail: Frame
    var framesMap: map<nat, Frame>
    /** All nodes from head to tail. */
    ghost var chain: seq<Frame>
    /** The keys, most recently used first. */
    ghost var keys: seq<nat>
    ghost var repr: set<Frame>

    ghost predicate Valid()
      reads this, repr
    {
      && capacity > 0 && Chained(chain, keys, repr) && chain[0] == head && chain[|chain| - 1] == tail
      && Indexed(chain, keys, framesMap)
    }

    constructor (capacity: nat)
      requires capacity > 0
      ensures Valid() && keys == [] && this.capacity == capacity && fresh(repr)
    {
      this.capacity := capacity;
      var h := new Frame(-1);
      var t := new Frame(-1);
      head := h;
      tail := t;
      framesMap := map[];
      chain := [h, t];
      keys := [];
      repr := {h, t};
      new;
      h.next := t;
      t.prev := h;
    }

    /** Takes the i-th node out of the list. */
    method Unlink(node: Frame, ghost i: nat)
      requires Chained(chain, keys, repr) && 0 < i <= |keys| && chain[i] == node
      modifies this`chain, this`keys, repr
      ensures chain == Cut(old(chain), i) && keys == Cut(old(keys), i - 1) && Chained(chain, keys, repr)
      ensures Elsewhere(chain, -1, node) && node.key == old(node.key)
    {
      assert LinkAt(chain, keys, repr, i) && LinkAt(chain, keys, repr, i - 1) && LinkAt(chain, keys, repr, i + 1);
      node.prev.next := node.next;
      node.next.prev := node.prev;
      chain := Cut(chain, i);
      keys := Cut(keys, i - 1);
      forall j: nat | j < |chain|
        ensures LinkAt(chain, keys, repr, j)
      {
        assert old(LinkAt(chain, keys, repr, if j < i then j else j + 1));
      }
    }

    /** Puts a node in front of all others. */
    method PushFront(node: Frame)
      requires Chained(chain, keys, repr) && Elsewhere(chain, -1, node) && chain[0] == head && node.key >= 0
      modifies this`chain, this`keys, this`repr, node, repr
      ensures chain == [head, node] + old(chain[1..]) && keys == [node.key] + old(keys) && repr == old(repr) + {node}
      ensures Chained(chain, keys, repr) && node.key == old(node.key)
      ensures chain[|chain| - 1] == old(chain[|chain| - 1])
    {
      assert LinkAt(chain, keys, repr, 0) && LinkAt(chain, keys, repr, 1);
      var first := head.next;
      first.prev := node;
      node.next := first;
      head.next := node;
      node.prev := head;
      chain := [head, node] + chain[1..];
      keys := [node.key] + keys;
      repr := repr + {node};
      forall j: nat | j < |chain|
        ensures LinkAt(chain, keys, repr, j)
      {
        assert old(LinkAt(chain, keys, repr, if j < 2 then 0 else j - 1));
      }
    }

    /** Adds or refreshes a key; a full list first drops its least recently used key. */
    method PutFrame(key: nat)
      requires Valid()
      modifies this, repr
      ensures Valid() && fresh(repr - old(repr))
      ensures keys == if key in old(keys) || old(|keys|) != capacity then Touch(old(keys), key)
                      else [key] + old(keys[..|keys| - 1])
    {
      Listed(chain, keys, framesMap, key);
      if key in framesMap {
        MoveToFront(key);
        return;
      }
      if |framesMap| == capacity {
        var gone := DropLast();
      }
      Listed(chain, keys, framesMap, key);
      AddFront(key);
    }

    method AddFront(key: nat)
      requires Valid() && key !in keys
      modifies this, repr
      ensures Valid() && fresh(repr - old(repr)) && keys == Touch(old(keys), key) == [key] + old(keys)
    {
      var node := new Frame(key);
      PushIndexed(chain, keys, framesMap, node, key);
      framesMap := framesMap[key := node];
      ElsewhereFresh(node);
      PushFront(node);
    }

    lemma ElsewhereFresh(node: Frame)
      requires Chained(chain, keys, repr) && node !in repr
      ensures Elsewhere(chain, -1, node)
    {
      forall j | 0 <= j < |chain|
        ensures chain[j] != node
      {
        assert LinkAt(chain, keys, repr, j);
      }
    }

    /** Moves the node of a listed key to the front. */
    method MoveToFront(key: nat)
      requires Valid() && key in framesMap
      modifies this`chain, this`keys, this`repr, repr
      ensures Valid() && repr == old(repr) && keys == Touch(old(keys), key)
    {
      ghost var i := Position(keys, key);
      Refresh(key, i);
    }

    method Refresh(key: nat, ghost i: nat)
      requires Valid() && i < |keys| && keys[i] == key
      modifies this`chain, this`keys, this`repr, repr
      ensures Valid() && repr == old(repr) && keys == Touch(old(keys), key)
    {
      assert FoundAt(chain, keys, framesMap, i) && LinkAt(chain, keys, repr, i + 1);
      var node := framesMap[key];
      TakeOut(node, i);
      PushFront(node);
    }

    /** Takes the node of the i-th key out of the list but not out of the map. */
    method TakeOut(node: Frame, ghost i: nat)
      requires Valid() && i < |keys| && chain[i + 1] == node && node.key == keys[i]
      modifies this`chain, this`keys, repr
      ensures Chained(chain, keys, repr) && Elsewhere(chain, -1, node) && node.key == old(node.key)
      ensures chain[0] == head && chain[|chain| - 1] == tail
      ensures Indexed([head, node] + chain[1..], [old(keys)[i]] + keys, framesMap)
      ensures [old(keys)[i]] + keys == Touch(old(keys), old(keys)[i])
    {
      hide Indexed, Chained;
      RefreshIndexed(chain, keys, framesMap, i);
      Unlink(node, i + 1);
    }

    /** A listed key becomes the most recently used. */
    method GetFrame(key: nat) returns (found: bool)
      requires Valid()
      modifies this`chain, this`keys, this`repr, repr
      ensures Valid() && repr == old(repr)
      ensures keys == if key in old(keys) then Touch(old(keys), key) else old(keys)
      ensures found == (key in old(keys))
    {
      Listed(chain, keys, framesMap, key);
      if key in framesMap {
        MoveToFront(key);
        return true;
      }
      return false;
    }

    /** Takes the i-th key and its node out. */
    method Detach(key: nat, ghost i: nat)
      requires Valid() && i < |keys| && keys[i] == key
      modifies this`framesMap, this`chain, this`keys, repr
      ensures Valid() && keys == Without(old(keys), key) == Cut(old(keys), i)
    {
      hide Chained, Indexed, NoDuplicates, Without;
      FoundFacts(chain, keys, framesMap, i);
      CutIndexed(chain, keys, framesMap, i);
      var node := framesMap[key];
      framesMap := framesMap - {key};
      Unlink(node, i + 1);
    }

    /** The key of the least recently used node, which is dropped. */
    method DropLast() returns (key: nat)
      requires Valid() && keys != []
      modifies this`framesMap, this`chain, this`keys, repr
      ensures Valid() && key == old(keys[|keys| - 1]) && keys == old(keys[..|keys| - 1])
    {
      ghost var n := |keys| - 1;
      assert LinkAt(chain, keys, repr, n + 1) && LinkAt(chain, keys, repr, n + 2);
      var node := tail.prev;
      key := node.key;
      Detach(key, n);
    }

    /** The least recently used key, taken out of the list, or -1 if there is none. */
    method EvictFrame() returns (key: int)
      requires Valid()
      modifies this`framesMap, this`chain, this`keys, repr
      ensures Valid()
      ensures if old(keys) == [] then key == -1 && keys == []
              else key == old(keys[|keys| - 1]) && keys == old(keys[..|keys| - 1])
    {
      assert LinkAt(chain, keys, repr, |keys| + 1) && LinkAt(chain, keys, repr, 0);
      if tail.prev == head {
        return -1;
      }
      key := DropLast();
    }

    /** Takes a listed key out. */
    method RemoveFrame(key: nat)
      requires Valid() && key in framesMap
      modifies this`framesMap, this`chain, this`keys, repr
      ensures Valid() && keys == Without(old(keys), key)
    {
      ghost var i := Position(keys, key);
      Detach(key, i);
    }
  }
}
