/** The static hash index: chained buckets, and the wrapper that rehashes at three quarters load. */
module HashIndexes {
  import opened Basics
  import opened ByteCodec
  import SP = SlottedPages
  import TC = TupleCodec

  datatype Key = IntKey(i: int32) | StringKey(s: Bytes)

  datatype Entry = Entry(key: Key, rid: int)

  /** The record ids stored under a key, in order. */
  function Matches(es: seq<Entry>, k: Key): seq<int> {
    if es == [] then []
    else Matches(es[..|es| - 1], k) + if es[|es| - 1].key == k then [es[|es| - 1].rid] else []
  }

  /** The record ids of exactly the entries with the key: those at the positions `ps`, each once, in order. */
  ghost predicate Answers(es: seq<Entry>, k: Key, rids: seq<int>, ps: seq<nat>) {
    && |rids| == |ps|
    && (forall j | 0 <= j < |ps| :: ps[j] < |es| && rids[j] == es[ps[j]].rid)
    && (forall j, m | 0 <= j < m < |ps| :: ps[j] < ps[m])
    && forall i: nat | i < |es| :: i in ps <==> es[i].key == k
  }

  lemma {:induction false} MatchesExact(es: seq<Entry>, k: Key) returns (ps: seq<nat>)
    ensures Answers(es, k, Matches(es, k), ps)
  {
    ps := [];
    if es != [] {
      var n := |es| - 1;
      ps := MatchesExact(es[..n], k);
      var rids := Matches(es, k);
      assert rids == Matches(es[..n], k) + if es[n].key == k then [es[n].rid] else [];
      hide Matches, Answers;
      AnswersLast(es, k, Matches(es[..n], k), ps);
      if es[n].key == k { ps := ps + [n]; }
    }
  }

  lemma AnswersLast(es: seq<Entry>, k: Key, rids: seq<int>, ps: seq<nat>)
    requires es != [] && Answers(es[..|es| - 1], k, rids, ps)
    ensures var n: nat := |es| - 1;
            if es[n].key == k then Answers(es, k, rids + [es[n].rid], ps + [n]) else Answers(es, k, rids + [], ps)
  {
    var n: nat := |es| - 1;
    assert forall i | 0 <= i < n :: es[..n][i] == es[i];
    var ps' := ps + [n];
    assert ps'[|ps|] == n && n !in ps;
    assert forall i: nat | i < n :: i in ps' <==> i in ps;
  }

  lemma {:induction false} MatchesConcat(a: seq<Entry>, b: seq<Entry>, k: Key)
    ensures Matches(a + b, k) == Matches(a, k) + Matches(b, k)
  {
    if b == [] {
      assert a + b == a;
    } else {
      var n := |b| - 1;
      assert (a + b)[..|a + b| - 1] == a + b[..n];
      MatchesConcat(a, b[..n], k);
    }
  }

  lemma {:induction false} MatchesOne(e: Entry, k: Key)
    ensures Matches([e], k) == if e.key == k then [e.rid] else []
  {
    assert [e][..0] == [];
  }

  lemma {:induction false} NoMatches(es: seq<Entry>, k: Key)
    requires forall i | 0 <= i < |es| :: es[i].key != k
    ensures Matches(es, k) == []
  {
    if es != [] { NoMatches(es[..|es| - 1], k); }
  }

  /** All entries, bucket by bucket. */
  ghost function Flatten(buckets: seq<seq<Entry>>): seq<Entry> {
    if buckets == [] then [] else Flatten(buckets[..|buckets| - 1]) + buckets[|buckets| - 1]
  }

  /** The bucket of a key: a signed integer is taken as 64 bits before the remainder. */
  function Slot(stringHash: Bytes -> nat, k: Key, capacity: nat): (i: nat)
    requires capacity > 0
    ensures i < capacity
  {
    match k
    case IntKey(i) => (if i < 0 then i + 0x1_0000_0000_0000_0000 else i) % capacity
    case StringKey(s) => stringHash(s) % capacity
  }

  /** Every entry is in the bucket of its key. */
  ghost predicate Placed(stringHash: Bytes -> nat, buckets: seq<seq<Entry>>) {
    && |buckets| > 0
    && forall i, j | 0 <= i < |buckets| && 0 <= j < |buckets[i]| :: Slot(stringHash, buckets[i][j].key, |buckets|) == i
  }

  /** The bucket of a key has all entries with that key. */
  lemma {:induction false} BucketHasAll(stringHash: Bytes -> nat, buckets: seq<seq<Entry>>, n: nat, k: Key)
    requires Placed(stringHash, buckets) && n <= |buckets|
    ensures var i := Slot(stringHash, k, |buckets|);
            Matches(Flatten(buckets[..n]), k) == if i < n then Matches(buckets[i], k) else []
  {
    if n > 0 {
      var m := n - 1;
      assert buckets[..n][..m] == buckets[..m];
      BucketHasAll(stringHash, buckets, m, k);
      MatchesConcat(Flatten(buckets[..m]), buckets[m], k);
      if Slot(stringHash, k, |buckets|) != m { NoMatches(buckets[m], k); }
    }
  }

  lemma FlattenNone(buckets: seq<seq<Entry>>)
    ensures Flatten(buckets[..0]) == [] && forall k :: Matches([], k) == []
  {
  }

  lemma FlattenOne(buckets: seq<seq<Entry>>, i: nat)
    requires i < |buckets|
    ensures Flatten(buckets[..i + 1]) == Flatten(buckets[..i]) + buckets[i]
  {
    assert buckets[..i + 1][..i] == buckets[..i];
  }

  /** Appending to one bucket appends one entry, for its own key and for the count. */
  lemma {:induction false} FlattenAppend(buckets: seq<seq<Entry>>, i: nat, e: Entry)
    requires i < |buckets|
    ensures |Flatten(buckets[i := buckets[i] + [e]])| == |Flatten(buckets)| + 1
  {
    var n := |buckets| - 1;
    var buckets' := buckets[i := buckets[i] + [e]];
    if i < n {
      assert buckets'[..n] == buckets[..n][i := buckets[..n][i] + [e]];
      FlattenAppend(buckets[..n], i, e);
    } else {
      assert buckets'[..n] == buckets[..n];
    }
  }

  lemma {:induction false} FlattenEmpty(buckets: seq<seq<Entry>>)
    requires forall i | 0 <= i < |buckets| :: buckets[i] == []
    ensures Flatten(buckets) == []
  {
    if buckets != [] { FlattenEmpty(buckets[..|buckets| - 1]); }
  }

  class HashIndex {
    const stringHash: Bytes -> nat
    const table: array<seq<Entry>>
    var count: nat

    ghost predicate Valid()
      reads this, table
    {
      Placed(stringHash, table[..]) && count == |Flatten(table[..])|
    }

    /** What a search for the key finds. */
    ghost function Found(k: Key): seq<int>
      requires Valid()
      reads this, table
    {
      Matches(table[Slot(stringHash, k, table.Length)], k)
    }

    constructor (stringHash: Bytes -> nat, capacity: nat)
      requires capacity > 0
      ensures Valid() && count == 0 && table.Length == capacity && fresh(table) && this.stringHash == stringHash
      ensures forall k :: Found(k) == []
    {
      this.stringHash := stringHash;
      table := new seq<Entry>[capacity](_ => []);
      count := 0;
      new;
      FlattenEmpty(table[..]);
    }

    /** Appends an entry to the chain of its bucket. */
    method InsertIndex(key: Key, rid: int)
      requires Valid()
      modifies this`count, table
      ensures Valid() && count == old(count) + 1
      ensures forall k :: Found(k) == old(Found(k)) + if k == key then [rid] else []
    {
      var i := Slot(stringHash, key, table.Length);
      var e := Entry(key, rid);
      FlattenAppend(table[..], i, e);
      ghost var chain := table[i];
      table[i] := table[i] + [e];
      count := count + 1;
      assert table[..] == old(table[..])[i := old(table[..])[i] + [e]];
      forall k ensures Found(k) == old(Found(k)) + if k == key then [rid] else [] {
        MatchesConcat(chain, [e], k);
        MatchesOne(e, k);
      }
    }

    /** The position of the first entry with the key in its chain, or the chain's length. */
    method GetHashEntry(key: Key) returns (i: nat, at: nat)
      requires Valid()
      ensures i == Slot(stringHash, key, table.Length) && at <= |table[i]|
      ensures (forall j | 0 <= j < at :: table[i][j].key != key) && (at < |table[i]| ==> table[i][at].key == key)
    {
      i := Slot(stringHash, key, table.Length);
      at := 0;
      while at < |table[i]| && table[i][at].key != key
        invariant at <= |table[i]| && forall j | 0 <= j < at :: table[i][j].key != key
      {
        at := at + 1;
      }
    }

    /** The record ids under the key. */
    method GetValue(key: Key) returns (rids: seq<int>)
      requires Valid()
      ensures rids == Found(key)
    {
      var i, at := GetHashEntry(key);
      var chain := table[i];
      NoMatches(chain[..at], key);
      rids := [];
      for j := at to |chain|
        invariant rids == Matches(chain[..j], key)
      {
        assert chain[..j + 1][..j] == chain[..j];
        if chain[j].key == key {
          rids := rids + [chain[j].rid];
        }
      }
      assert chain[..|chain|] == chain;
    }
  }

  // ---------------------------------------------------------------- the entries on pages

  /** The key's field and two record ids. */
  function EntrySize(e: Entry): nat {
    (match e.key case IntKey(_) => 10 case StringKey(s) => 6 + |s|) + 32
  }

  function Used(es: seq<Entry>): nat {
    if es == [] then 0 else Used(es[..|es| - 1]) + SP.SLOT_SIZE + SP.Padded(EntrySize(es[|es| - 1]))
  }

  /** The page has room for the entry and its slot. */
  predicate HasRoom(es: seq<Entry>, e: Entry) {
    SP.DirectoryEnd(0) + Used(es) + SP.SLOT_SIZE + SP.Padded(EntrySize(e)) <= PAGE_SIZE
  }

  /** The entry goes to the last page, or to a new one; one that fits no page is lost. */
  function StoreEntry(pages: seq<seq<Entry>>, e: Entry): (pages': seq<seq<Entry>>)
    requires pages != []
    ensures |pages'| >= |pages|
  {
    var n := |pages| - 1;
    if HasRoom(pages[n], e) then pages[n := pages[n] + [e]]
    else pages + [if HasRoom([], e) then [e] else []]
  }

  /** The entries that fit a page. */
  function Kept(es: seq<Entry>): seq<Entry> {
    if es == [] then [] else Kept(es[..|es| - 1]) + if HasRoom([], es[|es| - 1]) then [es[|es| - 1]] else []
  }

  /** The size counted for an entry is that of its key's field and of two record ids. */
  lemma EntryBytes(e: Entry, rid: TC.Rid, next: TC.Rid)
    ensures var key := match e.key case IntKey(i) => TC.IntField(i) case StringKey(s) => TC.StringField(s);
            EntrySize(e) == TC.SerializedSize(key) + |TC.EncodeRid(rid)| + |TC.EncodeRid(next)|
  {
  }

  /** An entry fits a page if and only if its size does, rounded up to eight: always for a number, and for a text of
      at most 4034 bytes. */
  lemma {:induction false} EntryFits(e: Entry)
    requires EntrySize(e) <= 65528
    ensures HasRoom([], e) <==> HEADER_SIZE + SP.SLOT_SIZE + (EntrySize(e) + 7) / 8 * 8 <= PAGE_SIZE
    ensures HasRoom([], e) <==> e.key.IntKey? || |e.key.s| <= 4034
  {
    assert EntrySize(e) % 0x1_0000 == EntrySize(e);
    assert (EntrySize(e) + 7) / 8 * 8 <= 65528;
  }

  /** Exactly the entries that fit a page are kept, each as often as it was stored. */
  lemma {:induction false} KeptExact(es: seq<Entry>, e: Entry)
    requires EntrySize(e) <= 65528
    ensures multiset(Kept(es))[e] == if e.key.IntKey? || |e.key.s| <= 4034 then multiset(es)[e] else 0
  {
    EntryFits(e);
    hide HasRoom;
    if es != [] {
      var n := |es| - 1;
      KeptExact(es[..n], e);
      assert es == es[..n] + [es[n]];
    }
  }

  lemma UsedBound(es: seq<Entry>, e: Entry)
    ensures HasRoom(es, e) ==> HasRoom([], e)
  {
  }

  /** The pages list exactly the entries that fit a page, in the order they were stored. */
  lemma {:induction false} StoreKeepsOrder(pages: seq<seq<Entry>>, es: seq<Entry>, e: Entry)
    requires pages != [] && Flatten(pages) == Kept(es)
    ensures Flatten(StoreEntry(pages, e)) == Kept(es + [e])
  {
    hide HasRoom;
    var n := |pages| - 1;
    UsedBound(pages[n], e);
    assert (es + [e])[..|es|] == es;
    var pages' := StoreEntry(pages, e);
    if HasRoom(pages[n], e) {
      assert pages'[..n] == pages[..n];
      assert Flatten(pages[..n]) + (pages[n] + [e]) == Flatten(pages[..n]) + pages[n] + [e];
    } else {
      assert pages'[..n + 1] == pages;
    }
  }

  class StaticHashIndexWrapper {
    const strings: bool
    var index: HashIndex
    /** The entries on each page of the index, along the chain. */
    var pages: seq<seq<Entry>>
    /** Everything that was inserted, in order. */
    ghost var inserted: seq<Entry>

    ghost predicate Valid()
      reads this, index, index.table
    {
      && index.Valid() && index.count == |inserted|
      && (forall k :: index.Found(k) == Matches(inserted, k))
      && 4 * index.count < 3 * index.table.Length + 4
      && pages != [] && Flatten(pages) == Kept(inserted)
    }

    /** An empty index of the given capacity. */
    constructor (strings: bool, stringHash: Bytes -> nat, capacity: nat)
      requires capacity > 0
      ensures Valid() && inserted == [] && this.strings == strings && fresh(index) && fresh(index.table)
    {
      this.strings := strings;
      index := new HashIndex(stringHash, capacity);
      pages, inserted := [[]], [];
      new;
      assert pages[..0] == [] && [] + pages[0] == [];
    }

    /** Stores a record id under a key of the index's type; a table that is three quarters full is first
        replaced by one ten times as large. */
    method Insert(key: Key, rid: int)
      requires Valid()
      modifies this, index, index.table
      ensures Valid() && (index == old(index) || fresh(index))
                && (index.table == old(index.table) || fresh(index.table))
      ensures inserted == if key.StringKey? == strings then old(inserted) + [Entry(key, rid)] else old(inserted)
    {
      if key.StringKey? != strings {
        return;
      }
      if 4 * index.count >= 3 * index.table.Length {
        Rehash();
      }
      Add(key, rid);
    }

    method Add(key: Key, rid: int)
      requires Valid() && 4 * index.count < 3 * index.table.Length
      modifies this`pages, this`inserted, index, index.table
      ensures Valid() && inserted == old(inserted) + [Entry(key, rid)]
    {
      hide Kept, Matches, Slot, Placed, Flatten, StoreEntry, HasRoom;
      ghost var was := inserted;
      StoreKeepsOrder(pages, inserted, Entry(key, rid));
      pages := StoreEntry(pages, Entry(key, rid));
      index.InsertIndex(key, rid);
      inserted := inserted + [Entry(key, rid)];
      forall k ensures index.Found(k) == Matches(inserted, k) {
        MatchesConcat(was, [Entry(key, rid)], k);
        MatchesOne(Entry(key, rid), k);
      }
    }

    /** Copies all chains, bucket by bucket, into a table ten times as large. */
    method Rehash()
      requires Valid()
      modifies this`index
      ensures Valid() && fresh(index) && fresh(index.table) && inserted == old(inserted)
      ensures index.count == old(index.count) && index.table.Length == 10 * old(index.table.Length)
    {
      hide Kept, Matches, Slot, Flatten;
      var old_ := index;
      FlattenNone(old_.table[..]);
      var new_ := new HashIndex(old_.stringHash, 10 * old_.table.Length);
      for i := 0 to old_.table.Length
        invariant new_.Valid() && new_.table.Length == 10 * old_.table.Length && fresh(new_) && fresh(new_.table)
        invariant index == old_ && Valid() && inserted == old(inserted)
        invariant new_.count == |Flatten(old_.table[..i])|
        invariant forall k :: new_.Found(k) == Matches(Flatten(old_.table[..i]), k)
      {
        CopyChain(new_, old_.table[i], Flatten(old_.table[..i]));
        FlattenOne(old_.table[..], i);
      }
      assert old_.table[..old_.table.Length] == old_.table[..];
      forall k ensures new_.Found(k) == Matches(inserted, k) {
        SameMatches(k);
      }
      index := new_;
    }

    /** All entries, bucket by bucket, match a key as its own bucket does. */
    lemma SameMatches(k: Key)
      requires Valid()
      ensures Matches(Flatten(index.table[..index.table.Length]), k) == Matches(inserted, k)
    {
      assert index.table[..index.table.Length] == index.table[..];
      BucketHasAll(index.stringHash, index.table[..], index.table.Length, k);
      assert index.Found(k) == Matches(inserted, k);
    }

    method Search(key: Key) returns (rids: seq<int>)
      requires Valid()
      ensures rids == Matches(inserted, key)
      ensures exists ps: seq<nat> :: Answers(inserted, key, rids, ps)
    {
      ghost var ps := MatchesExact(inserted, key);
      rids := index.GetValue(key);
    }
  }

  method CopyChain(index: HashIndex, chain: seq<Entry>, ghost done: seq<Entry>)
    requires index.Valid() && index.count == |done| && forall k :: index.Found(k) == Matches(done, k)
    modifies index`count, index.table
    ensures index.Valid() && index.count == |done + chain| && forall k :: index.Found(k) == Matches(done + chain, k)
  {
    assert done + chain[..0] == done;
    for j := 0 to |chain|
      invariant index.Valid() && index.count == |done + chain[..j]|
      invariant forall k :: index.Found(k) == Matches(done + chain[..j], k)
    {
      index.InsertIndex(chain[j].key, chain[j].rid);
      assert done + chain[..j + 1] == done + chain[..j] + [chain[j]];
      forall k ensures index.Found(k) == Matches(done + chain[..j + 1], k) {
        MatchesConcat(done + chain[..j], [chain[j]], k);
        MatchesOne(chain[j], k);
      }
    }
    assert done + chain[..|chain|] == done + chain;
  }
}
