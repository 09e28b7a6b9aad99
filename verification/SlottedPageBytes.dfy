/** The operations of the slotted page on its 4096 bytes. */
module SlottedPageBytes {
  import opened Basics
  import opened ByteCodec
  import opened TupleCodec
  import opened TupleIO
  import opened SlottedPages
  import PoolModel

  // ---------------------------------------------------------------- new pages

  /** The image of a new page shows a slotted page without tuples, with its id as 16 bits in front. */
  lemma {:induction false} NewPageIsEmpty(id: nat)
    ensures Shows(PoolModel.EmptyPage(id), Page(-1, [], 0))
    ensures DecodeInt32(PoolModel.EmptyPage(id)[..4]) == id % 0x1_0000
  {
    var d := PoolModel.EmptyPage(id);
    assert d[..4] == LittleEndian(id % 0x1_0000, 4) == EncodeInt32(id % 0x1_0000);
    Int32RoundTrip(id % 0x1_0000);
    assert d[NEXT_AT..NEXT_AT + 4] == EncodeInt32(-1);
  }

  // ---------------------------------------------------------------- frames

  /** The same bytes between `a` and `b`. */
  ghost predicate SameBytes(d: Bytes, d': Bytes, a: nat, b: nat)
    requires |d| == |d'| == PAGE_SIZE && b <= PAGE_SIZE
  {
    forall i | a <= i < b :: d'[i] == d[i]
  }

  /** A slot shows the same cell when its directory entry and its tuple bytes are the same. */
  lemma {:induction false} CellSame(d: Bytes, d': Bytes, cells: seq<Cell>, cells': seq<Cell>, k: nat)
    requires |d| == |d'| == PAGE_SIZE && k < |cells| && k < |cells'|
    requires DirectoryEnd(|cells|) <= PAGE_SIZE && DirectoryEnd(|cells'|) <= PAGE_SIZE
    requires CellAt(d, cells, k) && cells'[k] == cells[k] && Floor(cells'[..k + 1]) == Floor(cells[..k + 1])
    requires SameBytes(d, d', SlotAt(k), SlotAt(k) + 5)
    requires var from := Floor(cells[..k + 1]); SameBytes(d, d', from, from + TupleSize(cells[k].tuple))
    ensures CellAt(d', cells', k)
  {
    hide EncodeTuple, Floor, TupleSize;
    var from := Floor(cells[..k + 1]);
    var to := from + TupleSize(cells[k].tuple);
    assert d'[from..to] == d[from..to] by {
      forall i | 0 <= i < to - from ensures d'[from..to][i] == d[from..to][i] { }
    }
  }

  /** The floors of unchanged rooms are unchanged. */
  lemma {:induction false} FloorSame(cells: seq<Cell>, cells': seq<Cell>)
    requires |cells| == |cells'| && forall k | 0 <= k < |cells| :: cells[k].room == cells'[k].room
    ensures Floor(cells) == Floor(cells')
  {
    if cells != [] {
      FloorSame(cells[..|cells| - 1], cells'[..|cells'| - 1]);
    }
  }

  /** Where the bytes of slot k lie. */
  lemma {:induction false} CellPlace(d: Bytes, p: Page, k: nat)
    requires Shows(d, p) && k < |p.cells|
    ensures CellAt(d, p.cells, k)
    ensures SlotAt(k) + SLOT_SIZE <= DirectoryEnd(|p.cells|) <= Floor(p.cells) <= Floor(p.cells[..k + 1])
    ensures Floor(p.cells[..k + 1]) + TupleSize(p.cells[k].tuple) <= PAGE_SIZE
  {
    assert CellAt(d, p.cells, k);
    FloorDown(p.cells, k + 1, |p.cells|);
    assert p.cells[..|p.cells|] == p.cells;
  }

  // ---------------------------------------------------------------- insertion

  /** The bytes after an insertion: the tuple, its slot, the count and the free space pointer are new. */
  ghost predicate InsertedBytes(d: Bytes, d': Bytes, p: Page, t: Tuple)
    requires |d| == |d'| == PAGE_SIZE && Encodable(t)
    requires DirectoryEnd(|p.cells|) + SLOT_SIZE <= Floor(p.cells) - Padded(TupleSize(t)) <= PAGE_SIZE - TupleSize(t)
  {
    var n, to := |p.cells|, Floor(p.cells) - Padded(TupleSize(t));
    && U16(d', COUNT_AT) == n + 1 && U16(d', FREE_AT) == to
    && U16(d', SlotAt(n)) == to && U16(d', SlotAt(n) + 2) == Padded(TupleSize(t))
    && d'[to..to + TupleSize(t)] == EncodeTuple(t)
    && SameBytes(d, d', 0, COUNT_AT) && SameBytes(d, d', DELETED_AT, FREE_AT)
       && SameBytes(d, d', HEADER_SIZE, SlotAt(n))
    && SameBytes(d, d', SlotAt(n) + 4, to) && SameBytes(d, d', to + TupleSize(t), PAGE_SIZE)
  }

  lemma {:induction false} InsertShows(d: Bytes, d': Bytes, p: Page, t: Tuple)
    requires Shows(d, p) && |d'| == PAGE_SIZE && TupleSize(t) <= Padded(TupleSize(t))
    requires DirectoryEnd(|p.cells|) + SLOT_SIZE <= Floor(p.cells) - Padded(TupleSize(t))
    requires InsertedBytes(d, d', p, t)
    ensures Shows(d', p.(cells := p.cells + [Cell(t, Padded(TupleSize(t)), false)]))
  {
    hide EncodeTuple, TupleSize, Padded, EncodeInt32, CellAt;
    var c := Cell(t, Padded(TupleSize(t)), false);
    var cells' := p.cells + [c];
    assert cells'[..|p.cells|] == p.cells;
    forall k: nat | k < |cells'|
      ensures CellAt(d', cells', k)
    {
      InsertShowsCell(d, d', p, t, k);
    }
    assert d'[NEXT_AT..NEXT_AT + 4] == d[NEXT_AT..NEXT_AT + 4];
  }

  lemma {:induction false} InsertShowsCell(d: Bytes, d': Bytes, p: Page, t: Tuple, k: nat)
    requires Shows(d, p) && |d'| == PAGE_SIZE && TupleSize(t) <= Padded(TupleSize(t))
    requires DirectoryEnd(|p.cells|) + SLOT_SIZE <= Floor(p.cells) - Padded(TupleSize(t))
    requires InsertedBytes(d, d', p, t) && k <= |p.cells|
    ensures CellAt(d', p.cells + [Cell(t, Padded(TupleSize(t)), false)], k)
  {
    if k < |p.cells| {
      InsertKeepsCell(d, d', p, t, k);
    } else {
      InsertAddsCell(d, d', p, t);
    }
  }

  lemma {:induction false} InsertAddsCell(d: Bytes, d': Bytes, p: Page, t: Tuple)
    requires Shows(d, p) && |d'| == PAGE_SIZE && TupleSize(t) <= Padded(TupleSize(t))
    requires DirectoryEnd(|p.cells|) + SLOT_SIZE <= Floor(p.cells) - Padded(TupleSize(t))
    requires InsertedBytes(d, d', p, t)
    ensures CellAt(d', p.cells + [Cell(t, Padded(TupleSize(t)), false)], |p.cells|)
  {
    hide EncodeTuple, TupleSize, Padded, EncodeInt32, CellAt, U16;
    var k := |p.cells|;
    var cells' := p.cells + [Cell(t, Padded(TupleSize(t)), false)];
    assert cells'[..k + 1] == cells' && cells'[..k] == p.cells;
    assert d'[SlotAt(k) + 4] == d[SlotAt(k) + 4] == 0;
    NewCell(d', cells', k, Floor(p.cells) - Padded(TupleSize(t)));
  }

  lemma NewCell(d: Bytes, cells: seq<Cell>, k: nat, from: nat)
    requires |d| == PAGE_SIZE && k < |cells| && DirectoryEnd(|cells|) <= PAGE_SIZE && Floor(cells[..k + 1]) == from
    requires U16(d, SlotAt(k)) == from && U16(d, SlotAt(k) + 2) == cells[k].room
               && d[SlotAt(k) + 4] == Flag(cells[k].gone)
    requires Encodable(cells[k].tuple) && TupleSize(cells[k].tuple) <= cells[k].room
               && from + cells[k].room <= PAGE_SIZE
    requires d[from..from + TupleSize(cells[k].tuple)] == EncodeTuple(cells[k].tuple)
    ensures CellAt(d, cells, k)
  {
  }

  lemma {:induction false} InsertKeepsCell(d: Bytes, d': Bytes, p: Page, t: Tuple, k: nat)
    requires Shows(d, p) && |d'| == PAGE_SIZE && TupleSize(t) <= Padded(TupleSize(t))
    requires DirectoryEnd(|p.cells|) + SLOT_SIZE <= Floor(p.cells) - Padded(TupleSize(t))
    requires InsertedBytes(d, d', p, t) && k < |p.cells|
    ensures CellAt(d', p.cells + [Cell(t, Padded(TupleSize(t)), false)], k)
  {
    CellPlace(d, p, k);
    hide EncodeTuple, TupleSize, Padded, EncodeInt32, Shows, CellAt, Floor;
    var cells' := p.cells + [Cell(t, Padded(TupleSize(t)), false)];
    assert cells'[..k + 1] == p.cells[..k + 1];
    CellSame(d, d', p.cells, cells', k);
  }

  // ---------------------------------------------------------------- rewriting one slot

  /** The bytes after slot k was rewritten in place: its tuple bytes, its flag and the deleted count. */
  ghost predicate RewrittenBytes(d: Bytes, d': Bytes, p: Page, k: nat, t: Tuple, gone: bool, dead: nat)
    requires |d| == |d'| == PAGE_SIZE && Encodable(t) && k < |p.cells|
    requires DirectoryEnd(|p.cells|) <= Floor(p.cells) <= Floor(p.cells[..k + 1]) <= PAGE_SIZE - TupleSize(t)
  {
    var from := Floor(p.cells[..k + 1]);
    && U16(d', DELETED_AT) == dead && d'[SlotAt(k) + 4] == Flag(gone)
    && d'[from..from + TupleSize(t)] == EncodeTuple(t)
    && SameBytes(d, d', 0, DELETED_AT) && SameBytes(d, d', FREE_AT, SlotAt(k) + 4)
    && SameBytes(d, d', SlotAt(k) + 5, from) && SameBytes(d, d', from + TupleSize(t), PAGE_SIZE)
  }

  lemma {:induction false} RewriteShows(d: Bytes, d': Bytes, p: Page, k: nat, t: Tuple, gone: bool, dead: nat)
    requires Shows(d, p) && |d'| == PAGE_SIZE && k < |p.cells|
    requires Encodable(t) && TupleSize(t) <= p.cells[k].room
    requires dead == Gone(p.cells[k := Cell(t, p.cells[k].room, gone)])
    requires Floor(p.cells) <= Floor(p.cells[..k + 1]) <= PAGE_SIZE - TupleSize(t)
    requires RewrittenBytes(d, d', p, k, t, gone, dead)
    ensures Shows(d', p.(cells := p.cells[k := Cell(t, p.cells[k].room, gone)], dead := dead))
  {
    hide EncodeTuple, TupleSize, EncodeInt32, CellAt;
    var cells' := p.cells[k := Cell(t, p.cells[k].room, gone)];
    FloorSame(p.cells, cells');
    forall j: nat | j < |cells'|
      ensures CellAt(d', cells', j)
    {
      RewriteShowsCell(d, d', p, k, t, gone, dead, j);
    }
    assert d'[NEXT_AT..NEXT_AT + 4] == d[NEXT_AT..NEXT_AT + 4];
  }

  lemma {:induction false} RewriteShowsCell(d: Bytes, d': Bytes, p: Page, k: nat, t: Tuple, gone: bool, dead: nat,
      j: nat)
    requires Shows(d, p) && |d'| == PAGE_SIZE && k < |p.cells| && j < |p.cells|
    requires Encodable(t) && TupleSize(t) <= p.cells[k].room
    requires Floor(p.cells) <= Floor(p.cells[..k + 1]) <= PAGE_SIZE - TupleSize(t)
    requires RewrittenBytes(d, d', p, k, t, gone, dead)
    ensures CellAt(d', p.cells[k := Cell(t, p.cells[k].room, gone)], j)
  {
    hide EncodeTuple, TupleSize, EncodeInt32, Shows;
    CellPlace(d, p, j);
    if j != k {
      RewriteOtherCell(d, d', p, k, t, gone, dead, j);
    } else {
      var cells' := p.cells[k := Cell(t, p.cells[k].room, gone)];
      FloorSame(p.cells[..j + 1], cells'[..j + 1]);
    }
  }

  lemma {:induction false} RewriteOtherCell(d: Bytes, d': Bytes, p: Page, k: nat, t: Tuple, gone: bool, dead: nat,
      j: nat)
    requires Shows(d, p) && |d'| == PAGE_SIZE && k < |p.cells| && j < |p.cells| && j != k
    requires Encodable(t) && TupleSize(t) <= p.cells[k].room
    requires Floor(p.cells) <= Floor(p.cells[..k + 1]) <= PAGE_SIZE - TupleSize(t)
    requires RewrittenBytes(d, d', p, k, t, gone, dead)
    ensures CellAt(d', p.cells[k := Cell(t, p.cells[k].room, gone)], j)
  {
    CellPlace(d, p, j);
    TuplesApart(d, p, j, k);
    CellRoom(d, p, j);
    hide EncodeTuple, TupleSize, EncodeInt32, Shows, CellAt, Floor;
    var cells' := p.cells[k := Cell(t, p.cells[k].room, gone)];
    FloorSame(p.cells[..j + 1], cells'[..j + 1]);
    CellSame(d, d', p.cells, cells', j);
  }

  lemma {:induction false} CellRoom(d: Bytes, p: Page, j: nat)
    requires Shows(d, p) && j < |p.cells|
    ensures TupleSize(p.cells[j].tuple) <= p.cells[j].room
  {
    CellPlace(d, p, j);
  }

  /** The tuple bytes of slots j and k do not meet. */
  lemma {:induction false} TuplesApart(d: Bytes, p: Page, j: nat, k: nat)
    requires Shows(d, p) && j < |p.cells| && k < |p.cells| && j != k
    ensures var (a, b) := (Floor(p.cells[..j + 1]), Floor(p.cells[..k + 1]));
            a + p.cells[j].room <= b || b + p.cells[k].room <= a
  {
    CellPlace(d, p, j);
    CellPlace(d, p, k);
    if j < k { SlotsDisjoint(d, p, j, k); } else { SlotsDisjoint(d, p, k, j); }
  }

  // ---------------------------------------------------------------- the operations

  /** The tuple stored in slot k is what its bytes decode to. */
  lemma {:induction false} CellDecodes(d: Bytes, p: Page, k: nat)
    requires Shows(d, p) && k < |p.cells|
    ensures U16(d, SlotAt(k)) <= PAGE_SIZE
    ensures DecodeTuple(d[U16(d, SlotAt(k))..]) == Some(p.cells[k].tuple)
  {
    hide Shows, EncodeTuple, DecodeTuple, Floor;
    CellPlace(d, p, k);
    SlotFacts(d, p, k);
    var t := p.cells[k].tuple;
    var from := U16(d, SlotAt(k));
    var rest := d[from + TupleSize(t)..];
    assert d[from..] == d[from..from + TupleSize(t)] + rest;
    TupleRoundTrip(t, rest);
  }

  /** The fields of the header and of a slot. */
  lemma {:induction false} HeaderFacts(d: Bytes, p: Page)
    requires Shows(d, p)
    ensures |d| == PAGE_SIZE && DirectoryEnd(|p.cells|) <= Floor(p.cells) <= PAGE_SIZE && p.dead == Gone(p.cells)
    ensures U16(d, COUNT_AT) == |p.cells| && U16(d, DELETED_AT) == p.dead && U16(d, FREE_AT) == Floor(p.cells)
  {
  }

  lemma {:induction false} SlotFacts(d: Bytes, p: Page, k: nat)
    requires Shows(d, p) && k < |p.cells|
    ensures SlotAt(k) + SLOT_SIZE <= Floor(p.cells) <= Floor(p.cells[..k + 1]) && |d| == PAGE_SIZE
    ensures U16(d, SlotAt(k)) == Floor(p.cells[..k + 1]) && U16(d, SlotAt(k) + 2) == p.cells[k].room
    ensures d[SlotAt(k) + 4] == Flag(p.cells[k].gone) && Encodable(p.cells[k].tuple)
    ensures TupleSize(p.cells[k].tuple) <= p.cells[k].room && Floor(p.cells[..k + 1]) + p.cells[k].room <= PAGE_SIZE
  {
    CellPlace(d, p, k);
  }

  lemma KeepsRange(d: Bytes, d': Bytes, a: nat, b: nat)
    requires |d| == |d'| == PAGE_SIZE && a <= b <= PAGE_SIZE && SameBytes(d, d', a, b)
    ensures d'[a..b] == d[a..b]
  {
    forall i | 0 <= i < b - a ensures d'[a..b][i] == d[a..b][i] { }
  }

  lemma ShowsTwo(d: Bytes, at: nat, n: nat)
    requires n < 0x1_0000 && at + 2 <= |d| && d[at..at + 2] == Two(n)
    ensures U16(d, at) == n
  {
    assert d[at] == d[at..at + 2][0] && d[at + 1] == d[at..at + 2][1];
  }

  class SlottedPage {
    const data: array<byte>
    ghost var page: Page

    ghost predicate Valid()
      reads this, data
    {
      Shows(data[..], page)
    }

    /** An empty page. */
    constructor (id: nat)
      ensures Valid() && page == Page(-1, [], 0) && fresh(data)
    {
      var d := new byte[PAGE_SIZE](_ => 0);
      Copy(d, 0, LittleEndian(id % 0x1_0000, 4));
      Copy(d, NEXT_AT, EncodeInt32(-1));
      Copy(d, COUNT_AT, Two(0));
      Copy(d, DELETED_AT, Two(0));
      Copy(d, FREE_AT, Two(PAGE_SIZE));
      data := d;
      page := Page(-1, [], 0);
    }

    method InsertTuple(t: Tuple) returns (slot: int)
      requires Valid() && TupleSize(t) <= 65528
      modifies this, data
      ensures Valid() && (page, slot) == Insert(old(page), t)
    {
      hide Shows, TupleSize, Padded, Floor;
      HeaderFacts(data[..], page);
      PaddedHolds(TupleSize(t));
      var room := Padded(TupleSize(t));
      var count, free := U16(data[..], COUNT_AT), U16(data[..], FREE_AT);
      var freeSize := (free - DirectoryEnd(count)) % 0x1_0000;
      if freeSize < room + SLOT_SIZE {
        return -1;
      }
      PlaceTuple(t, count, free - room, room);
      InsertShows(old(data[..]), data[..], page, t);
      slot := count;
      page := page.(cells := page.cells + [Cell(t, room, false)]);
    }

    method PlaceTuple(t: Tuple, count: nat, to: nat, room: nat)
      requires data.Length == PAGE_SIZE && Encodable(t) && room == Padded(TupleSize(t)) && TupleSize(t) <= room
      requires count == |page.cells| && to + room == Floor(page.cells) <= PAGE_SIZE
      requires DirectoryEnd(count) + SLOT_SIZE <= to
      modifies data
      ensures InsertedBytes(old(data[..]), data[..], page, t)
    {
      hide TupleSize, Padded, EncodeTuple, Floor, Splice, Two;
      Copy(data, FREE_AT, Two(to));
      SerializeTuple(data, to, t);
      ghost var d2 := data[..];
      PlaceSlot(count, to, room);
      KeepsRange(d2, data[..], to, to + TupleSize(t));
    }

    method PlaceSlot(count: nat, to: nat, room: nat)
      requires data.Length == PAGE_SIZE && DirectoryEnd(count) + SLOT_SIZE <= to < 0x1_0000 && room < 0x1_0000
      requires SlotAt(count) + SLOT_SIZE <= PAGE_SIZE
      modifies data
      ensures U16(data[..], SlotAt(count)) == to && U16(data[..], SlotAt(count) + 2) == room
      ensures U16(data[..], COUNT_AT) == count + 1
      ensures SameBytes(old(data[..]), data[..], 0, COUNT_AT)
      ensures SameBytes(old(data[..]), data[..], DELETED_AT, SlotAt(count))
      ensures SameBytes(old(data[..]), data[..], SlotAt(count) + 4, PAGE_SIZE)
    {
      hide Splice, Two;
      Copy(data, SlotAt(count), Two(to));
      ghost var d1 := data[..];
      ShowsTwo(d1, SlotAt(count), to);
      Copy(data, SlotAt(count) + 2, Two(room));
      ghost var d2 := data[..];
      ShowsTwo(d2, SlotAt(count) + 2, room);
      Copy(data, COUNT_AT, Two(count + 1));
      ShowsTwo(data[..], COUNT_AT, count + 1);
    }

    method GetTuple(slot: int) returns (t: Option<Tuple>)
      requires Valid()
      ensures t == Get(page, slot)
    {
      hide Shows, DecodeTuple, Floor;
      HeaderFacts(data[..], page);
      if slot < 0 || slot >= U16(data[..], COUNT_AT) {
        return None;
      }
      SlotFacts(data[..], page, slot);
      CellDecodes(data[..], page, slot);
      t := DeserializeTuple(data[..][U16(data[..], SlotAt(slot))..]);
      if t.value.deleted || data[SlotAt(slot) + 4] != 0 {
        return None;
      }
    }

    method DeleteTuple(slot: int) returns (done: bool)
      requires Valid()
      modifies this, data
      ensures Valid() && (page, done) == Delete(old(page), slot)
    {
      hide Shows, DecodeTuple, Floor, TupleSize, RewrittenBytes, Gone;
      HeaderFacts(data[..], page);
      if slot < 0 || slot >= U16(data[..], COUNT_AT) {
        return false;
      }
      SlotFacts(data[..], page, slot);
      if data[SlotAt(slot) + 4] != 0 {
        return false;
      }
      CellDecodes(data[..], page, slot);
      var from := U16(data[..], SlotAt(slot));
      var t := DeserializeTuple(data[..][from..]);
      var marked := t.value.(deleted := true);
      SameSize(t.value, marked);
      MarkDeleted(slot, from, marked);
      GoneUpdate(page.cells, slot, Cell(marked, page.cells[slot].room, true));
      RewriteShows(old(data[..]), data[..], page, slot, marked, true, page.dead + 1);
      page := Delete(page, slot).0;
      done := true;
    }

    method MarkDeleted(slot: nat, from: nat, marked: Tuple)
      requires data.Length == PAGE_SIZE && Encodable(marked) && slot < |page.cells| && page.dead < 1000
      requires U16(data[..], DELETED_AT) == page.dead && from == Floor(page.cells[..slot + 1])
      requires SlotAt(slot) + SLOT_SIZE <= DirectoryEnd(|page.cells|) <= Floor(page.cells) <= from
      requires from + TupleSize(marked) <= PAGE_SIZE
      modifies data
      ensures RewrittenBytes(old(data[..]), data[..], page, slot, marked, true, page.dead + 1)
    {
      hide TupleSize, EncodeTuple, Floor, Splice, Two;
      var dead := U16(data[..], DELETED_AT);
      SerializeTuple(data, from, marked);
      ghost var d1 := data[..];
      Copy(data, SlotAt(slot) + 4, [1]);
      ghost var d2 := data[..];
      Copy(data, DELETED_AT, Two(dead + 1));
      KeepsRange(d1, d2, from, from + TupleSize(marked));
      KeepsRange(d2, data[..], from, from + TupleSize(marked));
      ShowsTwo(data[..], DELETED_AT, dead + 1);
      assert data[..][SlotAt(slot) + 4] == d2[SlotAt(slot) + 4] == 1;
    }

    method UpdateTuple(slot: int, t: Tuple) returns (at: int)
      requires Valid() && TupleSize(t) <= 65528
      modifies this, data
      ensures Valid() && (page, at) == Update(old(page), slot, t)
    {
      hide Shows, DecodeTuple, Floor, TupleSize;
      HeaderFacts(data[..], page);
      if slot < 0 || slot >= U16(data[..], COUNT_AT) {
        return -1;
      }
      SlotFacts(data[..], page, slot);
      if TupleSize(t) > U16(data[..], SlotAt(slot) + 2) {
        var deleted := DeleteTuple(slot);
        if deleted {
          at := InsertTuple(t);
          return;
        }
        return -1;
      }
      var from := U16(data[..], SlotAt(slot));
      SerializeTuple(data, from, t);
      GoneUpdate(page.cells, slot, Cell(t, page.cells[slot].room, page.cells[slot].gone));
      RewriteShows(old(data[..]), data[..], page, slot, t, page.cells[slot].gone, page.dead);
      page := Update(page, slot, t).0;
      at := slot;
    }
  }

  lemma SameSize(t: Tuple, t': Tuple)
    requires t.fields == t'.fields
    ensures TupleSize(t) == TupleSize(t')
  {
  }
}
