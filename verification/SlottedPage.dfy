/**
 A slotted page of 4096 bytes: a header, a directory of slots growing up from it, and tuples growing down
 from the end.
 */
module SlottedPages {
  import opened Basics
  import opened ByteCodec
  import opened TupleCodec
  import opened TupleIO

  const SLOT_SIZE: nat := 6
  const NEXT_AT: nat := 4
  const COUNT_AT: nat := 8
  const DELETED_AT: nat := 10
  const FREE_AT: nat := 12

  // ---------------------------------------------------------------- the page as a value

  /** A slot: its tuple, the bytes set aside for it, and its deleted flag. */
  datatype Cell = Cell(tuple: Tuple, room: nat, gone: bool)

  datatype Page = Page(next: int32, cells: seq<Cell>, dead: nat)

  /** The size as 16 bits, rounded up to a multiple of eight, as 16 bits. */
  function Padded(size: nat): (p: nat)
    ensures p < 0x1_0000 && p % 8 == 0
  {
    (size % 0x1_0000 + 7) / 8 * 8 % 0x1_0000
  }

  /** The room set aside holds the tuple exactly for sizes up to 65528. */
  lemma {:induction false} PaddedHolds(size: nat)
    ensures Padded(size) >= size <==> size <= 65528
  {
    if size <= 65528 {
      assert size % 0x1_0000 == size;
      assert (size + 7) / 8 * 8 <= 65528;
    } else if size < 0x1_0000 {
      assert (size + 7) / 8 * 8 == 0x1_0000;
    }
  }

  /** Where the tuples start. */
  function Floor(cells: seq<Cell>): int {
    if cells == [] then PAGE_SIZE else Floor(cells[..|cells| - 1]) - cells[|cells| - 1].room
  }

  /** The number of deleted slots. */
  function Gone(cells: seq<Cell>): (n: nat)
    ensures n <= |cells|
  {
    if cells == [] then 0 else Gone(cells[..|cells| - 1]) + if cells[|cells| - 1].gone then 1 else 0
  }

  lemma {:induction false} GoneUpdate(cells: seq<Cell>, k: nat, c: Cell)
    requires k < |cells|
    ensures Gone(cells[k := c]) == Gone(cells) + (if c.gone then 1 else 0) - if cells[k].gone then 1 else 0
  {
    var n := |cells| - 1;
    if k < n {
      GoneUpdate(cells[..n], k, c);
      assert cells[k := c][..n] == cells[..n][k := c];
    } else {
      assert cells[k := c][..n] == cells[..n];
    }
  }

  function DirectoryEnd(n: nat): nat {
    HEADER_SIZE + SLOT_SIZE * n
  }

  function SlotAt(k: nat): nat {
    HEADER_SIZE + SLOT_SIZE * k
  }

  /** Adds a tuple behind the others if it and a slot fit in the free space. */
  function Insert(p: Page, t: Tuple): (Page, int) {
    var room := Padded(TupleSize(t));
    if Floor(p.cells) - DirectoryEnd(|p.cells|) < room + SLOT_SIZE then (p, -1)
    else (p.(cells := p.cells + [Cell(t, room, false)]), |p.cells|)
  }

  function Get(p: Page, slot: int): Option<Tuple> {
    if slot < 0 || slot >= |p.cells| || p.cells[slot].tuple.deleted || p.cells[slot].gone then None
    else Some(p.cells[slot].tuple)
  }

  function Delete(p: Page, slot: int): (Page, bool) {
    if slot < 0 || slot >= |p.cells| || p.cells[slot].gone then (p, false)
    else
      var c := p.cells[slot];
      (p.(cells := p.cells[slot := Cell(c.tuple.(deleted := true), c.room, true)], dead := p.dead + 1), true)
  }

  /** In place if the tuple fits in its slot, else deleted and inserted again. */
  function Update(p: Page, slot: int, t: Tuple): (Page, int) {
    if slot < 0 || slot >= |p.cells| then (p, -1)
    else
      var c := p.cells[slot];
      if TupleSize(t) > c.room then
        var (q, done) := Delete(p, slot);
        if done then Insert(q, t) else (q, -1)
      else (p.(cells := p.cells[slot := Cell(t, c.room, c.gone)]), slot)
  }

  // ---------------------------------------------------------------- the page as bytes

  function U16(d: Bytes, i: nat): nat
    requires i + 1 < |d|
  {
    d[i] as int + 256 * d[i + 1] as int
  }

  /** Two bytes of a 16-bit number. */
  function Two(n: nat): (bs: Bytes)
    requires n < 0x1_0000
    ensures |bs| == 2 && bs[0] as int + 256 * bs[1] as int == n
  {
    [n % 256, n / 256]
  }

  ghost predicate CellAt(d: Bytes, cells: seq<Cell>, k: nat)
    requires |d| == PAGE_SIZE && k < |cells| && DirectoryEnd(|cells|) <= PAGE_SIZE
  {
    var c := cells[k];
    var from := Floor(cells[..k + 1]);
    && U16(d, SlotAt(k)) == from && U16(d, SlotAt(k) + 2) == c.room && d[SlotAt(k) + 4] == Flag(c.gone)
    && Encodable(c.tuple) && TupleSize(c.tuple) <= c.room
    && 0 <= from && from + c.room <= PAGE_SIZE
    && d[from..from + TupleSize(c.tuple)] == EncodeTuple(c.tuple)
  }

  /** The bytes show the page: the directory ends below the tuples, and the bytes between are zero. */
  ghost predicate Shows(d: Bytes, p: Page) {
    && |d| == PAGE_SIZE && p.dead == Gone(p.cells)
    && DirectoryEnd(|p.cells|) <= Floor(p.cells) <= PAGE_SIZE
    && d[NEXT_AT..NEXT_AT + 4] == EncodeInt32(p.next)
    && U16(d, COUNT_AT) == |p.cells| && U16(d, DELETED_AT) == p.dead && U16(d, FREE_AT) == Floor(p.cells)
    && (forall k: nat {:trigger CellAt(d, p.cells, k)} | k < |p.cells| :: CellAt(d, p.cells, k))
    && (forall i | DirectoryEnd(|p.cells|) <= i < Floor(p.cells) :: d[i] == 0)
  }

  lemma {:induction false} FloorDown(cells: seq<Cell>, j: nat, k: nat)
    requires j <= k <= |cells|
    ensures Floor(cells[..k]) <= Floor(cells[..j])
    ensures j < k ==> Floor(cells[..k]) + cells[j].room <= Floor(cells[..j])
    decreases k - j
  {
    if j < k {
      assert cells[..k][..k - 1] == cells[..k - 1];
      if j < k - 1 { FloorDown(cells, j, k - 1); }
    }
  }

  /** The bytes of different slots do not overlap, and lie between the directory and the end of the page. */
  lemma {:induction false} SlotsDisjoint(d: Bytes, p: Page, j: nat, k: nat)
    requires Shows(d, p) && j < k < |p.cells|
    ensures DirectoryEnd(|p.cells|) <= U16(d, SlotAt(k))
    ensures U16(d, SlotAt(k)) + p.cells[k].room <= U16(d, SlotAt(j))
    ensures U16(d, SlotAt(j)) + p.cells[j].room <= PAGE_SIZE
  {
    hide CellAt, Shows, Floor;
    CellFrom(d, p, j);
    CellFrom(d, p, k);
    FloorDown(p.cells, j + 1, k);
    FloorDown(p.cells, k, k + 1);
    FloorDown(p.cells, k + 1, |p.cells|);
    assert p.cells[..|p.cells|] == p.cells;
  }

  lemma {:induction false} CellFrom(d: Bytes, p: Page, k: nat)
    requires Shows(d, p) && k < |p.cells|
    ensures U16(d, SlotAt(k)) == Floor(p.cells[..k + 1]) && U16(d, SlotAt(k)) + p.cells[k].room <= PAGE_SIZE
    ensures DirectoryEnd(|p.cells|) <= Floor(p.cells)
  {
    assert CellAt(d, p.cells, k);
  }

  // ---------------------------------------------------------------- what the operations mean

  /** A tuple that was just stored is read back; all other slots read as before. */
  lemma {:induction false} GetAfterInsert(p: Page, t: Tuple, s: int)
    requires !t.deleted
    ensures var (q, at) := Insert(p, t);
            Get(q, s) == if at != -1 && s == at then Some(t) else Get(p, s)
  {
  }

  lemma {:induction false} GetAfterDelete(p: Page, slot: int, s: int)
    ensures var (q, done) := Delete(p, slot);
            Get(q, s) == if done && s == slot then None else Get(p, s)
  {
  }

  /** An update of a live slot stores the tuple in the slot it returns; the old slot is emptied when the
      tuple moved, also when there was no room to move to; all other slots read as before. */
  lemma {:induction false} GetAfterUpdate(p: Page, slot: int, t: Tuple, s: int)
    requires !t.deleted && Get(p, slot) != None
    ensures var (q, at) := Update(p, slot, t);
            Get(q, s) == if at != -1 && s == at then Some(t) else if s == slot then None else Get(p, s)
  {
  }

  datatype Op = InsertOp(t: Tuple) | DeleteOp(slot: int) | UpdateOp(slot: int, t: Tuple)

  function Apply(p: Page, op: Op): Page {
    match op
    case InsertOp(t) => Insert(p, t).0
    case DeleteOp(s) => Delete(p, s).0
    case UpdateOp(s, t) => Update(p, s, t).0
  }

  function Run(p: Page, ops: seq<Op>): Page
    decreases ops
  {
    if ops == [] then p else Run(Apply(p, ops[0]), ops[1..])
  }

  /** What an operation reports to its caller: tuples stored in a slot and slots emptied. */
  datatype Event = Stored(slot: int, t: Tuple) | Cleared(slot: int)

  function Events(p: Page, op: Op): seq<Event> {
    match op
    case InsertOp(t) => if Insert(p, t).1 == -1 then [] else [Stored(Insert(p, t).1, t)]
    case DeleteOp(s) => if Delete(p, s).1 then [Cleared(s)] else []
    case UpdateOp(s, t) =>
      var at := Update(p, s, t).1;
      if Get(p, s) == None then []
      else if at == s then [Stored(s, t)]
      else [Cleared(s)] + if at == -1 then [] else [Stored(at, t)]
  }

  function AllEvents(p: Page, ops: seq<Op>): seq<Event>
    decreases ops
  {
    if ops == [] then [] else Events(p, ops[0]) + AllEvents(Apply(p, ops[0]), ops[1..])
  }

  /** The last thing that happened to a slot. */
  function LastOf(es: seq<Event>, s: int, before: Option<Tuple>): Option<Tuple> {
    if es == [] then before
    else
      LastOf(es[1..], s, if es[0].slot != s then before else if es[0].Stored? then Some(es[0].t) else None)
  }

  lemma {:induction false} LastOfConcat(a: seq<Event>, b: seq<Event>, s: int, before: Option<Tuple>)
    ensures LastOf(a + b, s, before) == LastOf(b, s, LastOf(a, s, before))
  {
    if a == [] {
      assert a + b == b;
    } else {
      assert (a + b)[1..] == a[1..] + b;
      LastOfConcat(a[1..], b, s, if a[0].slot != s then before else if a[0].Stored? then Some(a[0].t) else None);
    }
  }

  lemma {:induction false} LastOfOne(e: Event, s: int, before: Option<Tuple>)
    ensures LastOf([e], s, before) == if e.slot != s then before else if e.Stored? then Some(e.t) else None
  {
    assert [e][1..] == [];
  }

  /** Live slots hold live tuples, as long as live tuples are stored. */
  predicate Clean(p: Page) {
    forall i | 0 <= i < |p.cells| :: !p.cells[i].gone ==> !p.cells[i].tuple.deleted
  }

  predicate CleanOp(op: Op) {
    match op
    case InsertOp(t) => !t.deleted
    case DeleteOp(_) => true
    case UpdateOp(_, t) => !t.deleted
  }

  lemma {:induction false} GetAfterOp(p: Page, op: Op, s: int)
    requires Clean(p) && CleanOp(op)
    ensures Clean(Apply(p, op)) && Get(Apply(p, op), s) == LastOf(Events(p, op), s, Get(p, s))
  {
    match op
    case InsertOp(t) => GetAfterInsert(p, t, s);
    case DeleteOp(x) => GetAfterDelete(p, x, s);
    case UpdateOp(x, t) => UpdateEvents(p, x, t, s);
  }

  lemma {:induction false} UpdateEvents(p: Page, x: int, t: Tuple, s: int)
    requires Clean(p) && !t.deleted
    ensures Clean(Update(p, x, t).0) && Get(Update(p, x, t).0, s) == LastOf(Events(p, UpdateOp(x, t)), s, Get(p, s))
  {
    if Get(p, x) != None {
      GetAfterUpdate(p, x, t, s);
      var at := Update(p, x, t).1;
      var es := Events(p, UpdateOp(x, t));
      if at == x {
        assert es[1..] == [];
      } else if at != -1 {
        assert es == [Cleared(x)] + [Stored(at, t)];
        LastOfConcat([Cleared(x)], [Stored(at, t)], s, Get(p, s));
        LastOfOne(Cleared(x), s, Get(p, s));
        LastOfOne(Stored(at, t), s, LastOf([Cleared(x)], s, Get(p, s)));
      } else {
        assert es[1..] == [];
      }
    }
  }

  /** Over any run, a slot reads as the last tuple stored in it, or as nothing once it was emptied. */
  lemma {:induction false} RunGet(p: Page, ops: seq<Op>, s: int)
    requires Clean(p) && forall i | 0 <= i < |ops| :: CleanOp(ops[i])
    ensures Get(Run(p, ops), s) == LastOf(AllEvents(p, ops), s, Get(p, s))
    decreases ops
  {
    if ops != [] {
      GetAfterOp(p, ops[0], s);
      RunGet(Apply(p, ops[0]), ops[1..], s);
      LastOfConcat(Events(p, ops[0]), AllEvents(Apply(p, ops[0]), ops[1..]), s, Get(p, s));
    }
  }
}
