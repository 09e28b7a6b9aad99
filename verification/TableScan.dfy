/** The sequential scan: a cursor over the slots of the page chain. */
module TableScan {
  import opened Basics
  import opened TupleCodec
  import opened SlottedPages
  import opened TableModel
  import opened TableHeaps
  import opened Abort

  datatype Row = Row(at: RowId, tuple: Tuple)

  // ---------------------------------------------------------------- the rows in scan order

  /** The live rows from slot `s` of the i-th page on. */
  ghost function From(h: Heap, i: nat, s: nat): seq<Row>
    requires |h.ids| == |h.pages|
    decreases if i < |h.ids| then |h.ids| - i else 0,
              if i < |h.ids| && s < |h.pages[i].cells| then |h.pages[i].cells| - s else 0
  {
    if i >= |h.ids| then []
    else if s >= |h.pages[i].cells| then From(h, i + 1, 0)
    else
      var t := Get(h.pages[i], s);
      (if t == None then [] else [Row(RowId(h.ids[i], s), t.value)]) + From(h, i, s + 1)
  }

  /** `a` comes before `b`, by page and then by slot. */
  predicate Precedes(a: RowId, b: RowId) {
    a.page < b.page || (a.page == b.page && a.slot < b.slot)
  }

  /** The scan lists live rows at or behind the cursor, with their tuples, in (page, slot) order. */
  lemma {:induction false} ScanLists(h: Heap, i: nat, s: nat)
    requires WellFormed(h)
    ensures if i < |h.ids| then Lists(h, i, s, From(h, i, s)) else From(h, i, s) == []
    decreases if i < |h.ids| then |h.ids| - i else 0,
              if i < |h.ids| && s < |h.pages[i].cells| then |h.pages[i].cells| - s else 0
  {
    hide LookUp, Lists;
    if i < |h.ids| {
      if s >= |h.pages[i].cells| {
        ScanLists(h, i + 1, 0);
        assert From(h, i, s) == From(h, i + 1, 0);
        ListsPage(h, i, s, From(h, i + 1, 0));
      } else {
        ScanLists(h, i, s + 1);
        GetIsLookUp(h, i, s);
        var t := Get(h.pages[i], s);
        var here := if t == None then [] else [Row(RowId(h.ids[i], s), t.value)];
        ListsHead(h, i, s, here, From(h, i, s + 1));
      }
    }
  }

  lemma GetIsLookUp(h: Heap, i: nat, s: nat)
    requires WellFormed(h) && i < |h.ids|
    ensures LookUp(h, RowId(h.ids[i], s)) == Get(h.pages[i], s)
  {
    IndexIs(h, i);
  }

  /** Rows of later pages are behind every slot of this one. */
  lemma ListsPage(h: Heap, i: nat, s: nat, rows: seq<Row>)
    requires WellFormed(h) && i < |h.ids| && (if i + 1 < |h.ids| then Lists(h, i + 1, 0, rows) else rows == [])
    ensures Lists(h, i, s, rows)
  {
    hide LookUp;
    assert i + 1 < |h.ids| ==> h.ids[i] < h.ids[i + 1];
  }

  /** What the rows from the cursor on are like. */
  ghost predicate Lists(h: Heap, i: nat, s: nat, rows: seq<Row>)
    requires |h.ids| == |h.pages| && i < |h.ids|
  {
    && (forall k | 0 <= k < |rows| ::
          && LookUp(h, rows[k].at) == Some(rows[k].tuple) && rows[k].at.slot >= 0
          && (rows[k].at.page > h.ids[i] || (rows[k].at.page == h.ids[i] && rows[k].at.slot >= s)))
    && (forall k, m | 0 <= k < m < |rows| :: Precedes(rows[k].at, rows[m].at))
  }

  lemma {:induction false} ListsHead(h: Heap, i: nat, s: nat, here: seq<Row>, rows: seq<Row>)
    requires |h.ids| == |h.pages| && i < |h.ids| && Lists(h, i, s + 1, rows) && |here| <= 1
    requires |here| == 1 ==> here[0].at == RowId(h.ids[i], s) && LookUp(h, here[0].at) == Some(here[0].tuple)
    ensures Lists(h, i, s, here + rows)
  {
    hide LookUp;
    var all := here + rows;
    assert forall k | |here| <= k < |all| :: all[k] == rows[k - |here|];
  }

  lemma {:induction false} ScanFinds(h: Heap, i: nat, s: nat, j: nat, x: nat)
    requires WellFormed(h) && j < |h.ids| && x < |h.pages[j].cells| && Get(h.pages[j], x) != None
    requires j > i || (j == i && x >= s)
    ensures Row(RowId(h.ids[j], x), Get(h.pages[j], x).value) in From(h, i, s)
    decreases if i < |h.ids| then |h.ids| - i else 0,
              if i < |h.ids| && s < |h.pages[i].cells| then |h.pages[i].cells| - s else 0
  {
    if s >= |h.pages[i].cells| {
      ScanFinds(h, i + 1, 0, j, x);
    } else {
      var t := Get(h.pages[i], s);
      var here := if t == None then [] else [Row(RowId(h.ids[i], s), t.value)];
      assert From(h, i, s) == here + From(h, i, s + 1);
      if j != i || x != s { ScanFinds(h, i, s + 1, j, x); } else { assert here[0] in here + From(h, i, s + 1); }
    }
  }

  /** A whole scan lists every live row of the table exactly once. */
  lemma {:induction false} ScanComplete(h: Heap)
    requires WellFormed(h)
    ensures forall r: RowId, t: Tuple :: Row(r, t) in From(h, 0, 0) <==> LookUp(h, r) == Some(t)
    ensures forall k, m | 0 <= k < m < |From(h, 0, 0)| :: Precedes(From(h, 0, 0)[k].at, From(h, 0, 0)[m].at)
  {
    ScanLists(h, 0, 0);
    forall r: RowId, t: Tuple
      ensures Row(r, t) in From(h, 0, 0) <==> LookUp(h, r) == Some(t)
    {
      if LookUp(h, r) == Some(t) {
        ScanFinds(h, 0, 0, IndexOf(h.ids, r.page), r.slot);
      }
    }
  }

  // ---------------------------------------------------------------- where a scan starts and stops

  /** The recorded first and last record ids bound the chain; a table without them is empty. */
  ghost predicate Marked(h: Heap) {
    && WellFormed(h)
    && if h.start == NoRid then |h.ids| == 1 && h.pages[0].cells == []
       else h.start == At(h.ids[0], 0) && h.stop.page == h.ids[|h.ids| - 1]
  }

  lemma {:induction false} InsertKeepsMarks(h: Heap, t: Tuple, newId: int)
    requires Marked(h) && Storable(t) && newId > h.ids[|h.ids| - 1]
    ensures Marked(InsertTuple(h, t, newId).0)
  {
    InsertKeepsForm(h, t, newId);
    if h.start == NoRid {
      assert Insert(h.pages[0], t).1 == Insert(EmptyPage, t).1;
    }
  }

  /** The statement stores tuples that a page can hold, and updates a live row. */
  ghost predicate Doable(d: Db, op: Statement)
    requires |d.heap.ids| == |d.heap.pages| > 0
  {
    match op
    case InsertRow(t) => Storable(t)
    case UpdateRow(rid, t) => Storable(t) && LookUp(d.heap, rid.actual) != None && rid.page in d.heap.ids
    case DeleteRow(_) => true
  }

  ghost predicate Reached(d: Db) {
    Marked(d.heap) && d.next > d.heap.ids[|d.heap.ids| - 1]
  }

  /** Every statement keeps the marks, moved rows included. */
  lemma {:induction false} StatementKeepsMarks(d: Db, op: Statement)
    requires Reached(d) && Doable(d, op)
    ensures Reached(Execute(d, op).0)
  {
    hide Marked, Storable, LookUp, InsertTuple, UpdateTuple, DeleteTuple;
    MarkedForm(d.heap);
    match op
    case InsertRow(t) =>
      InsertKeepsMarks(d.heap, t, d.next);
      InsertedLast(d.heap, t, d.next);
    case UpdateRow(rid, t) => UpdateKeepsMarks(d.heap, rid, t, d.next);
    case DeleteRow(rid) => DeleteKeepsMarks(d.heap, rid);
  }

  lemma MarkedForm(h: Heap)
    requires Marked(h)
    ensures WellFormed(h)
  {
  }

  lemma InsertedLast(h: Heap, t: Tuple, newId: int)
    requires WellFormed(h) && newId > h.ids[|h.ids| - 1]
    ensures InsertTuple(h, t, newId).0.ids == if FitsLast(h, t) then h.ids else h.ids + [newId]
    ensures |InsertTuple(h, t, newId).0.ids| == |InsertTuple(h, t, newId).0.pages|
  {
  }

  lemma DeleteKeepsMarks(h: Heap, rid: RID)
    requires Marked(h)
    ensures Marked(DeleteTuple(h, rid).0) && DeleteTuple(h, rid).0.ids == h.ids
  {
    if h.start == NoRid { assert h.pages[0].cells == []; }
  }

  lemma {:induction false} UpdateKeepsMarks(h: Heap, rid: RID, t: Tuple, newId: int)
    requires Marked(h) && Storable(t) && LookUp(h, rid.actual) != None && rid.page in h.ids
    requires newId > h.ids[|h.ids| - 1]
    ensures var h' := UpdateTuple(h, rid, t, newId).0;
            && Marked(h') && (h'.ids == h.ids || h'.ids == h.ids + [newId])
  {
    hide Storable, InsertTuple, SlottedPages.Delete, SlottedPages.Update, LookUp;
    LiveIsMarked(h, rid.actual);
    var i := IndexOf(h.ids, rid.page);
    var h1 := h.(pages := h.pages[i := SlottedPages.Delete(h.pages[i], rid.slot).0]);
    InsertKeepsMarks(h1, t, newId);
    InsertedLast(h1, t, newId);
  }

  /** A table with a live row has its marks. */
  lemma LiveIsMarked(h: Heap, r: RowId)
    requires Marked(h) && LookUp(h, r) != None
    ensures h.start != NoRid
  {
  }

  ghost predicate AllDoable(d: Db, ops: seq<Statement>)
    requires Reached(d)
    decreases ops
  {
    ops != [] ==> Doable(d, ops[0]) && (StatementKeepsMarks(d, ops[0]); AllDoable(Execute(d, ops[0]).0, ops[1..]))
  }

  /** The table after the statements. */
  ghost function After(d: Db, ops: seq<Statement>): (d': Db)
    requires Reached(d) && AllDoable(d, ops)
    ensures Reached(d')
    decreases ops
  {
    if ops == [] then d
    else
      StatementKeepsMarks(d, ops[0]);
      After(Execute(d, ops[0]).0, ops[1..])
  }

  /** Every table that statements make of a new one can be scanned: its marks bound the chain, and the scan lists
      exactly the live rows. */
  lemma {:induction false} RunCanBeScanned(page: int, ops: seq<Statement>)
    requires page > 0
    ensures Reached(Db(NewTable(page), page + 1))
    ensures var d := Db(NewTable(page), page + 1);
            AllDoable(d, ops) ==>
              var h := After(d, ops).heap;
              Marked(h) && forall r: RowId, t: Tuple :: Row(r, t) in From(h, 0, 0) <==> LookUp(h, r) == Some(t)
  {
    var d := Db(NewTable(page), page + 1);
    if AllDoable(d, ops) { ScanComplete(After(d, ops).heap); }
  }

  class SeqScan {
    const table: TableHeap
    var curr: RowId
    /** The row just returned. */
    var prev: RowId
    /** The index of the current page in the chain. */
    ghost var position: nat

    ghost predicate Opened()
      reads this, table
    {
      && table.Valid() && Marked(table.State())
      && if table.startingRid == NoRid then curr.page == -1
         else position < |table.ids| && curr.page == table.ids[position] && curr.slot >= 0
    }

    ghost function Remaining(): seq<Row>
      requires Opened()
      reads this, table
    {
      if table.startingRid == NoRid then [] else From(table.State(), position, curr.slot)
    }

    constructor (table: TableHeap)
      requires table.Valid() && Marked(table.State())
      ensures this.table == table && Opened() && Remaining() == From(table.State(), 0, 0)
    {
      this.table := table;
      curr := RowId(table.startingRid.page, table.startingRid.slot);
      prev := RowId(-1, -1);
      position := 0;
      new;
      EmptyScan(table.State());
    }

    /** The next live row, whose place is kept; nothing at the end of the table. */
    method GetNext() returns (t: Option<Tuple>)
      requires Opened()
      modifies this
      ensures Opened()
      ensures var rest := old(Remaining());
              if rest == [] then t == None && Remaining() == []
              else t == Some(rest[0].tuple) && prev == rest[0].at && Remaining() == rest[1..]
    {
      hide Chained, Marked, WellFormed, LookUp, From;
      while true
        invariant Opened() && Remaining() == old(Remaining())
        decreases Ahead()
      {
        var eof;
        t, eof := Step();
        if eof || t != None {
          return;
        }
      }
    }

    /** The slots and pages ahead of the cursor. */
    ghost function Ahead(): nat
      requires table.Valid()
      reads this, table
    {
      SlotsFrom(table.State(), position, curr.slot)
    }

    /** Looks at one slot, or goes to the next page and looks at its first slot. */
    method Step() returns (t: Option<Tuple>, eof: bool)
      requires Opened()
      modifies this
      ensures Opened() && (eof ==> t == None && old(Remaining()) == [] && Remaining() == [])
      ensures !eof && t == None ==> Remaining() == old(Remaining()) && Ahead() < old(Ahead())
      ensures !eof && t != None ==>
                var rest := old(Remaining());
                rest != [] && t == Some(rest[0].tuple) && prev == rest[0].at && Remaining() == rest[1..]
    {
      hide Chained, WellFormed, LookUp, From, SlotsFrom;
      ChainedFacts(table.pages, table.ids, table.nextPage);
      if curr.page == -1 {
        return None, true;
      }
      ghost var h := table.State();
      NextOf(table.pages, table.ids, table.nextPage, position);
      ScanStep(h, position, curr.slot);
      var page := table.pages[curr.page];
      if curr.slot >= |page.cells| {
        var next := page.next as int;
        if next > table.stoppingRid.page || next == -1 {
          assert table.startingRid != NoRid && Marked(h) && h.stop.page == table.ids[|table.ids| - 1];
          assert position + 1 == |h.ids| && From(h, position + 1, 0) == [];
          assert From(h, position, curr.slot) == [];
          return None, true;
        }
        eof := false;
        position := position + 1;
        ScanStep(h, position, 0);
        t := Get(table.pages[next], 0);
        prev := RowId(next, 0);
        curr := RowId(next, 1);
      } else {
        eof := false;
        t := Get(page, curr.slot);
        prev := curr;
        curr := RowId(curr.page, curr.slot + 1);
      }
    }
  }

  ghost function SlotsFrom(h: Heap, i: nat, s: int): nat
    requires |h.ids| == |h.pages|
    decreases if i < |h.ids| then |h.ids| - i else 0
  {
    if i >= |h.ids| then 0
    else (if s < |h.pages[i].cells| then |h.pages[i].cells| - s else 0) + 2 + SlotsFrom(h, i + 1, 0)
  }

  lemma EmptyScan(h: Heap)
    requires Marked(h)
    ensures h.start == NoRid ==> From(h, 0, 0) == []
  {
    if h.start == NoRid { assert From(h, 0, 0) == From(h, 1, 0); }
  }

  lemma NextOf(pages: map<int, Page>, ids: seq<int>, nextPage: int, i: nat)
    requires Chained(pages, ids, nextPage) && i < |ids|
    ensures ids[i] in pages && pages[ids[i]].next == if i + 1 < |ids| then ids[i + 1] else -1
    ensures i + 1 < |ids| ==> ids[i + 1] <= ids[|ids| - 1]
  {
  }

  lemma ScanStep(h: Heap, i: nat, s: nat)
    requires |h.ids| == |h.pages| && i < |h.ids|
    ensures if s >= |h.pages[i].cells| then From(h, i, s) == From(h, i + 1, 0)
            else
              var t := Get(h.pages[i], s);
              From(h, i, s) == (if t == None then [] else [Row(RowId(h.ids[i], s), t.value)]) + From(h, i, s + 1)
    ensures From(h, |h.ids|, 0) == []
    ensures SlotsFrom(h, i, s + 1) < SlotsFrom(h, i, s) || s >= |h.pages[i].cells|
    ensures SlotsFrom(h, i + 1, 1) <= SlotsFrom(h, i + 1, 0) < SlotsFrom(h, i, s)
    ensures |h.pages[i].cells| == 0 ==> From(h, i, 1) == From(h, i, 0) && Get(h.pages[i], 0) == None
  {
  }
}
