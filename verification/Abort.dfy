/** Transactions on a table and their undoing in reverse order. */
module Abort {
  import opened Basics
  import opened TupleCodec
  import opened TableModel

  /** A table and the next page id that the disk hands out. */
  datatype Db = Db(heap: Heap, next: int)

  datatype WriteType = INSERT_WRITE | UPDATE_WRITE | DELETE_WRITE

  datatype WriteRecord = WriteRecord(kind: WriteType, rid: RID, oldTuple: Tuple)

  datatype Statement = InsertRow(t: Tuple) | UpdateRow(rid: RID, t: Tuple) | DeleteRow(rid: RID)

  ghost predicate Valid(d: Db) {
    WellFormed(d.heap) && RoomFor(d.heap) && d.next > d.heap.ids[|d.heap.ids| - 1]
  }

  const NoTuple: Tuple := Tuple(false, [])

  function DoInsert(d: Db, t: Tuple): (Db, RID)
    requires |d.heap.ids| == |d.heap.pages| > 0
  {
    var (h, rid) := InsertTuple(d.heap, t, d.next);
    (Db(h, if FitsLast(d.heap, t) then d.next else d.next + 1), rid)
  }

  function DoUpdate(d: Db, rid: RID, t: Tuple): Db
    requires |d.heap.ids| == |d.heap.pages| > 0 && LookUp(d.heap, rid.actual) != None && rid.page in d.heap.ids
  {
    var h := UpdateTuple(d.heap, rid, t, d.next).0;
    Db(h, if |h.ids| > |d.heap.ids| then d.next + 1 else d.next)
  }

  /** A statement of a running transaction, with the record it leaves in the write set. */
  function Execute(d: Db, op: Statement): (Db, WriteRecord)
    requires |d.heap.ids| == |d.heap.pages| > 0
    requires op.UpdateRow? ==> LookUp(d.heap, op.rid.actual) != None && op.rid.page in d.heap.ids
  {
    match op
    case InsertRow(t) =>
      var (d', rid) := DoInsert(d, t);
      (d', WriteRecord(INSERT_WRITE, rid, NoTuple))
    case UpdateRow(rid, t) =>
      (DoUpdate(d, rid, t), WriteRecord(UPDATE_WRITE, rid, LookUp(d.heap, rid.actual).value))
    case DeleteRow(rid) =>
      var was := LookUp(d.heap, rid.actual);
      (d.(heap := DeleteTuple(d.heap, rid).0),
       WriteRecord(DELETE_WRITE, rid, if was == None then NoTuple else was.value))
  }

  /** The inverse of a recorded write. */
  function RollBack(d: Db, w: WriteRecord): Db
    requires |d.heap.ids| == |d.heap.pages| > 0
    requires w.kind == UPDATE_WRITE ==> LookUp(d.heap, w.rid.actual) != None && w.rid.page in d.heap.ids
  {
    match w.kind
    case UPDATE_WRITE => DoUpdate(d, w.rid, w.oldTuple)
    case INSERT_WRITE => d.(heap := DeleteTuple(d.heap, w.rid).0)
    case DELETE_WRITE => DoInsert(d, w.oldTuple).0
  }

  // ---------------------------------------------------------------- transactions that can be undone

  /** Where a statement puts its row. */
  function Target(d: Db, op: Statement): RowId
    requires |d.heap.ids| == |d.heap.pages| > 0
  {
    match op
    case InsertRow(t) => NewPlace(d.heap, t, d.next)
    case UpdateRow(rid, _) => rid.actual
    case DeleteRow(rid) => rid.actual
  }

  /** Rows are stored, updated at the same size and deleted where they are. */
  ghost predicate Allowed(d: Db, op: Statement)
    requires |d.heap.ids| == |d.heap.pages| > 0
  {
    match op
    case InsertRow(t) => Storable(t)
    case UpdateRow(rid, t) =>
      && rid.actual == RowId(rid.page, rid.slot) && LookUp(d.heap, rid.actual) != None && !t.deleted
      && TupleSize(t) == TupleSize(LookUp(d.heap, rid.actual).value)
    case DeleteRow(rid) =>
      && rid.actual == RowId(rid.page, rid.slot) && LookUp(d.heap, rid.actual) != None
      && Storable(LookUp(d.heap, rid.actual).value)
  }

  function Deleted(ops: seq<Statement>): set<RowId> {
    set i | 0 <= i < |ops| && ops[i].DeleteRow? :: ops[i].rid.actual
  }

  lemma {:induction false} ExecuteKeepsValid(d: Db, op: Statement)
    requires Valid(d) && Allowed(d, op)
    ensures op.UpdateRow? ==> op.rid.page in d.heap.ids
    ensures var (d', w) := Execute(d, op); Valid(d') && forall id | id in d.heap.ids :: id in d'.heap.ids
  {
    match op
    case InsertRow(t) => InsertKeepsDb(d, t);
    case UpdateRow(rid, t) => LookUpAfterUpdate(d.heap, rid, t, d.next, rid.actual);
    case DeleteRow(rid) =>
      LookUpAfterDelete(d.heap, rid, rid.actual);
      DeleteKeepsRoom(d.heap, rid);
  }

  lemma {:induction false} InsertKeepsDb(d: Db, t: Tuple)
    requires Valid(d) && Storable(t)
    ensures var (d', rid) := DoInsert(d, t);
            && Valid(d') && rid.page in d'.heap.ids && rid.actual == RowId(rid.page, rid.slot)
            && forall id | id in d.heap.ids :: id in d'.heap.ids
  {
    InsertKeepsForm(d.heap, t, d.next);
    InsertKeepsRoom(d.heap, t, d.next);
    var h' := InsertTuple(d.heap, t, d.next).0;
    assert h'.ids[|h'.ids| - 1] in h'.ids;
  }

  /** A transaction: every statement is allowed, and no row is deleted after it was inserted or updated. */
  ghost predicate Transacts(d: Db, ops: seq<Statement>)
    requires Valid(d)
    decreases ops
  {
    ops != [] ==>
      && Allowed(d, ops[0]) && (ops[0].DeleteRow? || Target(d, ops[0]) !in Deleted(ops[1..]))
      && (ExecuteKeepsValid(d, ops[0]); Transacts(Execute(d, ops[0]).0, ops[1..]))
  }

  ghost function ExecuteAll(d: Db, ops: seq<Statement>): (r: (Db, seq<WriteRecord>))
    requires Valid(d) && Transacts(d, ops)
    ensures Valid(r.0) && |r.1| == |ops|
    decreases ops
  {
    if ops == [] then (d, [])
    else
      ExecuteKeepsValid(d, ops[0]);
      var (d', w) := Execute(d, ops[0]);
      var (end, ws) := ExecuteAll(d', ops[1..]);
      (end, [w] + ws)
  }

  // ---------------------------------------------------------------- undoing

  /** `x` is `d` but for the rows in `gone`, which are elsewhere, and the rows `extra`, which are too many. */
  ghost predicate Similar(x: Db, d: Db, gone: set<RowId>, extra: multiset<Tuple>) {
    && Valid(x) && Valid(d)
    && (forall id | id in d.heap.ids :: id in x.heap.ids)
    && (forall r | r !in gone && LookUp(d.heap, r) != None :: LookUp(x.heap, r) == LookUp(d.heap, r))
    && Live(x.heap) == Live(d.heap) + extra
    && x.heap.count == d.heap.count
  }

  /** The tuple that an undone insertion leaves behind: the one whose record id has slot -1. */
  ghost function Leftover(op: Statement, w: WriteRecord): multiset<Tuple> {
    if op.InsertRow? && w.rid.slot == -1 then multiset{op.t} else multiset{}
  }

  ghost predicate Undone(x: Db, d: Db, op: Statement, gone: set<RowId>, extra: multiset<Tuple>)
    requires Valid(d) && Allowed(d, op)
  {
    ExecuteKeepsValid(d, op);
    var (d', w) := Execute(d, op);
    && Valid(x) && (w.kind == UPDATE_WRITE ==> LookUp(x.heap, w.rid.actual) != None && w.rid.page in x.heap.ids)
    && Similar(RollBack(x, w), d, gone + (if op.DeleteRow? then {op.rid.actual} else {}), extra + Leftover(op, w))
  }

  /** What an insertion did. */
  lemma {:induction false} InsertFacts(d: Db, t: Tuple)
    requires Valid(d) && Storable(t)
    ensures var (d', rid) := DoInsert(d, t);
            var p := NewPlace(d.heap, t, d.next);
            && Valid(d') && rid.page in d'.heap.ids && rid.actual == RowId(rid.page, rid.slot)
            && (rid.slot == -1 || rid.actual == p)
            && (forall id | id in d.heap.ids :: id in d'.heap.ids)
            && LookUp(d.heap, p) == None
            && (forall r :: LookUp(d'.heap, r) == if r == p then Some(t) else LookUp(d.heap, r))
            && Live(d'.heap) == Live(d.heap) + multiset{t} && d'.heap.count == d.heap.count + 1
  {
    hide Live, LookUp, RoomFor, Storable, DoInsert, FitsLast, InsertTuple, NewPlace;
    InsertKeepsDb(d, t);
    InsertedAt(d, t);
    InsertedLive(d, t);
    InsertPlaces(d, t);
  }

  lemma {:induction false} InsertedLive(d: Db, t: Tuple)
    requires Valid(d) && Storable(t)
    ensures Live(DoInsert(d, t).0.heap) == Live(d.heap) + multiset{t} && DoInsert(d, t).0.heap.count == d.heap.count + 1
    ensures WellFormed(DoInsert(d, t).0.heap)
  {
    LiveAfterInsert(d.heap, t, d.next);
  }

  lemma {:induction false} InsertPlaces(d: Db, t: Tuple)
    requires Valid(d) && Storable(t)
    ensures var h, p := DoInsert(d, t).0.heap, NewPlace(d.heap, t, d.next);
            && WellFormed(h) && LookUp(d.heap, p) == None
            && (forall r :: LookUp(h, r) == if r == p then Some(t) else LookUp(d.heap, r))
  {
    InsertKeepsForm(d.heap, t, d.next);
    var p := NewPlace(d.heap, t, d.next);
    forall r ensures LookUp(DoInsert(d, t).0.heap, r) == if r == p then Some(t) else LookUp(d.heap, r) {
      LookUpAfterInsert(d.heap, t, d.next, r);
    }
    LookUpAfterInsert(d.heap, t, d.next, p);
  }

  /** What deleting a live row does. */
  lemma {:induction false} DeleteFacts(d: Db, rid: RID)
    requires Valid(d) && rid.actual.page == rid.page && LookUp(d.heap, rid.actual) != None
    ensures var h := DeleteTuple(d.heap, rid).0;
            && Valid(d.(heap := h)) && h.ids == d.heap.ids
            && (forall r :: LookUp(h, r) == if r == rid.actual then None else LookUp(d.heap, r))
            && Live(h) + multiset{LookUp(d.heap, rid.actual).value} == Live(d.heap) && h.count == d.heap.count - 1
  {
    LiveAfterDelete(d.heap, rid);
    DeleteKeepsRoom(d.heap, rid);
    LookUpAfterDelete(d.heap, rid, rid.actual);
    forall r ensures LookUp(DeleteTuple(d.heap, rid).0, r) == if r == rid.actual then None else LookUp(d.heap, r) {
      LookUpAfterDelete(d.heap, rid, r);
    }
  }

  /** What an update at the same size does. */
  lemma {:induction false} UpdateFacts(d: Db, rid: RID, t: Tuple)
    requires Valid(d) && rid.actual == RowId(rid.page, rid.slot) && !t.deleted && LookUp(d.heap, rid.actual) != None
    requires TupleSize(t) == TupleSize(LookUp(d.heap, rid.actual).value)
    ensures rid.page in d.heap.ids
    ensures var d' := DoUpdate(d, rid, t);
            && Valid(d') && d'.heap.ids == d.heap.ids
            && (forall r :: LookUp(d'.heap, r) == if r == rid.actual then Some(t) else LookUp(d.heap, r))
            && Live(d'.heap) + multiset{LookUp(d.heap, rid.actual).value} == Live(d.heap) + multiset{t}
            && d'.heap.count == d.heap.count
  {
    LiveAfterUpdate(d.heap, rid, t, d.next);
    LookUpAfterUpdate(d.heap, rid, t, d.next, rid.actual);
    forall r ensures LookUp(DoUpdate(d, rid, t).heap, r) == if r == rid.actual then Some(t) else LookUp(d.heap, r) {
      LookUpAfterUpdate(d.heap, rid, t, d.next, r);
    }
  }

  lemma {:induction false} UndoInsert(x: Db, d: Db, t: Tuple, gone: set<RowId>, extra: multiset<Tuple>)
    requires Valid(d) && Storable(t) && NewPlace(d.heap, t, d.next) !in gone
    requires Similar(x, DoInsert(d, t).0, gone, extra)
    ensures Undone(x, d, InsertRow(t), gone, extra)
  {
    hide Live, LookUp, Storable, RoomFor, DoInsert, DeleteTuple, NewPlace;
    InsertFacts(d, t);
    var rid := DoInsert(d, t).1;
    if rid.slot == -1 {
      UndoLost(x, rid);
    } else {
      assert LookUp(DoInsert(d, t).0.heap, rid.actual) == Some(t);
      DeleteFacts(x, rid);
      Cancel(Live(DeleteTuple(x.heap, rid).0), Live(d.heap) + (extra + multiset{}), t);
    }
  }

  lemma Cancel(a: multiset<Tuple>, b: multiset<Tuple>, t: Tuple)
    requires a + multiset{t} == b + multiset{t}
    ensures a == b
  {
    forall x ensures a[x] == b[x] {
      assert (a + multiset{t})[x] == (b + multiset{t})[x];
    }
  }

  /** Undoing an insertion by slot -1 only counts down. */
  lemma {:induction false} UndoLost(d: Db, rid: RID)
    requires Valid(d) && rid.page in d.heap.ids && rid.actual.slot == -1
    ensures var h := DeleteTuple(d.heap, rid).0;
            && Valid(d.(heap := h)) && h.ids == d.heap.ids && (forall r :: LookUp(h, r) == LookUp(d.heap, r))
            && Live(h) == Live(d.heap) && h.count == d.heap.count - 1
  {
    DeleteNothing(d.heap, rid);
    SameRows(DeleteTuple(d.heap, rid).0, d.heap);
  }

  lemma {:induction false} UndoUpdate(x: Db, d: Db, rid: RID, t: Tuple, gone: set<RowId>, extra: multiset<Tuple>)
    requires Valid(d) && Allowed(d, UpdateRow(rid, t)) && rid.actual !in gone && rid.page in d.heap.ids
    requires Similar(x, DoUpdate(d, rid, t), gone, extra)
    ensures Undone(x, d, UpdateRow(rid, t), gone, extra)
  {
    hide Live, LookUp, Storable, RoomFor, DoUpdate;
    UpdateFacts(d, rid, t);
    LiveIsClean(d.heap, rid.actual);
    var was := LookUp(d.heap, rid.actual).value;
    UpdateFacts(x, rid, was);
    var y := DoUpdate(x, rid, was);
    assert Live(y.heap) + multiset{t} == Live(d.heap) + extra + multiset{t} by {
      assert LookUp(x.heap, rid.actual) == Some(t);
      assert Live(x.heap) + multiset{was} == Live(DoUpdate(d, rid, t).heap) + multiset{was} + extra;
    }
    Cancel(Live(y.heap), Live(d.heap) + (extra + multiset{}), t);
  }

  lemma LiveIsClean(h: Heap, r: RowId)
    requires |h.ids| == |h.pages| && LookUp(h, r) != None
    ensures !LookUp(h, r).value.deleted
  {
  }

  lemma {:induction false} UndoDelete(x: Db, d: Db, rid: RID, gone: set<RowId>, extra: multiset<Tuple>)
    requires Valid(d) && Allowed(d, DeleteRow(rid))
    requires Similar(x, Execute(d, DeleteRow(rid)).0, gone, extra)
    ensures Undone(x, d, DeleteRow(rid), gone, extra)
  {
    hide Live, LookUp, Storable, RoomFor, DoInsert, DeleteTuple, NewPlace;
    DeleteFacts(d, rid);
    InsertFacts(x, LookUp(d.heap, rid.actual).value);
  }

  /** The record id of a new tuple names its place, or slot -1 of its page. */
  lemma {:induction false} InsertedAt(d: Db, t: Tuple)
    requires Valid(d) && Storable(t)
    ensures var rid, p := DoInsert(d, t).1, NewPlace(d.heap, t, d.next);
            && rid.page == p.page && rid.actual == RowId(rid.page, rid.slot)
            && (if FitsLast(d.heap, t) then rid.actual == p && rid.slot >= 0 else rid.slot == -1)
  {
  }

  lemma {:induction false} UndoOne(x: Db, d: Db, op: Statement, gone: set<RowId>, extra: multiset<Tuple>)
    requires Valid(d) && Allowed(d, op) && (op.DeleteRow? || Target(d, op) !in gone)
    requires op.UpdateRow? ==> op.rid.page in d.heap.ids
    requires Similar(x, Execute(d, op).0, gone, extra)
    ensures Undone(x, d, op, gone, extra)
  {
    hide Similar, Undone, Storable, LookUp;
    match op
    case InsertRow(t) => UndoInsert(x, d, t, gone, extra);
    case UpdateRow(rid, t) => UndoUpdate(x, d, rid, t, gone, extra);
    case DeleteRow(rid) => UndoDelete(x, d, rid, gone, extra);
  }

  /** Every record can be rolled back from the state that the later ones left. */
  ghost predicate CanUndo(x: Db, ws: seq<WriteRecord>)
    decreases |ws|, 0
  {
    && Valid(x)
    && (ws != [] ==>
          && CanUndo(x, ws[1..])
          && var y := UndoAll(x, ws[1..]);
             Valid(y) && (ws[0].kind == UPDATE_WRITE ==>
                            LookUp(y.heap, ws[0].rid.actual) != None && ws[0].rid.page in y.heap.ids))
  }

  /** The records undone from the last to the first. */
  ghost function UndoAll(x: Db, ws: seq<WriteRecord>): Db
    requires CanUndo(x, ws)
    decreases |ws|, 1
  {
    if ws == [] then x else RollBack(UndoAll(x, ws[1..]), ws[0])
  }

  ghost function Leftovers(ops: seq<Statement>, ws: seq<WriteRecord>): multiset<Tuple>
    requires |ops| == |ws|
  {
    if ops == [] then multiset{} else Leftovers(ops[1..], ws[1..]) + Leftover(ops[0], ws[0])
  }

  lemma {:induction false} DeletedHead(ops: seq<Statement>)
    requires ops != []
    ensures Deleted(ops) == Deleted(ops[1..]) + if ops[0].DeleteRow? then {ops[0].rid.actual} else {}
  {
    forall r | r in Deleted(ops[1..]) ensures r in Deleted(ops) {
      var i :| 0 <= i < |ops[1..]| && ops[1..][i].DeleteRow? && ops[1..][i].rid.actual == r;
      assert ops[i + 1].DeleteRow?;
    }
    forall r | r in Deleted(ops) ensures r in Deleted(ops[1..]) || (ops[0].DeleteRow? && r == ops[0].rid.actual) {
      var i :| 0 <= i < |ops| && ops[i].DeleteRow? && ops[i].rid.actual == r;
      if i > 0 { assert ops[1..][i - 1].DeleteRow?; }
    }
    if ops[0].DeleteRow? { assert ops[0].rid.actual in Deleted(ops); }
  }

  /** Undoing all records of a transaction gives back the table, but for the deleted rows, which are put at
      other places, and the rows whose insertion could not be undone. */
  lemma {:induction false} UndoTransaction(d: Db, ops: seq<Statement>)
    requires Valid(d) && Transacts(d, ops)
    ensures var (x, ws) := ExecuteAll(d, ops);
            CanUndo(x, ws) && Similar(UndoAll(x, ws), d, Deleted(ops), Leftovers(ops, ws))
    decreases ops
  {
    if ops != [] {
      ExecuteKeepsValid(d, ops[0]);
      var (d', w) := Execute(d, ops[0]);
      var (x, ws) := ExecuteAll(d', ops[1..]);
      UndoTransaction(d', ops[1..]);
      UndoOne(UndoAll(x, ws), d, ops[0], Deleted(ops[1..]), Leftovers(ops[1..], ws));
      DeletedHead(ops);
      UndoStep(d, ops, x, w, ws);
    }
  }

  lemma {:induction false} UndoStep(d: Db, ops: seq<Statement>, x: Db, w: WriteRecord, ws: seq<WriteRecord>)
    requires Valid(d) && ops != [] && |ws| == |ops| - 1 && CanUndo(x, ws)
    requires Allowed(d, ops[0]) && (ops[0].UpdateRow? ==> ops[0].rid.page in d.heap.ids) && Execute(d, ops[0]).1 == w
    requires Undone(UndoAll(x, ws), d, ops[0], Deleted(ops[1..]), Leftovers(ops[1..], ws))
    requires Deleted(ops) == Deleted(ops[1..]) + if ops[0].DeleteRow? then {ops[0].rid.actual} else {}
    ensures CanUndo(x, [w] + ws) && Similar(UndoAll(x, [w] + ws), d, Deleted(ops), Leftovers(ops, [w] + ws))
  {
    hide Similar, Execute, LookUp, RollBack, Allowed;
    assert ([w] + ws)[1..] == ws;
  }

  // ---------------------------------------------------------------- when an abort restores the table

  /** No insertion of the transaction opened a page. */
  ghost predicate NoPageOpened(ws: seq<WriteRecord>) {
    forall i | 0 <= i < |ws| :: ws[i].kind == INSERT_WRITE ==> ws[i].rid.slot != -1
  }

  lemma {:induction false} NoLeftovers(d: Db, ops: seq<Statement>)
    requires Valid(d) && Transacts(d, ops)
    ensures var ws := ExecuteAll(d, ops).1; Leftovers(ops, ws) == multiset{} <==> NoPageOpened(ws)
    decreases ops
  {
    if ops != [] {
      ExecuteKeepsValid(d, ops[0]);
      var (d', w) := Execute(d, ops[0]);
      NoLeftovers(d', ops[1..]);
      KindOf(d, ops[0]);
      LeftoversHead(ops, w, ExecuteAll(d', ops[1..]).1);
    }
  }

  lemma {:induction false} LeftoversHead(ops: seq<Statement>, w: WriteRecord, ws: seq<WriteRecord>)
    requires |ops| == |ws| + 1 && (w.kind == INSERT_WRITE <==> ops[0].InsertRow?)
    requires Leftovers(ops[1..], ws) == multiset{} <==> NoPageOpened(ws)
    ensures Leftovers(ops, [w] + ws) == multiset{} <==> NoPageOpened([w] + ws)
  {
    var all := [w] + ws;
    assert all[1..] == ws;
    assert NoPageOpened(all) ==> NoPageOpened(ws) by {
      assert forall i | 0 <= i < |ws| :: ws[i] == all[i + 1];
    }
    var one := Leftover(ops[0], w);
    assert Leftovers(ops, all) == Leftovers(ops[1..], ws) + one;
    assert |Leftovers(ops, all)| == |Leftovers(ops[1..], ws)| + |one|;
    assert all[0] == w;
  }

  lemma KindOf(d: Db, op: Statement)
    requires |d.heap.ids| == |d.heap.pages| > 0
    requires op.UpdateRow? ==> LookUp(d.heap, op.rid.actual) != None && op.rid.page in d.heap.ids
    ensures Execute(d, op).1.kind == INSERT_WRITE <==> op.InsertRow?
  {
  }

  /** An abort always restores the tuple counter; it restores the multiset of live rows if and only if no
      insertion of the transaction opened a page. */
  lemma {:induction false} AbortRestores(d: Db, ops: seq<Statement>)
    requires Valid(d) && Transacts(d, ops)
    ensures var (x, ws) := ExecuteAll(d, ops);
            && CanUndo(x, ws)
            && UndoAll(x, ws).heap.count == d.heap.count
            && |UndoAll(x, ws).heap.ids| == |UndoAll(x, ws).heap.pages|
            && (Live(UndoAll(x, ws).heap) == Live(d.heap) <==> NoPageOpened(ws))
  {
    UndoTransaction(d, ops);
    NoLeftovers(d, ops);
    var (x, ws) := ExecuteAll(d, ops);
    var extra := Leftovers(ops, ws);
    assert Live(UndoAll(x, ws).heap) == Live(d.heap) + extra;
    if Live(d.heap) + extra == Live(d.heap) {
      assert |Live(d.heap) + extra| == |Live(d.heap)| + |extra|;
    }
  }

  /** A transaction that inserts a second large tuple into a table: the tuple opens a page, and the abort leaves it. */
  lemma {:induction false} AbortExample(t: Tuple)
    requires Large(t)
    ensures var d, ops := Db(InsertTuple(NewTable(2), t, 3).0, 3), [InsertRow(t)];
            && Valid(d) && Transacts(d, ops)
            && var (x, ws) := ExecuteAll(d, ops);
               CanUndo(x, ws) && Valid(UndoAll(x, ws)) && Live(UndoAll(x, ws).heap) == Live(d.heap) + multiset{t}
  {
    hide Live, LookUp, DoInsert, InsertTuple, RoomFor, TupleSize;
    var d, ops := Db(InsertTuple(NewTable(2), t, 3).0, 3), [InsertRow(t)];
    OneLarge(t);
    assert ops[1..] == [];
    UndoTransaction(d, ops);
    InsertedAt(d, t);
    var (x, ws) := ExecuteAll(d, ops);
    assert ws == [WriteRecord(INSERT_WRITE, DoInsert(d, t).1, NoTuple)];
    assert Leftovers(ops, ws) == Leftovers(ops[1..], ws[1..]) + multiset{t};
  }

  lemma OneLarge(t: Tuple)
    requires Large(t)
    ensures var d := Db(InsertTuple(NewTable(2), t, 3).0, 3); Valid(d) && Storable(t) && !FitsLast(d.heap, t)
  {
    NoSecondLarge(t);
    InsertKeepsForm(NewTable(2), t, 3);
    InsertKeepsRoom(NewTable(2), t, 3);
  }

  // ---------------------------------------------------------------- one statement more

  /** What a transaction did so far, and one statement more. */
  lemma {:induction false} ExecuteMore(d: Db, ops: seq<Statement>, op: Statement)
    requires Valid(d) && Transacts(d, ops + [op])
    ensures Transacts(d, ops)
    ensures var (x, ws) := ExecuteAll(d, ops);
            && Allowed(x, op) && (op.UpdateRow? ==> op.rid.page in x.heap.ids)
            && ExecuteAll(d, ops + [op]) == (Execute(x, op).0, ws + [Execute(x, op).1])
    decreases ops
  {
    hide Execute, Deleted, Target, LookUp, Transacts, ExecuteAll, Valid, Allowed;
    var all := ops + [op];
    ExecuteHead(d, all);
    if ops == [] {
      assert all[1..] == [] && all[0] == op;
      NoneExecuted(d);
      NoneExecuted(Execute(d, op).0);
      assert [Execute(d, op).1] + [] == [] + [Execute(d, op).1];
    } else {
      assert all[1..] == ops[1..] + [op] && all[0] == ops[0];
      var (d', w) := Execute(d, ops[0]);
      ExecuteMore(d', ops[1..], op);
      DeletedMore(ops[1..], op);
      TransactsFrom(d, ops);
      ExecuteHead(d, ops);
      var ws, more := ExecuteAll(d', ops[1..]).1, ExecuteAll(d', all[1..]).1;
      assert [w] + more == ([w] + ws) + [more[|more| - 1]];
    }
  }

  lemma NoneExecuted(d: Db)
    requires Valid(d)
    ensures Transacts(d, []) && ExecuteAll(d, []) == (d, [])
  {
  }

  lemma ExecuteHead(d: Db, ops: seq<Statement>)
    requires Valid(d) && Transacts(d, ops) && ops != []
    ensures |d.heap.ids| == |d.heap.pages| > 0 && Allowed(d, ops[0])
    ensures ops[0].UpdateRow? ==> LookUp(d.heap, ops[0].rid.actual) != None && ops[0].rid.page in d.heap.ids
    ensures ops[0].DeleteRow? || Target(d, ops[0]) !in Deleted(ops[1..])
    ensures var (d', w) := Execute(d, ops[0]);
            && Valid(d') && Transacts(d', ops[1..])
            && ExecuteAll(d, ops) == (ExecuteAll(d', ops[1..]).0, [w] + ExecuteAll(d', ops[1..]).1)
  {
    ExecuteKeepsValid(d, ops[0]);
  }

  lemma TransactsFrom(d: Db, ops: seq<Statement>)
    requires Valid(d) && ops != [] && Allowed(d, ops[0])
               && (ops[0].DeleteRow? || Target(d, ops[0]) !in Deleted(ops[1..]))
    requires ops[0].UpdateRow? ==> ops[0].rid.page in d.heap.ids
    requires Valid(Execute(d, ops[0]).0) && Transacts(Execute(d, ops[0]).0, ops[1..])
    ensures Transacts(d, ops)
  {
  }

  lemma DeletedMore(ops: seq<Statement>, op: Statement)
    ensures Deleted(ops) <= Deleted(ops + [op])
  {
    forall r | r in Deleted(ops) ensures r in Deleted(ops + [op]) {
      var i :| 0 <= i < |ops| && ops[i].DeleteRow? && ops[i].rid.actual == r;
      assert (ops + [op])[i].DeleteRow?;
    }
  }
}
