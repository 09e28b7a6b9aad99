/** One transaction at a time: begin, commit and abort, with the reverse loop over the write set. */
module TransactionManagers {
  import opened Basics
  import opened TupleCodec
  import opened TableModel
  import opened Abort

  datatype TransactionState = RUNNING | COMMITTED | ABORTED

  class Transaction {
    const id: int
    var state: TransactionState
    var writes: seq<WriteRecord>

    constructor (id: int)
      ensures this.id == id && state == RUNNING && writes == []
    {
      this.id, state, writes := id, RUNNING, [];
    }

    method AddWrite(w: WriteRecord)
      modifies this`writes
      ensures writes == old(writes) + [w]
    {
      writes := writes + [w];
    }
  }

  class TransactionManager {
    var nextTxnId: int
    var current: Transaction?
    var db: Db

    constructor (db: Db)
      ensures current == null && nextTxnId == 0 && this.db == db
    {
      nextTxnId, current, this.db := 0, null, db;
    }

    /** A new transaction with the next id; nothing while another one runs. */
    method Begin() returns (txn: Transaction?)
      modifies this`nextTxnId, this`current
      ensures old(current) != null ==> txn == null && current == old(current) && nextTxnId == old(nextTxnId)
      ensures old(current) == null ==>
                && txn != null && fresh(txn) && current == txn && nextTxnId == old(nextTxnId) + 1
                && txn.id == old(nextTxnId) && txn.state == RUNNING && txn.writes == []
    {
      if current != null {
        return null;
      }
      txn := new Transaction(nextTxnId);
      nextTxnId := nextTxnId + 1;
      current := txn;
    }

    /** Stores a tuple and records the write; says whether the record id names its place. */
    method RunInsert(t: Tuple) returns (inserted: bool)
      requires current != null && Valid(db)
      modifies this`db, current`writes
      ensures var (d, w) := Execute(old(db), InsertRow(t)); db == d && current.writes == old(current.writes) + [w]
      ensures inserted <==> FitsLast(old(db).heap, t)
    {
      var (d, w) := Execute(db, InsertRow(t));
      inserted := w.rid.page != -1 && w.rid.slot != -1;
      db := d;
      current.AddWrite(w);
    }

    /** Updates a live row and records its old tuple; without a live row nothing happens.  Says whether the row
        can still be found. */
    method RunUpdate(rid: RID, t: Tuple) returns (updated: bool)
      requires current != null && Valid(db) && rid.page in db.heap.ids
      modifies this`db, current`writes
      ensures LookUp(old(db).heap, rid.actual) == None ==>
                !updated && db == old(db) && current.writes == old(current.writes)
      ensures LookUp(old(db).heap, rid.actual) != None ==>
                var (d, w) := Execute(old(db), UpdateRow(rid, t));
                && db == d && current.writes == old(current.writes) + [w]
                && (updated <==> UpdateTuple(old(db).heap, rid, t, old(db).next).1.actual.slot != -1)
    {
      if LookUp(db.heap, rid.actual) == None {
        return false;
      }
      var moved := UpdateTuple(db.heap, rid, t, db.next).1;
      var (d, w) := Execute(db, UpdateRow(rid, t));
      UpdatedPage(db, rid, t);
      updated := moved.actual.page != -1 && moved.actual.slot != -1;
      db := d;
      current.AddWrite(w);
    }

    /** Deletes a live row and records its tuple. */
    method RunDelete(rid: RID) returns (deleted: bool)
      requires current != null && Valid(db) && rid.page in db.heap.ids && LookUp(db.heap, rid.actual) != None
      modifies this`db, current`writes
      ensures var (d, w) := Execute(old(db), DeleteRow(rid)); db == d && current.writes == old(current.writes) + [w]
      ensures deleted == DeleteTuple(old(db).heap, rid).1
    {
      deleted := DeleteTuple(db.heap, rid).1;
      var (d, w) := Execute(db, DeleteRow(rid));
      db := d;
      current.AddWrite(w);
    }

    /** Ends the running transaction; the table keeps its writes. */
    method Commit(txn: Transaction?) returns (done: bool)
      modifies this`current, txn
      ensures done <==> txn != null && txn == old(current)
      ensures done ==> current == null && txn.state == COMMITTED
      ensures !done ==> current == old(current)
    {
      if txn == null || txn != current {
        return false;
      }
      txn.state := COMMITTED;
      current := null;
      done := true;
    }

    /** Rolls the writes of the running transaction back, the last one first. */
    method Abort(txn: Transaction?) returns (done: bool)
      requires txn != null && txn == current ==> CanUndo(db, txn.writes)
      modifies this`current, this`db, txn
      ensures done <==> txn != null && txn == old(current)
      ensures done ==> current == null && txn.state == ABORTED && db == UndoAll(old(db), old(txn.writes))
      ensures !done ==> current == old(current) && db == old(db)
    {
      if txn == null || txn != current {
        return false;
      }
      txn.state := ABORTED;
      hide CanUndo, UndoAll, RollBack;
      var writes := txn.writes;
      ghost var before := db;
      var i := |writes|;
      UndoNone(before, writes);
      while i > 0
        invariant 0 <= i <= |writes| && CanUndo(before, writes[i..]) && db == UndoAll(before, writes[i..])
        invariant CanUndo(before, writes) && writes == old(txn.writes) && txn.state == ABORTED
      {
        i := i - 1;
        CanUndoFrom(before, writes, i);
        UndoFirst(before, writes[i..]);
        assert writes[i..][0] == writes[i] && writes[i..][1..] == writes[i + 1..];
        db := RollBack(db, writes[i]);
      }
      assert writes[0..] == writes;
      current := null;
      done := true;
    }
  }

  lemma UpdatedPage(d: Db, rid: RID, t: Tuple)
    requires Valid(d) && rid.page in d.heap.ids && LookUp(d.heap, rid.actual) != None
    ensures UpdateTuple(d.heap, rid, t, d.next).1.actual.page != -1
  {
    assert rid.actual.page in d.heap.ids;
  }

  lemma UndoNone(x: Db, ws: seq<WriteRecord>)
    requires CanUndo(x, ws)
    ensures ws[|ws|..] == [] && CanUndo(x, ws[|ws|..]) && UndoAll(x, ws[|ws|..]) == x
  {
  }

  lemma UndoFirst(x: Db, ws: seq<WriteRecord>)
    requires CanUndo(x, ws) && ws != []
    ensures CanUndo(x, ws[1..])
    ensures var y := UndoAll(x, ws[1..]);
            && |y.heap.ids| == |y.heap.pages| > 0
            && (ws[0].kind == UPDATE_WRITE ==> LookUp(y.heap, ws[0].rid.actual) != None && ws[0].rid.page in y.heap.ids)
            && UndoAll(x, ws) == RollBack(y, ws[0])
  {
  }

  lemma {:induction false} CanUndoFrom(x: Db, ws: seq<WriteRecord>, i: nat)
    requires CanUndo(x, ws) && i <= |ws|
    ensures CanUndo(x, ws[i..])
  {
    if i > 0 {
      CanUndoFrom(x, ws[1..], i - 1);
      assert ws[1..][i - 1..] == ws[i..];
    } else {
      assert ws[0..] == ws;
    }
  }
}
