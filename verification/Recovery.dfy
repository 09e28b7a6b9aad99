/** Recovery from a log: one pass classifies the transactions, one replays the records on the tables. */
module Recovery {
  import opened Basics
  import opened ByteCodec
  import opened TupleCodec
  import opened SlottedPages
  import opened TableModel

  /** All tables, by id, and the next page id that the disk hands out. */
  datatype Store = Store(tables: map<int, Heap>, next: int)

  predicate Formed(s: Store) {
    forall t | t in s.tables :: |s.tables[t].ids| == |s.tables[t].pages| > 0
  }

  function RidOf(r: WalRecord): RID {
    RID(r.rid.page, r.rid.slot, RowId(r.rid.actualPage, r.rid.actualSlot))
  }

  // ---------------------------------------------------------------- the two passes

  function Winners(log: seq<WalRecord>): set<int> {
    set i | 0 <= i < |log| && log[i].kind == COMMIT :: log[i].txn as int
  }

  /** The tuple a record puts in its row: the new one if its transaction committed, else the old one. */
  function Replayed(r: WalRecord, winners: set<int>): Tuple {
    if r.txn as int in winners then r.newTuple else r.oldTuple
  }

  /** An update through the table heap; the program stops if the record id finds no live row. */
  function UpdateRow(s: Store, table: int, rid: RID, t: Tuple): (s': Option<Store>)
    requires Formed(s) && table in s.tables
    ensures s' != None ==> Formed(s'.value)
  {
    var h := s.tables[table];
    if rid.page !in h.ids || LookUp(h, rid.actual) == None then None
    else
      var h' := UpdateTuple(h, rid, t, s.next).0;
      Some(Store(s.tables[table := h'], if |h'.ids| > |h.ids| then s.next + 1 else s.next))
  }

  function InsertRow(s: Store, table: int, t: Tuple): (s': Option<Store>)
    requires Formed(s) && table in s.tables
    ensures s' != None && Formed(s'.value)
  {
    var h := s.tables[table];
    var h' := InsertTuple(h, t, s.next).0;
    Some(Store(s.tables[table := h'], if |h'.ids| > |h.ids| then s.next + 1 else s.next))
  }

  function DeleteRow(s: Store, table: int, rid: RID): (s': Option<Store>)
    requires Formed(s) && table in s.tables
    ensures s' != None && Formed(s'.value)
  {
    Some(s.(tables := s.tables[table := DeleteTuple(s.tables[table], rid).0]))
  }

  /** One record, forward for a committed transaction and backward for any other; the program stops if
      there is no such table. */
  function Step(s: Store, r: WalRecord, winners: set<int>): (s': Option<Store>)
    requires Formed(s)
    ensures s' != None ==> Formed(s'.value)
  {
    if r.kind == BEGIN || r.kind == COMMIT || r.kind == ABORT then Some(s)
    else if r.table as int !in s.tables then None
    else
      var won := r.txn as int in winners;
      if r.kind == UPDATE then UpdateRow(s, r.table, RidOf(r), Replayed(r, winners))
      else if (r.kind == INSERT) == won then InsertRow(s, r.table, Replayed(r, winners))
      else DeleteRow(s, r.table, RidOf(r))
  }

  /** The records in log order; nothing if the program stops on the way. */
  function Replay(log: seq<WalRecord>, winners: set<int>, s: Store): (s': Option<Store>)
    requires Formed(s)
    ensures s' != None ==> Formed(s'.value)
  {
    if log == [] then Some(s)
    else
      match Replay(log[..|log| - 1], winners, s)
      case None => None
      case Some(before) => Step(before, log[|log| - 1], winners)
  }

  function Recover(log: seq<WalRecord>, s: Store): Option<Store>
    requires Formed(s)
  {
    Replay(log, Winners(log), s)
  }

  class WalManager {
    var committed: set<int>
    var uncommitted: set<int>
    var store: Store
    var file: seq<WalRecord>

    constructor (file: seq<WalRecord>, store: Store)
      ensures committed == {} && this.file == file && this.store == store
    {
      committed, uncommitted, this.file, this.store := {}, {}, file, store;
    }

    /** Recovers the tables from the log and clears the log; `ok` is false when the program stops. */
    method RecoverAll() returns (ok: bool)
      requires committed == {} && Formed(store)
      modifies this
      ensures match Recover(old(file), old(store))
              case Some(s) => ok && store == s && file == []
              case None => !ok && file == old(file)
      ensures committed == Winners(old(file))
    {
      hide Step, Winners, Formed;
      Classify();
      for i := 0 to |file|
        invariant file == old(file)
        invariant Replay(file[..i], committed, old(store)) == Some(store) && committed == Winners(file)
      {
        assert file[..i + 1][..i] == file[..i];
        var next := ReplayRecord(file[i]);
        if next == None {
          ReplayStops(file, i + 1, committed, old(store));
          return false;
        }
        store := next.value;
      }
      assert file[..|file|] == file;
      file := [];
      ok := true;
    }

    method ReplayRecord(r: WalRecord) returns (next: Option<Store>)
      requires Formed(store)
      ensures next == Step(store, r, committed)
    {
      if r.kind == BEGIN || r.kind == COMMIT || r.kind == ABORT {
        return Some(store);
      }
      if r.table as int !in store.tables {
        return None;
      }
      if r.txn in committed {
        match r.kind {
          case UPDATE => next := UpdateRow(store, r.table, RidOf(r), r.newTuple);
          case INSERT => next := InsertRow(store, r.table, r.newTuple);
          case DELETE => next := DeleteRow(store, r.table, RidOf(r));
        }
      } else {
        match r.kind {
          case UPDATE => next := UpdateRow(store, r.table, RidOf(r), r.oldTuple);
          case INSERT => next := DeleteRow(store, r.table, RidOf(r));
          case DELETE => next := InsertRow(store, r.table, r.oldTuple);
        }
      }
    }

    method Classify()
      requires committed == {}
      modifies this`committed, this`uncommitted
      ensures committed == Winners(file)
    {
      for i := 0 to |file|
        invariant committed == Winners(file[..i])
      {
        WinnersPush(file, i);
        var r := file[i];
        if r.kind == BEGIN {
          uncommitted := uncommitted + {r.txn};
        } else if r.kind == COMMIT {
          committed := committed + {r.txn};
          uncommitted := uncommitted - {r.txn};
        } else if r.kind == ABORT {
          uncommitted := uncommitted - {r.txn};
        }
      }
      assert file[..|file|] == file;
    }
  }

  /** The tuple that a record stores, if any: the new one of a committed insertion or update, the old one of an
      update or deletion that did not commit. */
  function Stored(r: WalRecord, winners: set<int>): Option<Tuple> {
    var won := r.txn as int in winners;
    match r.kind
    case UPDATE => Some(if won then r.newTuple else r.oldTuple)
    case INSERT => if won then Some(r.newTuple) else None
    case DELETE => if won then None else Some(r.oldTuple)
    case _ => None
  }

  /** The record takes out the row that its record id finds. */
  predicate TakesOut(r: WalRecord, winners: set<int>) {
    var won := r.txn as int in winners;
    r.kind == UPDATE || (r.kind == INSERT && !won) || (r.kind == DELETE && won)
  }

  /** What one record does to the live rows of its table: redone or undone, it takes out the row that it names, and
      stores its new or its old tuple. */
  lemma {:induction false} RedoUndo(s: Store, r: WalRecord, winners: set<int>)
    requires Sound(s) && AllRoom(s) && r.table as int in s.tables && r.kind in {INSERT, UPDATE, DELETE}
    requires TakesOut(r, winners) ==> AtHome(RidOf(r)) && LookUp(s.tables[r.table as int], RidOf(r).actual) != None
    requires Stored(r, winners) != None ==> Storable(Stored(r, winners).value)
    ensures var h, s' := s.tables[r.table as int], Step(s, r, winners);
            && s' != None && s'.value.tables.Keys == s.tables.Keys
            && (forall t | t in s.tables && t != r.table as int :: s'.value.tables[t] == s.tables[t])
            && Live(s'.value.tables[r.table as int])
               + (if TakesOut(r, winners) then multiset{LookUp(h, RidOf(r).actual).value} else multiset{})
               == Live(h) + (if Stored(r, winners) == None then multiset{} else multiset{Stored(r, winners).value})
  {
    hide Live, LookUp, Storable;
    var h, rid := s.tables[r.table as int], RidOf(r);
    if Stored(r, winners) != None { StorableFits(Stored(r, winners).value); }
    if r.kind == UPDATE {
      var t := Stored(r, winners).value;
      if TupleSize(t) > TupleSize(LookUp(h, rid.actual).value) { LiveAfterGrowth(h, rid, t, s.next); }
      else { LiveAfterUpdate(h, rid, t, s.next); }
    } else if TakesOut(r, winners) {
      LiveAfterDelete(h, rid);
    } else {
      LiveAfterInsert(h, Stored(r, winners).value, s.next);
    }
  }

  /** Once the program stopped it does not go on. */
  lemma {:induction false} ReplayStops(log: seq<WalRecord>, i: nat, winners: set<int>, s: Store)
    requires Formed(s) && i <= |log| && Replay(log[..i], winners, s) == None
    ensures Replay(log, winners, s) == None
    decreases |log| - i
  {
    if i < |log| {
      assert log[..i + 1][..i] == log[..i];
      ReplayStops(log, i + 1, winners, s);
    } else {
      assert log[..i] == log;
    }
  }

  lemma WinnersPush(log: seq<WalRecord>, i: nat)
    requires i < |log|
    ensures Winners(log[..i + 1]) == Winners(log[..i]) + if log[i].kind == COMMIT then {log[i].txn as int} else {}
  {
    var a, b := log[..i], log[..i + 1];
    forall x | x in Winners(a) ensures x in Winners(b) {
      var j :| 0 <= j < |a| && a[j].kind == COMMIT && a[j].txn as int == x;
      assert b[j] == a[j];
    }
    forall x | x in Winners(b) ensures x in Winners(a) || (log[i].kind == COMMIT && x == log[i].txn as int) {
      var j :| 0 <= j < |b| && b[j].kind == COMMIT && b[j].txn as int == x;
      if j < i { assert a[j] == b[j]; }
    }
    if log[i].kind == COMMIT { assert b[i] == log[i]; }
  }

  // ---------------------------------------------------------------- rows by where they are

  datatype Loc = Loc(table: int, page: int, slot: int)

  type Rows = map<Loc, Tuple>

  function LocOf(r: WalRecord): Loc {
    Loc(r.table, r.rid.page, r.rid.slot)
  }

  ghost predicate UpdatesOnly(log: seq<WalRecord>) {
    forall i | 0 <= i < |log| :: log[i].kind != INSERT && log[i].kind != DELETE
  }

  predicate Writes(r: WalRecord, at: Loc) {
    r.kind == UPDATE && LocOf(r) == at
  }

  predicate Logged(log: seq<WalRecord>, at: Loc) {
    exists i :: 0 <= i < |log| && Writes(log[i], at)
  }

  /** The rows after a replay of updates that all happen in place. */
  function RowsAfter(log: seq<WalRecord>, winners: set<int>, m: Rows): Rows {
    if log == [] then m
    else
      var r, before := log[|log| - 1], RowsAfter(log[..|log| - 1], winners, m);
      if r.kind == UPDATE && LocOf(r) in before then before[LocOf(r) := Replayed(r, winners)] else before
  }

  /** The value the last record on a row leaves there, or `before` if there is none. */
  function Outcome(log: seq<WalRecord>, winners: set<int>, at: Loc, before: Tuple): Tuple {
    if log == [] then before
    else
      var r := log[|log| - 1];
      if !Writes(r, at) then Outcome(log[..|log| - 1], winners, at, before) else Replayed(r, winners)
  }

  /** Each row gets the outcome of the last record on it. */
  lemma {:induction false} ReplayOutcome(log: seq<WalRecord>, winners: set<int>, m: Rows)
    ensures RowsAfter(log, winners, m).Keys == m.Keys
    ensures forall at | at in m :: RowsAfter(log, winners, m)[at] == Outcome(log, winners, at, m[at])
  {
    if log != [] {
      ReplayOutcome(log[..|log| - 1], winners, m);
    }
  }

  lemma {:induction false} OutcomeForgets(log: seq<WalRecord>, winners: set<int>, at: Loc, v: Tuple, w: Tuple)
    ensures Logged(log, at) ==> Outcome(log, winners, at, v) == Outcome(log, winners, at, w)
    ensures !Logged(log, at) ==> Outcome(log, winners, at, v) == v
  {
    if log != [] {
      var n := |log| - 1;
      var shorter := log[..n];
      OutcomeForgets(shorter, winners, at, v, w);
      if Writes(log[n], at) {
        assert Logged(log, at);
      } else if Logged(log, at) {
        var i :| 0 <= i < |log| && Writes(log[i], at);
        assert Writes(shorter[i], at);
      } else {
        assert forall i | 0 <= i < n :: shorter[i] == log[i];
      }
    }
  }

  // ---------------------------------------------------------------- the rows of the tables

  /** The live row at a place. */
  function RowAt(s: Store, at: Loc): Option<Tuple>
    requires Formed(s)
  {
    if at.table in s.tables then LookUp(s.tables[at.table], RowId(at.page, at.slot)) else None
  }

  /** The live rows of the tables are exactly those of `m`. */
  ghost predicate Agrees(s: Store, m: Rows)
    requires Formed(s)
  {
    forall at :: RowAt(s, at) == if at in m then Some(m[at]) else None
  }

  ghost predicate Sound(s: Store) {
    && Formed(s)
    && forall t | t in s.tables ::
         WellFormed(s.tables[t]) && s.next > s.tables[t].ids[|s.tables[t].ids| - 1]
  }

  ghost predicate AllRoom(s: Store) {
    forall t | t in s.tables :: RoomFor(s.tables[t])
  }

  /** A log of updates of live tuples, each named by the record id of a row that never moved. */
  ghost predicate Replayable(log: seq<WalRecord>, m: Rows) {
    && UpdatesOnly(log)
    && forall i | 0 <= i < |log| && log[i].kind == UPDATE :: OnRow(log[i], m)
  }

  predicate OnRow(r: WalRecord, m: Rows) {
    && RidOf(r).actual == RowId(r.rid.page, r.rid.slot) && LocOf(r) in m
    && !r.oldTuple.deleted && !r.newTuple.deleted
  }

  /** No replayed tuple is larger than the one that is found in its row. */
  predicate InPlace(log: seq<WalRecord>, winners: set<int>, m: Rows) {
    log == [] ||
    var n := |log| - 1;
    var r, before := log[n], RowsAfter(log[..n], winners, m);
    && InPlace(log[..n], winners, m)
    && (r.kind == UPDATE && LocOf(r) in before ==> TupleSize(Replayed(r, winners)) <= TupleSize(before[LocOf(r)]))
  }

  /** An update that does not grow its row changes the row in place. */
  lemma {:induction false} UpdatesInPlace(s: Store, m: Rows, r: WalRecord, t: Tuple)
    requires Sound(s) && AllRoom(s) && Agrees(s, m) && OnRow(r, m) && !t.deleted
    requires TupleSize(t) <= TupleSize(m[LocOf(r)])
    ensures r.table as int in s.tables
    ensures var s' := UpdateRow(s, r.table, RidOf(r), t);
            s' != None && Sound(s'.value) && AllRoom(s'.value) && Agrees(s'.value, m[LocOf(r) := t])
  {
    hide LookUp, UpdateTuple, WellFormed, RoomFor, TupleSize;
    var at, rid := LocOf(r), RidOf(r);
    assert RowAt(s, at) == Some(m[at]);
    var h := s.tables[at.table];
    HeapInPlace(h, rid, t, s.next);
    var h' := UpdateTuple(h, rid, t, s.next).0;
    SetTable(s, at.table, h');
    assert UpdateRow(s, r.table, rid, t) == Some(Store(s.tables[at.table := h'], s.next));
    SetRow(s, m, at, t, h');
  }

  lemma SetTable(s: Store, table: int, h': Heap)
    requires Sound(s) && AllRoom(s) && table in s.tables
    requires WellFormed(h') && RoomFor(h') && h'.ids == s.tables[table].ids
    ensures Sound(s.(tables := s.tables[table := h'])) && AllRoom(s.(tables := s.tables[table := h']))
  {
    hide WellFormed, RoomFor;
    var s' := s.(tables := s.tables[table := h']);
    WellFormedSizes(h');
    forall t | t in s'.tables
      ensures |s'.tables[t].ids| == |s'.tables[t].pages| > 0 && WellFormed(s'.tables[t]) && RoomFor(s'.tables[t])
      ensures s'.next > s'.tables[t].ids[|s'.tables[t].ids| - 1]
    {
      if t != table { assert s'.tables[t] == s.tables[t]; }
    }
  }

  lemma WellFormedSizes(h: Heap)
    requires WellFormed(h)
    ensures |h.ids| == |h.pages| > 0
  {
  }

  lemma SetRow(s: Store, m: Rows, at: Loc, t: Tuple, h': Heap)
    requires Formed(s) && Agrees(s, m) && at in m && at.table in s.tables
    requires |h'.ids| == |h'.pages| > 0
    requires forall x ::
               LookUp(h', x) == if x == RowId(at.page, at.slot) then Some(t) else LookUp(s.tables[at.table], x)
    ensures Formed(s.(tables := s.tables[at.table := h'])) && Agrees(s.(tables := s.tables[at.table := h']), m[at := t])
  {
    hide LookUp;
    var s' := s.(tables := s.tables[at.table := h']);
    forall x
      ensures RowAt(s', x) == if x == at then Some(t) else RowAt(s, x)
    {
    }
  }

  lemma {:induction false} HeapInPlace(h: Heap, rid: RID, t: Tuple, newId: int)
    requires WellFormed(h) && RoomFor(h) && rid.actual == RowId(rid.page, rid.slot) && !t.deleted
    requires LookUp(h, rid.actual) != None && TupleSize(t) <= TupleSize(LookUp(h, rid.actual).value)
    ensures rid.page in h.ids
    ensures var h' := UpdateTuple(h, rid, t, newId).0;
            && WellFormed(h') && RoomFor(h') && h'.ids == h.ids
            && forall x :: LookUp(h', x) == if x == rid.actual then Some(t) else LookUp(h, x)
  {
    LookUpAfterUpdate(h, rid, t, newId, rid.actual);
    forall x ensures LookUp(UpdateTuple(h, rid, t, newId).0, x) == if x == rid.actual then Some(t) else LookUp(h, x) {
      LookUpAfterUpdate(h, rid, t, newId, x);
    }
  }

  // ---------------------------------------------------------------- rows that moved

  ghost predicate Gone(s: Store, at: Loc)
    requires Formed(s)
  {
    at.table in s.tables && GoneFrom(s.tables[at.table], RowId(at.page, at.slot))
  }

  lemma {:induction false} UpdateKeepsForm(h: Heap, rid: RID, t: Tuple, newId: int)
    requires WellFormed(h) && newId > h.ids[|h.ids| - 1] && LookUp(h, rid.actual) != None && rid.page in h.ids
    ensures var h' := UpdateTuple(h, rid, t, newId).0;
            && WellFormed(h') && h'.ids[|h'.ids| - 1] <= newId
            && |h'.ids| >= |h.ids| && (|h'.ids| == |h.ids| ==> h'.ids == h.ids)
  {
    hide SlottedPages.Delete, SlottedPages.Update, LookUp, CleanPages;
    var i := IndexOf(h.ids, rid.page);
    var h1 := h.(pages := h.pages[i := Delete(h.pages[i], rid.slot).0]);
    assert WellFormed(h1);
    InsertKeepsForm(h1, t, newId);
  }

  lemma {:induction false} UpdateKeepsGone(h: Heap, rid: RID, t: Tuple, newId: int, r: RowId)
    requires WellFormed(h) && newId > h.ids[|h.ids| - 1] && LookUp(h, rid.actual) != None && rid.page in h.ids
    requires GoneFrom(h, r)
    ensures GoneFrom(UpdateTuple(h, rid, t, newId).0, r)
  {
    var i := IndexOf(h.ids, rid.page);
    var h1 := h.(pages := h.pages[i := Delete(h.pages[i], rid.slot).0]);
    if TupleSize(LookUp(h, rid.actual).value) < TupleSize(t) {
      assert GoneFrom(h1, r);
      InsertKeepsGone(h1, t, newId, r);
    }
  }

  /** An update that grows its row moves it: no live row is left at the old place. */
  lemma {:induction false} GrowthMoves(h: Heap, rid: RID, t: Tuple, newId: int)
    requires WellFormed(h) && newId > h.ids[|h.ids| - 1] && rid.actual == RowId(rid.page, rid.slot)
    requires LookUp(h, rid.actual) != None && TupleSize(t) > TupleSize(LookUp(h, rid.actual).value)
    ensures rid.page in h.ids && GoneFrom(UpdateTuple(h, rid, t, newId).0, rid.actual)
  {
    var i := IndexOf(h.ids, rid.page);
    var h1 := h.(pages := h.pages[i := Delete(h.pages[i], rid.slot).0]);
    assert GoneFrom(h1, rid.actual);
    InsertKeepsGone(h1, t, newId, rid.actual);
  }

  /** A place that was left stays without a live row. */
  lemma {:induction false} StepKeepsGone(s: Store, r: WalRecord, winners: set<int>, at: Loc)
    requires Sound(s) && Gone(s, at) && r.kind != INSERT && r.kind != DELETE
    ensures var s' := Step(s, r, winners); s' == None || (Sound(s'.value) && Gone(s'.value, at))
  {
    if r.kind == UPDATE && Step(s, r, winners) != None {
      StepKeepsSound(s, r, winners);
      if r.table as int == at.table {
        UpdateKeepsGone(s.tables[at.table], RidOf(r), Replayed(r, winners), s.next, RowId(at.page, at.slot));
      }
    }
  }

  lemma {:induction false} StepKeepsSound(s: Store, r: WalRecord, winners: set<int>)
    requires Sound(s) && r.kind == UPDATE && Step(s, r, winners) != None
    ensures Sound(Step(s, r, winners).value)
  {
    hide UpdateTuple, LookUp;
    var h := s.tables[r.table];
    UpdateKeepsForm(h, RidOf(r), Replayed(r, winners), s.next);
  }

  // ---------------------------------------------------------------- when a replay happens in place

  /** The replay stopped, or has left a place where there was a row. */
  ghost predicate Lost(s': Option<Store>, m: Rows)
    requires s' != None ==> Formed(s'.value)
  {
    s' == None || (Sound(s'.value) && exists at :: at in m && Gone(s'.value, at))
  }

  /** If no replayed tuple is larger than the one found in its row, the replay leaves the rows as specified;
      if one is, the program stops or a row is lost from its place. */
  lemma {:induction false} ReplayRows(log: seq<WalRecord>, winners: set<int>, s: Store, m: Rows)
    requires Sound(s) && AllRoom(s) && Agrees(s, m) && Replayable(log, m)
    ensures var s' := Replay(log, winners, s);
            if InPlace(log, winners, m)
            then s' != None && Sound(s'.value) && AllRoom(s'.value) && Agrees(s'.value, RowsAfter(log, winners, m))
            else Lost(s', m)
  {
    if log != [] {
      var n := |log| - 1;
      assert Replayable(log[..n], m);
      ReplayRows(log[..n], winners, s, m);
      var before := Replay(log[..n], winners, s);
      if InPlace(log[..n], winners, m) {
        ReplayOutcome(log[..n], winners, m);
        ReplayOne(before.value, RowsAfter(log[..n], winners, m), m, log[n], winners);
      } else if before != None {
        var at :| at in m && Gone(before.value, at);
        StepKeepsGone(before.value, log[n], winners, at);
      }
    }
  }

  lemma {:induction false} ReplayOne(s: Store, now: Rows, m: Rows, r: WalRecord, winners: set<int>)
    requires Sound(s) && AllRoom(s) && Agrees(s, now) && now.Keys == m.Keys
    requires r.kind != INSERT && r.kind != DELETE && (r.kind == UPDATE ==> OnRow(r, m))
    ensures var s' := Step(s, r, winners);
            if r.kind == UPDATE && TupleSize(Replayed(r, winners)) > TupleSize(now[LocOf(r)]) then Lost(s', m)
            else
              && s' != None && Sound(s'.value) && AllRoom(s'.value)
              && Agrees(s'.value, if r.kind == UPDATE then now[LocOf(r) := Replayed(r, winners)] else now)
  {
    if r.kind == UPDATE {
      var t, at := Replayed(r, winners), LocOf(r);
      assert RowAt(s, at) == Some(now[at]);
      if TupleSize(t) > TupleSize(now[at]) {
        GrowthMoves(s.tables[at.table], RidOf(r), t, s.next);
        StepKeepsSound(s, r, winners);
        assert Gone(Step(s, r, winners).value, at);
      } else {
        UpdatesInPlace(s, now, r, t);
      }
    }
  }

  /** A replay keeps every row at its place if and only if no replayed tuple is larger than the one that it
      finds in its row; and then the rows are those of the in-place replay. */
  lemma {:induction false} ReplayInPlaceExact(log: seq<WalRecord>, winners: set<int>, s: Store, m: Rows)
    requires Sound(s) && AllRoom(s) && Agrees(s, m) && Replayable(log, m)
    ensures var s' := Replay(log, winners, s);
            && ((s' != None && forall at | at in m :: RowAt(s'.value, at) != None) <==> InPlace(log, winners, m))
            && (InPlace(log, winners, m) ==> Agrees(s'.value, RowsAfter(log, winners, m)))
  {
    ReplayRows(log, winners, s, m);
    ReplayOutcome(log, winners, m);
    var s' := Replay(log, winners, s);
    if !InPlace(log, winners, m) && s' != None {
      var at :| at in m && Gone(s'.value, at);
      assert RowAt(s'.value, at) == None;
    }
  }

  /** All tuples of a log have the size of the row they are for. */
  ghost predicate SameSizes(log: seq<WalRecord>, m: Rows) {
    forall i | 0 <= i < |log| && log[i].kind == UPDATE ::
      LocOf(log[i]) in m && TupleSize(log[i].oldTuple) == TupleSize(log[i].newTuple) == TupleSize(m[LocOf(log[i])])
  }

  lemma {:induction false} SameSizesInPlace(log: seq<WalRecord>, winners: set<int>, m: Rows)
    requires SameSizes(log, m)
    ensures InPlace(log, winners, m) && RowsAfter(log, winners, m).Keys == m.Keys
    ensures forall at | at in m :: TupleSize(RowsAfter(log, winners, m)[at]) == TupleSize(m[at])
  {
    if log != [] {
      var n := |log| - 1;
      assert SameSizes(log[..n], m) by { assert forall i | 0 <= i < n :: log[..n][i] == log[i]; }
      SameSizesInPlace(log[..n], winners, m);
    }
  }

  /** With tuples of the same sizes, running recovery after any prefix of the replay, for instance one that a
      crash cut off, gives the same rows as running it once. */
  lemma {:induction false} RecoverAgain(log: seq<WalRecord>, k: nat, s: Store, m: Rows)
    requires Sound(s) && AllRoom(s) && Agrees(s, m) && Replayable(log, m) && SameSizes(log, m) && k <= |log|
    ensures var partial := Replay(log[..k], Winners(log), s);
            && partial != None && Recover(log, partial.value) != None && Recover(log, s) != None
            && forall at :: RowAt(Recover(log, partial.value).value, at) == RowAt(Recover(log, s).value, at)
  {
    hide Replay, RowAt, AllRoom, InPlace, SameSizes, Replayable, RowsAfter, WellFormed;
    var w := Winners(log);
    LogPrefix(log, k, m);
    SameSizesInPlace(log, w, m);
    SameSizesInPlace(log[..k], w, m);
    ReplayRows(log[..k], w, s, m);
    ReplayRows(log, w, s, m);
    var m1 := RowsAfter(log[..k], w, m);
    SizesAgain(log, m, m1);
    SameSizesInPlace(log, w, m1);
    ReplayRows(log, w, Replay(log[..k], w, s).value, m1);
    RowsAfterAgain(log, k, w, m);
  }

  lemma LogPrefix(log: seq<WalRecord>, k: nat, m: Rows)
    requires Replayable(log, m) && SameSizes(log, m) && k <= |log|
    ensures Replayable(log[..k], m) && SameSizes(log[..k], m)
  {
    assert forall i | 0 <= i < k :: log[..k][i] == log[i];
  }

  lemma SizesAgain(log: seq<WalRecord>, m: Rows, m1: Rows)
    requires Replayable(log, m) && SameSizes(log, m) && m1.Keys == m.Keys
    requires forall at | at in m :: TupleSize(m1[at]) == TupleSize(m[at])
    ensures Replayable(log, m1) && SameSizes(log, m1)
  {
  }

  lemma {:induction false} RowsAfterAgain(log: seq<WalRecord>, k: nat, w: set<int>, m: Rows)
    requires k <= |log|
    ensures RowsAfter(log, w, RowsAfter(log[..k], w, m)) == RowsAfter(log, w, m)
  {
    var m1 := RowsAfter(log[..k], w, m);
    ReplayOutcome(log[..k], w, m);
    ReplayOutcome(log, w, m1);
    ReplayOutcome(log, w, m);
    forall at | at in m
      ensures RowsAfter(log, w, m1)[at] == RowsAfter(log, w, m)[at]
    {
      OutcomeForgets(log, w, at, m1[at], m[at]);
      OutcomeForgets(log[..k], w, at, m[at], m[at]);
      if !Logged(log, at) {
        assert forall i | 0 <= i < k :: log[..k][i] == log[i];
        assert !Logged(log[..k], at);
      }
    }
  }
}
