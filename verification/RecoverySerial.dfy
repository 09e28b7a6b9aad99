/** Logs that a serial run of transactions writes, and what recovery makes of them. */
module RecoverySerial {
  import opened Basics
  import opened ByteCodec
  import opened TupleCodec
  import opened TableModel
  import opened Recovery

  // ---------------------------------------------------------------- transactions and their log

  datatype Write = Write(table: int32, rid: Rid, value: Tuple)

  datatype End = Committed | Aborted | Crashed

  /** A transaction of updates, and how it ended. */
  datatype Txn = Txn(id: int32, writes: seq<Write>, end: End)

  function Place(w: Write): Loc {
    Loc(w.table, w.rid.page, w.rid.slot)
  }

  function WriteAll(ws: seq<Write>, v: Rows): Rows {
    if ws == [] then v else WriteAll(ws[1..], v[Place(ws[0]) := ws[0].value])
  }

  /** The rows after a transaction: all of its writes or none. */
  function After(t: Txn, v: Rows): Rows {
    if t.end == Committed then WriteAll(t.writes, v) else v
  }

  function AfterAll(ts: seq<Txn>, v: Rows): Rows {
    if ts == [] then v else AfterAll(ts[1..], After(ts[0], v))
  }

  function Mark(kind: LogType, id: int32): WalRecord {
    WalRecord(kind, id, -1, Rid(-1, -1, -1, -1), Tuple(false, []), Tuple(false, []))
  }

  /** Each update is logged with the value it overwrites. */
  function UpdatesLog(id: int32, ws: seq<Write>, v: Rows): seq<WalRecord>
    requires forall i | 0 <= i < |ws| :: Place(ws[i]) in v
  {
    if ws == [] then []
    else
      [WalRecord(UPDATE, id, ws[0].table, ws[0].rid, v[Place(ws[0])], ws[0].value)]
      + UpdatesLog(id, ws[1..], v[Place(ws[0]) := ws[0].value])
  }

  function EndLog(t: Txn): seq<WalRecord> {
    match t.end
    case Committed => [Mark(COMMIT, t.id)]
    case Aborted => [Mark(ABORT, t.id)]
    case Crashed => []
  }

  ghost predicate OnRows(ws: seq<Write>, v: Rows) {
    forall i | 0 <= i < |ws| :: Place(ws[i]) in v
  }

  function TxnLog(t: Txn, v: Rows): seq<WalRecord>
    requires OnRows(t.writes, v)
  {
    [Mark(BEGIN, t.id)] + UpdatesLog(t.id, t.writes, v) + EndLog(t)
  }

  lemma {:induction false} WriteAllKeys(ws: seq<Write>, v: Rows)
    requires OnRows(ws, v)
    ensures WriteAll(ws, v).Keys == v.Keys
  {
    if ws != [] {
      var v' := v[Place(ws[0]) := ws[0].value];
      assert Place(ws[0]) in v;
      assert v'.Keys == v.Keys;
      WriteAllKeys(ws[1..], v');
    }
  }

  /** Transactions with their own ids, on live rows that never moved, one after the other. */
  ghost predicate Serial(ts: seq<Txn>, v: Rows) {
    && (forall i | 0 <= i < |ts| :: OnRows(ts[i].writes, v))
    && (forall i, j | 0 <= i < j < |ts| :: ts[i].id != ts[j].id)
  }

  lemma {:induction false} SerialRest(ts: seq<Txn>, v: Rows)
    requires Serial(ts, v) && ts != []
    ensures Serial(ts[1..], After(ts[0], v)) && After(ts[0], v).Keys == v.Keys
  {
    WriteAllKeys(ts[0].writes, v);
    forall i, j | 0 <= i < |ts| - 1 && 0 <= j < |ts[1..][i].writes|
      ensures Place(ts[1..][i].writes[j]) in v
    {
      assert OnRows(ts[i + 1].writes, v);
    }
  }

  /** The log that a run of transactions writes, from the rows `v`. */
  ghost function SerialLog(ts: seq<Txn>, v: Rows): seq<WalRecord>
    requires Serial(ts, v)
  {
    if ts == [] then []
    else
      SerialRest(ts, v);
      TxnLog(ts[0], v) + SerialLog(ts[1..], After(ts[0], v))
  }

  // ---------------------------------------------------------------- when recovery is right

  predicate Touches(ws: seq<Write>, at: Loc) {
    exists i :: 0 <= i < |ws| && Place(ws[i]) == at
  }

  predicate SomeTouches(ts: seq<Txn>, at: Loc) {
    exists i :: 0 <= i < |ts| && Touches(ts[i].writes, at)
  }

  /** The value that the last of the writes to a row overwrites: the old value in its log record. */
  function LastOld(ws: seq<Write>, v: Rows, at: Loc): Tuple
    requires at in v
  {
    if ws == [] then v[at]
    else if Place(ws[0]) == at && !Touches(ws[1..], at) then v[at]
    else LastOld(ws[1..], v[Place(ws[0]) := ws[0].value], at)
  }

  /** If the last transaction that wrote the row did not commit, then its last record on the row has the
      same old value as its first one. */
  ghost predicate Undoable(ts: seq<Txn>, v: Rows, at: Loc)
    requires Serial(ts, v) && at in v
  {
    if ts == [] then true
    else
      SerialRest(ts, v);
      if SomeTouches(ts[1..], at) then Undoable(ts[1..], After(ts[0], v), at)
      else ts[0].end != Committed && Touches(ts[0].writes, at) ==> LastOld(ts[0].writes, v, at) == v[at]
  }

  /** What replaying the records of one transaction leaves in a row. */
  lemma {:induction false} TxnOutcome(t: Txn, v: Rows, winners: set<int>, at: Loc, before: Tuple)
    requires OnRows(t.writes, v) && at in v
    ensures WriteAll(t.writes, v).Keys == v.Keys
    ensures Outcome(TxnLog(t, v), winners, at, before)
         == if !Touches(t.writes, at) then before
            else if t.id as int in winners then WriteAll(t.writes, v)[at] else LastOld(t.writes, v, at)
  {
    WriteAllKeys(t.writes, v);
    var us := UpdatesLog(t.id, t.writes, v);
    OutcomeConcat([Mark(BEGIN, t.id)] + us, EndLog(t), winners, at, before);
    OutcomeConcat([Mark(BEGIN, t.id)], us, winners, at, before);
    NoOutcome([Mark(BEGIN, t.id)], winners, at, before);
    NoOutcome(EndLog(t), winners, at, Outcome(us, winners, at, before));
    UpdatesOutcome(t.id, t.writes, v, winners, at, before);
  }

  lemma {:induction false} NoOutcome(log: seq<WalRecord>, winners: set<int>, at: Loc, before: Tuple)
    requires forall i | 0 <= i < |log| :: log[i].kind != UPDATE
    ensures Outcome(log, winners, at, before) == before
  {
    if log != [] { NoOutcome(log[..|log| - 1], winners, at, before); }
  }

  lemma {:induction false} OutcomeConcat(a: seq<WalRecord>, b: seq<WalRecord>, winners: set<int>, at: Loc,
      before: Tuple)
    ensures Outcome(a + b, winners, at, before) == Outcome(b, winners, at, Outcome(a, winners, at, before))
  {
    if b == [] {
      assert a + b == a;
    } else {
      var n := |b| - 1;
      assert (a + b)[..|a + b| - 1] == a + b[..n];
      OutcomeConcat(a, b[..n], winners, at, before);
    }
  }

  lemma {:induction false} UpdatesOutcome(id: int32, ws: seq<Write>, v: Rows, winners: set<int>, at: Loc, before: Tuple)
    requires OnRows(ws, v) && at in v
    ensures WriteAll(ws, v).Keys == v.Keys
    ensures Outcome(UpdatesLog(id, ws, v), winners, at, before)
         == if !Touches(ws, at) then before
            else if id as int in winners then WriteAll(ws, v)[at] else LastOld(ws, v, at)
    ensures !Touches(ws, at) ==> WriteAll(ws, v)[at] == v[at]
  {
    WriteAllKeys(ws, v);
    if ws != [] {
      var v' := v[Place(ws[0]) := ws[0].value];
      var r := WalRecord(UPDATE, id, ws[0].table, ws[0].rid, v[Place(ws[0])], ws[0].value);
      assert v'.Keys == v.Keys;
      var mid := Outcome([r], winners, at, before);
      OneOutcome(r, winners, at, before);
      UpdatesOutcome(id, ws[1..], v', winners, at, mid);
      OutcomeConcat([r], UpdatesLog(id, ws[1..], v'), winners, at, before);
      TouchesHead(ws, at);
    }
  }

  lemma {:induction false} OneOutcome(r: WalRecord, winners: set<int>, at: Loc, before: Tuple)
    ensures Outcome([r], winners, at, before)
         == if !Writes(r, at) then before else if r.txn as int in winners then r.newTuple else r.oldTuple
  {
    assert [r][..0] == [];
  }

  lemma TouchesHead(ws: seq<Write>, at: Loc)
    requires ws != []
    ensures Touches(ws, at) <==> Place(ws[0]) == at || Touches(ws[1..], at)
  {
    if Touches(ws[1..], at) {
      var i :| 0 <= i < |ws[1..]| && Place(ws[1..][i]) == at;
      assert Place(ws[i + 1]) == at;
    }
    if Touches(ws, at) {
      var i :| 0 <= i < |ws| && Place(ws[i]) == at;
      if i > 0 { assert Place(ws[1..][i - 1]) == at; }
    }
  }

  lemma SomeTouchesHead(ts: seq<Txn>, at: Loc)
    requires ts != []
    ensures SomeTouches(ts, at) <==> Touches(ts[0].writes, at) || SomeTouches(ts[1..], at)
  {
    if SomeTouches(ts[1..], at) {
      var i :| 0 <= i < |ts[1..]| && Touches(ts[1..][i].writes, at);
      assert Touches(ts[i + 1].writes, at);
    }
    if SomeTouches(ts, at) {
      var i :| 0 <= i < |ts| && Touches(ts[i].writes, at);
      if i > 0 { assert Touches(ts[1..][i - 1].writes, at); }
    }
  }

  /** The winners among the transactions are those that committed. */
  ghost predicate Classified(ts: seq<Txn>, winners: set<int>) {
    forall i | 0 <= i < |ts| :: ts[i].id as int in winners <==> ts[i].end == Committed
  }

  /** Replaying a serial log leaves a row that was written at its committed value, if and only if the last
      transaction on it can be undone by its records. */
  lemma {:induction false} SerialOutcome(ts: seq<Txn>, v: Rows, winners: set<int>, at: Loc, before: Tuple)
    requires Serial(ts, v) && at in v && Classified(ts, winners)
    ensures AfterAll(ts, v).Keys == v.Keys
    ensures SomeTouches(ts, at) ==>
              (Outcome(SerialLog(ts, v), winners, at, before) == AfterAll(ts, v)[at] <==> Undoable(ts, v, at))
    ensures !SomeTouches(ts, at) ==> Outcome(SerialLog(ts, v), winners, at, before) == before
    ensures !SomeTouches(ts, at) ==> AfterAll(ts, v)[at] == v[at]
  {
    if ts != [] {
      var t, v' := ts[0], After(ts[0], v);
      SerialRest(ts, v);
      SomeTouchesHead(ts, at);
      var mid := Outcome(TxnLog(t, v), winners, at, before);
      TxnOutcome(t, v, winners, at, before);
      UpdatesOutcome(t.id, t.writes, v, winners, at, before);
      assert Classified(ts[1..], winners) by { assert forall i | 0 <= i < |ts| - 1 :: ts[1..][i] == ts[i + 1]; }
      SerialOutcome(ts[1..], v', winners, at, mid);
      OutcomeConcat(TxnLog(t, v), SerialLog(ts[1..], v'), winners, at, before);
    }
  }

  // ---------------------------------------------------------------- recovery of serial logs

  lemma {:induction false} UpdatesWinners(id: int32, ws: seq<Write>, v: Rows)
    requires OnRows(ws, v)
    ensures Winners(UpdatesLog(id, ws, v)) == {} && UpdatesOnly(UpdatesLog(id, ws, v))
  {
    if ws != [] {
      var v' := v[Place(ws[0]) := ws[0].value];
      assert v'.Keys == v.Keys by { assert Place(ws[0]) in v; }
      UpdatesWinners(id, ws[1..], v');
      var log, rest := UpdatesLog(id, ws, v), UpdatesLog(id, ws[1..], v');
      assert forall i | 0 < i < |log| :: log[i] == rest[i - 1];
      assert forall i | 0 <= i < |rest| && rest[i].kind == COMMIT :: rest[i].txn as int in Winners(rest);
    }
  }

  lemma {:induction false} WinnersConcat(a: seq<WalRecord>, b: seq<WalRecord>)
    ensures Winners(a + b) == Winners(a) + Winners(b)
    ensures UpdatesOnly(a) && UpdatesOnly(b) ==> UpdatesOnly(a + b)
  {
    var c := a + b;
    forall x | x in Winners(a) ensures x in Winners(c) {
      var i :| 0 <= i < |a| && a[i].kind == COMMIT && a[i].txn as int == x;
      assert c[i] == a[i];
    }
    forall x | x in Winners(b) ensures x in Winners(c) {
      var i :| 0 <= i < |b| && b[i].kind == COMMIT && b[i].txn as int == x;
      assert c[|a| + i] == b[i];
    }
    forall x | x in Winners(c) ensures x in Winners(a) + Winners(b) {
      var i :| 0 <= i < |c| && c[i].kind == COMMIT && c[i].txn as int == x;
      if i < |a| { assert a[i] == c[i]; } else { assert b[i - |a|] == c[i]; }
    }
  }

  lemma {:induction false} TxnWinners(t: Txn, v: Rows)
    requires OnRows(t.writes, v)
    ensures Winners(TxnLog(t, v)) == (if t.end == Committed then {t.id as int} else {}) && UpdatesOnly(TxnLog(t, v))
  {
    var us := UpdatesLog(t.id, t.writes, v);
    UpdatesWinners(t.id, t.writes, v);
    WinnersConcat([Mark(BEGIN, t.id)], us);
    WinnersConcat([Mark(BEGIN, t.id)] + us, EndLog(t));
    if t.end == Committed { assert EndLog(t)[0] == Mark(COMMIT, t.id); }
  }

  /** The committed transactions of a serial log. */
  lemma {:induction false} SerialWinners(ts: seq<Txn>, v: Rows)
    requires Serial(ts, v)
    ensures UpdatesOnly(SerialLog(ts, v))
    ensures Winners(SerialLog(ts, v)) == set i | 0 <= i < |ts| && ts[i].end == Committed :: ts[i].id as int
  {
    if ts != [] {
      SerialRest(ts, v);
      var v' := After(ts[0], v);
      TxnWinners(ts[0], v);
      SerialWinners(ts[1..], v');
      WinnersConcat(TxnLog(ts[0], v), SerialLog(ts[1..], v'));
      var rest := set i | 0 <= i < |ts[1..]| && ts[1..][i].end == Committed :: ts[1..][i].id as int;
      forall x | x in rest
        ensures exists i :: 0 <= i < |ts| && ts[i].end == Committed && ts[i].id as int == x
      {
        var i :| 0 <= i < |ts[1..]| && ts[1..][i].end == Committed && ts[1..][i].id as int == x;
        assert ts[i + 1].id as int == x;
      }
      forall i | 0 <= i < |ts| && ts[i].end == Committed
        ensures ts[i].id as int in Winners(SerialLog(ts, v))
      {
        if i > 0 { assert ts[1..][i - 1] == ts[i] && ts[i].id as int in rest; }
      }
    }
  }

  lemma SerialClassified(ts: seq<Txn>, v: Rows)
    requires Serial(ts, v)
    ensures Classified(ts, Winners(SerialLog(ts, v)))
  {
    SerialWinners(ts, v);
  }

  /** No transaction that did not commit wrote a row twice. */
  ghost predicate LosersWriteOnce(ts: seq<Txn>) {
    forall i | 0 <= i < |ts| && ts[i].end != Committed :: WritesOnce(ts[i].writes)
  }

  ghost predicate WritesOnce(ws: seq<Write>) {
    forall i, j | 0 <= i < j < |ws| :: Place(ws[i]) != Place(ws[j])
  }

  lemma {:induction false} OnceLastOld(ws: seq<Write>, v: Rows, at: Loc)
    requires WritesOnce(ws) && at in v
    ensures LastOld(ws, v, at) == v[at]
  {
    if ws != [] && Place(ws[0]) != at {
      OnceLastOld(ws[1..], v[Place(ws[0]) := ws[0].value], at);
    } else if ws != [] {
      forall i | 0 <= i < |ws[1..]|
        ensures Place(ws[1..][i]) != at
      {
        assert Place(ws[0]) != Place(ws[i + 1]);
      }
    }
  }

  lemma {:induction false} OnceUndoable(ts: seq<Txn>, v: Rows, at: Loc)
    requires Serial(ts, v) && at in v && LosersWriteOnce(ts)
    ensures Undoable(ts, v, at)
  {
    if ts != [] {
      SerialRest(ts, v);
      if SomeTouches(ts[1..], at) {
        assert LosersWriteOnce(ts[1..]) by { assert forall i | 0 <= i < |ts| - 1 :: ts[1..][i] == ts[i + 1]; }
        OnceUndoable(ts[1..], After(ts[0], v), at);
      } else if ts[0].end != Committed {
        OnceLastOld(ts[0].writes, v, at);
      }
    }
  }

  // ---------------------------------------------------------------- the tables after a recovery

  /** Each write names a row by a record id that never moved, and writes a live tuple. */
  ghost predicate LiveWrites(ts: seq<Txn>) {
    forall i | 0 <= i < |ts| :: LiveTxn(ts[i])
  }

  ghost predicate LiveTxn(t: Txn) {
    forall j | 0 <= j < |t.writes| :: LiveWrite(t.writes[j])
  }

  predicate LiveWrite(w: Write) {
    w.rid.actualPage == w.rid.page && w.rid.actualSlot == w.rid.slot && !w.value.deleted
  }

  ghost predicate LiveRows(v: Rows) {
    forall at | at in v :: !v[at].deleted
  }

  /** Each write has the size of the row it is for. */
  ghost predicate SizedTxn(t: Txn, m: Rows) {
    forall j | 0 <= j < |t.writes| ::
        Place(t.writes[j]) in m && TupleSize(t.writes[j].value) == TupleSize(m[Place(t.writes[j])])
  }

  ghost predicate SizedWrites(ts: seq<Txn>, m: Rows) {
    forall i | 0 <= i < |ts| :: SizedTxn(ts[i], m)
  }

  ghost predicate SizedRows(v: Rows, m: Rows) {
    v.Keys == m.Keys && forall at | at in v :: TupleSize(v[at]) == TupleSize(m[at])
  }

  /** What holds of each record of a log. */
  ghost predicate Fine(log: seq<WalRecord>, m: Rows, sized: bool) {
    Replayable(log, m) && (sized ==> SameSizes(log, m))
  }

  lemma {:induction false} FineConcat(a: seq<WalRecord>, b: seq<WalRecord>, m: Rows, sized: bool)
    requires Fine(a, m, sized) && Fine(b, m, sized)
    ensures Fine(a + b, m, sized)
  {
    var c := a + b;
    assert forall i | 0 <= i < |c| :: c[i] == if i < |a| then a[i] else b[i - |a|];
  }

  lemma {:induction false} UpdatesFine(id: int32, ws: seq<Write>, v: Rows, m: Rows, sized: bool)
    requires OnRows(ws, v) && LiveRows(v) && LiveTxn(Txn(id, ws, Committed)) && v.Keys == m.Keys
    requires sized ==> SizedRows(v, m) && SizedTxn(Txn(id, ws, Committed), m)
    ensures Fine(UpdatesLog(id, ws, v), m, sized)
    ensures WriteAll(ws, v).Keys == v.Keys && LiveRows(WriteAll(ws, v)) && (sized ==> SizedRows(WriteAll(ws, v), m))
  {
    if ws != [] {
      var w := ws[0];
      var v' := v[Place(w) := w.value];
      assert Place(w) in v && v'.Keys == v.Keys;
      assert LiveWrite(w);
      UpdatesFine(id, ws[1..], v', m, sized);
      FineConcat([WalRecord(UPDATE, id, w.table, w.rid, v[Place(w)], w.value)], UpdatesLog(id, ws[1..], v'), m, sized);
    }
  }

  lemma {:induction false} TxnFine(t: Txn, v: Rows, m: Rows, sized: bool)
    requires OnRows(t.writes, v) && LiveRows(v) && LiveTxn(t) && v.Keys == m.Keys
    requires sized ==> SizedRows(v, m) && SizedTxn(t, m)
    ensures Fine(TxnLog(t, v), m, sized)
    ensures After(t, v).Keys == v.Keys && LiveRows(After(t, v)) && (sized ==> SizedRows(After(t, v), m))
  {
    UpdatesFine(t.id, t.writes, v, m, sized);
    FineConcat([Mark(BEGIN, t.id)], UpdatesLog(t.id, t.writes, v), m, sized);
    FineConcat([Mark(BEGIN, t.id)] + UpdatesLog(t.id, t.writes, v), EndLog(t), m, sized);
  }

  /** The log of a serial run can be replayed on tables with the same rows, whatever their values; and writes
      of the sizes of the rows make a log of those sizes. */
  lemma {:induction false} SerialFine(ts: seq<Txn>, v: Rows, m: Rows, sized: bool)
    requires Serial(ts, v) && LiveRows(v) && LiveWrites(ts) && v.Keys == m.Keys
    requires sized ==> SizedRows(v, m) && SizedWrites(ts, m)
    ensures Fine(SerialLog(ts, v), m, sized)
  {
    if ts != [] {
      SerialRest(ts, v);
      TxnFine(ts[0], v, m, sized);
      assert forall i | 0 <= i < |ts| - 1 :: ts[1..][i] == ts[i + 1];
      SerialFine(ts[1..], After(ts[0], v), m, sized);
      FineConcat(TxnLog(ts[0], v), SerialLog(ts[1..], After(ts[0], v)), m, sized);
    }
  }

  /** The rows `v` were there when the log was begun; recovery starts from tables with the same rows and any
      values `m` of them, as a crash left them, and no replayed tuple is larger than the one it finds.  Then
      every row keeps its place, a logged row gets its committed value if and only if the last transaction on
      it committed or can be undone, and no other row changes. */
  lemma {:induction false} RecoverSerial(ts: seq<Txn>, v: Rows, s: Store, m: Rows, at: Loc)
    requires Serial(ts, v) && LiveRows(v) && LiveWrites(ts)
    requires Sound(s) && AllRoom(s) && Agrees(s, m) && m.Keys == v.Keys && at in v
    requires InPlace(SerialLog(ts, v), Winners(SerialLog(ts, v)), m)
    ensures var s' := Recover(SerialLog(ts, v), s);
            && s' != None && RowAt(s'.value, at) != None && at in AfterAll(ts, v)
            && (SomeTouches(ts, at) ==> (RowAt(s'.value, at) == Some(AfterAll(ts, v)[at]) <==> Undoable(ts, v, at)))
            && (!SomeTouches(ts, at) ==> RowAt(s'.value, at) == RowAt(s, at))
  {
    var log := SerialLog(ts, v);
    SerialWinners(ts, v);
    SerialClassified(ts, v);
    SerialFine(ts, v, m, false);
    SerialOutcome(ts, v, Winners(log), at, m[at]);
    ReplayOutcome(log, Winners(log), m);
    ReplayInPlaceExact(log, Winners(log), s, m);
    assert RowAt(s, at) == Some(m[at]);
  }

  /** Where a replayed tuple is larger than the one it finds, recovery stops or loses a row from its place. */
  lemma {:induction false} GrowthLosesRows(ts: seq<Txn>, v: Rows, s: Store, m: Rows)
    requires Serial(ts, v) && LiveRows(v) && LiveWrites(ts)
    requires Sound(s) && AllRoom(s) && Agrees(s, m) && m.Keys == v.Keys
    requires !InPlace(SerialLog(ts, v), Winners(SerialLog(ts, v)), m)
    ensures var s' := Recover(SerialLog(ts, v), s); s' == None || exists at :: at in v && RowAt(s'.value, at) == None
  {
    var log := SerialLog(ts, v);
    SerialFine(ts, v, m, false);
    ReplayInPlaceExact(log, Winners(log), s, m);
  }

  /** Writes of the sizes of the rows are replayed in place. */
  lemma {:induction false} SizedInPlace(ts: seq<Txn>, v: Rows, m: Rows)
    requires Serial(ts, v) && LiveRows(v) && LiveWrites(ts) && SizedRows(v, m) && SizedWrites(ts, m)
    ensures InPlace(SerialLog(ts, v), Winners(SerialLog(ts, v)), m)
  {
    SerialFine(ts, v, m, true);
    SameSizesInPlace(SerialLog(ts, v), Winners(SerialLog(ts, v)), m);
  }

  /** Same-size updates, and losers that write each row once: recovery restores every logged row from any
      values of those sizes. */
  lemma {:induction false} RecoverRestores(ts: seq<Txn>, v: Rows, s: Store, m: Rows, at: Loc)
    requires Serial(ts, v) && LiveRows(v) && LiveWrites(ts) && LosersWriteOnce(ts) && SomeTouches(ts, at) && at in v
    requires Sound(s) && AllRoom(s) && Agrees(s, m) && SizedRows(v, m) && SizedWrites(ts, m)
    ensures var s' := Recover(SerialLog(ts, v), s);
            s' != None && at in AfterAll(ts, v) && RowAt(s'.value, at) == Some(AfterAll(ts, v)[at])
  {
    SizedInPlace(ts, v, m);
    OnceUndoable(ts, v, at);
    RecoverSerial(ts, v, s, m, at);
  }

  /** And running it again after any part of a replay gives the same rows. */
  lemma {:induction false} RecoverSerialAgain(ts: seq<Txn>, v: Rows, s: Store, m: Rows, k: nat)
    requires Serial(ts, v) && LiveRows(v) && LiveWrites(ts) && k <= |SerialLog(ts, v)|
    requires Sound(s) && AllRoom(s) && Agrees(s, m) && SizedRows(v, m) && SizedWrites(ts, m)
    ensures var log := SerialLog(ts, v);
            var partial := Replay(log[..k], Winners(log), s);
            && partial != None && Recover(log, partial.value) != None && Recover(log, s) != None
            && forall at :: RowAt(Recover(log, partial.value).value, at) == RowAt(Recover(log, s).value, at)
  {
    SerialFine(ts, v, m, true);
    RecoverAgain(SerialLog(ts, v), k, s, m);
  }

  // ---------------------------------------------------------------- inputs that break the promise

  /** A store with one table, with one row. */
  function OneRow(t: Tuple): Store {
    Store(map[1 := InsertTuple(NewTable(2), t, 3).0], 3)
  }

  /** Any tuple that a page can hold makes such a store, with the row in slot 0 of its page. */
  lemma {:induction false} OneRowHolds(t: Tuple)
    requires Storable(t)
    ensures Sound(OneRow(t)) && AllRoom(OneRow(t)) && Agrees(OneRow(t), map[Loc(1, 2, 0) := t])
  {
    hide LookUp, InsertTuple;
    var h := NewTable(2);
    NewTableFacts(t);
    InsertKeepsForm(h, t, 3);
    InsertKeepsRoom(h, t, 3);
    forall at: Loc
      ensures RowAt(OneRow(t), at) == if at == Loc(1, 2, 0) then Some(t) else None
    {
      LookUpAfterInsert(h, t, 3, RowId(at.page, at.slot));
    }
  }

  lemma NewTableFacts(t: Tuple)
    requires Storable(t)
    ensures var h := NewTable(2);
            && WellFormed(h) && RoomFor(h) && NewPlace(h, t, 3) == RowId(2, 0) && (forall r :: LookUp(h, r) == None)
            && InsertTuple(h, t, 3).0.ids == [2]
  {
  }

  /** The two failures, in stores that exist: a row of 0 grown to the text "long!" is lost, and a row of 0 that a
      crashed transaction set to 1 and then to 2 is recovered to 1. */
  lemma {:induction false} RecoveryExamples()
    ensures var n, text := (i: int32) => Tuple(false, [IntField(i)]),
              Tuple(false, [StringField([108, 111, 110, 103, 33])]);
            var r, at := Rid(2, 0, 2, 0), Loc(1, 2, 0);
            var grown, twice := [Txn(7, [Write(1, r, text)], Committed)],
                                [Txn(7, [Write(1, r, n(1)), Write(1, r, n(2))], Crashed)];
            var v := map[at := n(0)];
            && Sound(OneRow(n(0))) && Sound(OneRow(n(2)))
            && Serial(grown, v) && Serial(twice, v)
            && (var s := Recover(SerialLog(grown, v), OneRow(n(0))); s == None || RowAt(s.value, at) == None)
            && (var s := Recover(SerialLog(twice, v), OneRow(n(2))); s != None && RowAt(s.value, at) == Some(n(1)))
  {
    var n, text := (i: int32) => Tuple(false, [IntField(i)]), Tuple(false, [StringField([108, 111, 110, 103, 33])]);
    var r := Rid(2, 0, 2, 0);
    SmallTuple(IntField(0));
    SmallTuple(IntField(1));
    SmallTuple(IntField(2));
    SmallTuple(StringField([108, 111, 110, 103, 33]));
    hide Recovery.Sound, AllRoom, Agrees, Recover, Serial, SerialLog, RowAt, TupleSize;
    OneRowHolds(n(0));
    OneRowHolds(n(2));
    GrownRowIsLost(r, n(0), text, OneRow(n(0)));
    TwiceWrittenIsNotUndone(n(0), n(1), n(2), r, OneRow(n(2)));
  }

  lemma SmallTuple(f: Field)
    requires PayloadSize(f) <= 8
    ensures var t := Tuple(false, [f]); Storable(t) && TupleSize(t) == 11 + PayloadSize(f)
  {
    var t := Tuple(false, [f]);
    assert t.fields[1..] == [];
    assert FieldsSize(t.fields) == SerializedSize(f);
  }

  /** A committed update that grew its row: recovery from the old value leaves no row at its place. */
  lemma {:induction false} GrownRowIsLost(r: Rid, t0: Tuple, t1: Tuple, s: Store)
    requires r.actualPage == r.page && r.actualSlot == r.slot && !t0.deleted && !t1.deleted
    requires TupleSize(t0) < TupleSize(t1)
    requires var at := Loc(1, r.page, r.slot); Sound(s) && AllRoom(s) && Agrees(s, map[at := t0])
    ensures var at := Loc(1, r.page, r.slot);
            var ts, v := [Txn(7, [Write(1, r, t1)], Committed)], map[at := t0];
            && Serial(ts, v) && LosersWriteOnce(ts) && Undoable(ts, v, at)
            && var s' := Recover(SerialLog(ts, v), s); s' == None || RowAt(s'.value, at) == None
  {
    assert Formed(s);
    hide InPlace, Winners, SerialLog, RowAt, Agrees, Sound, AllRoom;
    var at, w := Loc(1, r.page, r.slot), Write(1, r, t1);
    var ts, v := [Txn(7, [w], Committed)], map[at := t0];
    GrownLog(r, t0, t1);
    GrownIsNotInPlace([Mark(BEGIN, 7), WalRecord(UPDATE, 7, 1, r, t0, t1), Mark(COMMIT, 7)], Winners(SerialLog(ts, v)),
        v);
    assert ts[1..] == [];
    GrowthLosesRows(ts, v, s, v);
  }

  lemma {:induction false} GrownLog(r: Rid, t0: Tuple, t1: Tuple)
    ensures var ts, v := [Txn(7, [Write(1, r, t1)], Committed)], map[Loc(1, r.page, r.slot) := t0];
            && Serial(ts, v) && 7 in Winners(SerialLog(ts, v))
            && SerialLog(ts, v) == [Mark(BEGIN, 7), WalRecord(UPDATE, 7, 1, r, t0, t1), Mark(COMMIT, 7)]
  {
    var at, w := Loc(1, r.page, r.slot), Write(1, r, t1);
    var t := Txn(7, [w], Committed);
    var ts, v := [t], map[at := t0];
    assert OnRows(t.writes, v) && ts[1..] == [] && [w][1..] == [];
    assert Serial(ts, v);
    var record := WalRecord(UPDATE, 7, 1, r, t0, t1);
    assert UpdatesLog(7, [w], v) == [record] + UpdatesLog(7, [w][1..], v[at := t1]) == [record];
    SerialRest(ts, v);
    var log := SerialLog(ts, v);
    assert log == TxnLog(t, v) + SerialLog(ts[1..], After(t, v)) == TxnLog(t, v);
    assert log[2] == Mark(COMMIT, 7);
  }

  lemma {:induction false} GrownIsNotInPlace(log: seq<WalRecord>, winners: set<int>, v: Rows)
    requires |log| == 3 && log[0].kind == BEGIN && log[1].kind == UPDATE && log[1].txn as int in winners
    requires LocOf(log[1]) in v && TupleSize(log[1].newTuple) > TupleSize(v[LocOf(log[1])])
    ensures !InPlace(log, winners, v)
  {
    assert log[..2][..1] == [log[0]] && log[..2][..1][..0] == [];
    assert RowsAfter(log[..2][..1], winners, v) == v;
    assert !InPlace(log[..2], winners, v);
  }

  /** A transaction that crashed after writing 1 and then 2 over 0 is undone to 1. */
  lemma {:induction false} TwiceWrittenIsNotUndone(t0: Tuple, t1: Tuple, t2: Tuple, r: Rid, s: Store)
    requires r.actualPage == r.page && r.actualSlot == r.slot && !t0.deleted && !t1.deleted && !t2.deleted
    requires t0 != t1 && TupleSize(t0) == TupleSize(t1) == TupleSize(t2)
    requires var at := Loc(1, r.page, r.slot); Sound(s) && AllRoom(s) && Agrees(s, map[at := t2])
    ensures var at, ws := Loc(1, r.page, r.slot), [Write(1, r, t1), Write(1, r, t2)];
            var ts, v := [Txn(7, ws, Crashed)], map[at := t0];
            && Serial(ts, v) && !Undoable(ts, v, at) && AfterAll(ts, v) == v
            && var s' := Recover(SerialLog(ts, v), s); s' != None && RowAt(s'.value, at) == Some(t1)
  {
    var at, ws := Loc(1, r.page, r.slot), [Write(1, r, t1), Write(1, r, t2)];
    var ts, v, m := [Txn(7, ws, Crashed)], map[at := t0], map[at := t2];
    hide Recovery.Replay, Outcome, InPlace, RowsAfter, Recovery.Winners;
    TwiceWritten(t0, t1, t2, r);
    var log := SerialLog(ts, v);
    SizedInPlace(ts, v, m);
    SerialWinners(ts, v);
    SerialClassified(ts, v);
    SerialFine(ts, v, m, true);
    ReplayInPlaceExact(log, Winners(log), s, m);
    ReplayOutcome(log, Winners(log), m);
    assert log == TxnLog(ts[0], v) + [] == TxnLog(ts[0], v) by { SerialRest(ts, v); assert ts[1..] == []; }
    TxnOutcome(ts[0], v, Winners(log), at, t2);
    assert Classified(ts, Winners(log)) && ts[0].end != Committed;
  }

  lemma {:induction false} TwiceWritten(t0: Tuple, t1: Tuple, t2: Tuple, r: Rid)
    requires t0 != t1
    ensures var at, ws := Loc(1, r.page, r.slot), [Write(1, r, t1), Write(1, r, t2)];
            var ts, v := [Txn(7, ws, Crashed)], map[at := t0];
            && Serial(ts, v) && !Undoable(ts, v, at) && AfterAll(ts, v) == v
            && Touches(ws, at) && LastOld(ws, v, at) == t1
  {
    var at, ws := Loc(1, r.page, r.slot), [Write(1, r, t1), Write(1, r, t2)];
    var ts, v := [Txn(7, ws, Crashed)], map[at := t0];
    assert ts[1..] == [] && After(ts[0], v) == v;
    assert Place(ws[0]) == at && Place(ws[1]) == at;
    assert ws[1..] == [Write(1, r, t2)] && ws[1..][1..] == [];
    assert Touches(ws[1..], at) by { assert Place(ws[1..][0]) == at; }
    var v1 := v[at := t1];
    assert !Touches(ws[1..][1..], at);
    assert LastOld(ws[1..], v1, at) == t1;
    assert LastOld(ws, v, at) == LastOld(ws[1..], v1, at);
    assert Touches(ws, at) && !SomeTouches(ts[1..], at);
    assert OnRows(ws, v);
    assert Serial(ts, v);
  }
}
