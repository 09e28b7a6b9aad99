/** A table as a chain of slotted pages, and its rows. */
module TableModel {
  import opened Basics
  import opened ByteCodec
  import opened TupleCodec
  import opened SlottedPages

  /** Where a row is. */
  datatype RowId = RowId(page: int, slot: int)

  /** A record id as handed out; an update may move the row to `actual`. */
  datatype RID = RID(page: int, slot: int, actual: RowId)

  function At(page: int, slot: int): RID {
    RID(page, slot, RowId(page, slot))
  }

  const NoRid: RID := At(-1, -1)

  /** The ids and contents of the data pages in chain order, the counter, and the first and last record id. */
  datatype Heap = Heap(ids: seq<int>, pages: seq<Page>, count: int, start: RID, stop: RID)

  /** Page ids grow along the chain. */
  ghost predicate WellFormed(h: Heap) {
    && |h.ids| == |h.pages| > 0
    && (forall i, j | 0 <= i < j < |h.ids| :: h.ids[i] < h.ids[j])
    && (forall i | 0 <= i < |h.ids| :: h.ids[i] > 0)
  }

  /** Live slots hold tuples that are not marked deleted. */
  ghost predicate CleanPages(h: Heap) {
    forall i | 0 <= i < |h.pages| :: Clean(h.pages[i])
  }

  function IndexOf(ids: seq<int>, id: int): (i: int)
    ensures -1 <= i < |ids| && (i >= 0 ==> ids[i] == id) && (i == -1 ==> id !in ids)
  {
    if ids == [] then -1
    else if ids[|ids| - 1] == id then |ids| - 1
    else IndexOf(ids[..|ids| - 1], id)
  }

  function LookUp(h: Heap, r: RowId): Option<Tuple>
    requires |h.ids| == |h.pages|
  {
    var i := IndexOf(h.ids, r.page);
    if i == -1 then None else Get(h.pages[i], r.slot)
  }

  const EmptyPage: Page := Page(-1, [], 0)

  predicate FitsLast(h: Heap, t: Tuple)
    requires h.pages != []
  {
    Insert(h.pages[|h.pages| - 1], t).1 != -1
  }

  /** The tuple goes to the last page or to a new one.  The record id of a tuple that opened a page has
      slot -1: the slot found on the new page is dropped. */
  function InsertTuple(h: Heap, t: Tuple, newId: int): (Heap, RID)
    requires |h.ids| == |h.pages| > 0
  {
    var n := |h.pages| - 1;
    var (last, slot) := Insert(h.pages[n], t);
    var h' := if slot != -1 then h.(pages := h.pages[n := last])
              else h.(ids := h.ids + [newId],
                      pages := h.pages[n := h.pages[n].(next := if -1 <= newId < 0x8000_0000 then newId else -1)]
                               + [Insert(EmptyPage, t).0]);
    var rid := At(h'.ids[|h'.ids| - 1], slot);
    (h'.(count := h.count + 1, start := if h.start.actual.page == -1 then rid else h.start, stop := rid), rid)
  }

  /** The slot is taken from the actual place, the page from the original one; the counter goes down in any case. */
  function DeleteTuple(h: Heap, rid: RID): (Heap, bool)
    requires |h.ids| == |h.pages|
  {
    var i := IndexOf(h.ids, rid.page);
    if i == -1 then (h, false)
    else
      var (p, done) := Delete(h.pages[i], rid.actual.slot);
      (h.(pages := h.pages[i := p], count := h.count - 1), done)
  }

  /** In place unless the tuple grew; a tuple that grew is deleted and inserted again. */
  function UpdateTuple(h: Heap, rid: RID, t: Tuple, newId: int): (Heap, RID)
    requires |h.ids| == |h.pages| > 0 && LookUp(h, rid.actual) != None && rid.page in h.ids
  {
    var i := IndexOf(h.ids, rid.page);
    if TupleSize(LookUp(h, rid.actual).value) < TupleSize(t) then
      var (h', moved) := InsertTuple(h.(pages := h.pages[i := Delete(h.pages[i], rid.slot).0]), t, newId);
      (h', rid.(actual := moved.actual))
    else (h.(pages := h.pages[i := Update(h.pages[i], rid.slot, t).0]), rid)
  }

  // ---------------------------------------------------------------- the rows of a table

  lemma {:induction false} IndexIs(h: Heap, i: nat)
    requires WellFormed(h) && i < |h.ids|
    ensures IndexOf(h.ids, h.ids[i]) == i
  {
    var j := IndexOf(h.ids, h.ids[i]);
    assert h.ids[i] in h.ids;
    assert forall a, b | 0 <= a < b < |h.ids| :: h.ids[a] != h.ids[b];
  }

  /** What the record id of a new tuple is good for: it finds the tuple if and only if the tuple fit the
      last page. */
  lemma {:induction false} InsertedReadsBack(h: Heap, t: Tuple, newId: int)
    requires WellFormed(h) && !t.deleted && newId > h.ids[|h.ids| - 1] && Insert(EmptyPage, t).1 != -1
    ensures var (h', rid) := InsertTuple(h, t, newId);
            LookUp(h', rid.actual) == if FitsLast(h, t) then Some(t) else None
  {
    var (h', rid) := InsertTuple(h, t, newId);
    InsertKeepsForm(h, t, newId);
    IndexIs(h', |h'.ids| - 1);
  }

  /** A new table: one empty data page. */
  function NewTable(page: int): Heap {
    Heap([page], [EmptyPage], 0, NoRid, NoRid)
  }

  /** A page can hold one such tuple, and no second one. */
  predicate Large(t: Tuple) {
    Storable(t) && Padded(TupleSize(t)) > 2035
  }

  lemma SomeLarge()
    ensures Large(Tuple(false, [StringField(seq(3000, _ => 'a' as int))]))
  {
    var t := Tuple(false, [StringField(seq(3000, _ => 'a' as int))]);
    assert t.fields[1..] == [];
    assert FieldsSize(t.fields) == SerializedSize(t.fields[0]);
    assert TupleSize(t) == 3011;
  }

  /** The second large tuple of a table opens a page: it is stored in slot 0 of that page, and its record id
      finds nothing. */
  lemma {:induction false} OpenedPageExample(t: Tuple)
    requires Large(t)
    ensures var h := InsertTuple(NewTable(2), t, 3).0;
            var (h', rid) := InsertTuple(h, t, 3);
            WellFormed(h) && rid.slot == -1 && LookUp(h', rid.actual) == None && LookUp(h', RowId(3, 0)) == Some(t)
  {
    hide InsertTuple, LookUp, FitsLast, Get, NewPlace, Insert, TupleSize, Padded;
    var h := InsertTuple(NewTable(2), t, 3).0;
    NoSecondLarge(t);
    InsertKeepsForm(NewTable(2), t, 3);
    InsertedReadsBack(h, t, 3);
    LookUpAfterInsert(h, t, 3, RowId(3, 0));
  }

  lemma NoSecondLarge(t: Tuple)
    requires Large(t)
    ensures var h := InsertTuple(NewTable(2), t, 3).0;
            && |h.pages| == 1 && h.ids == [2] && !FitsLast(h, t)
            && InsertTuple(h, t, 3).1.slot == -1 && NewPlace(h, t, 3) == RowId(3, 0)
  {
    hide TupleSize, Padded;
    var cells := Insert(EmptyPage, t).0.cells;
    assert |cells| == 1 && cells[..0] == [];
    assert Floor(cells) == PAGE_SIZE - Padded(TupleSize(t));
  }

  lemma {:induction false} InsertKeepsForm(h: Heap, t: Tuple, newId: int)
    requires WellFormed(h) && newId > h.ids[|h.ids| - 1]
    ensures WellFormed(InsertTuple(h, t, newId).0)
    ensures CleanPages(h) && !t.deleted ==> CleanPages(InsertTuple(h, t, newId).0)
  {
    var h' := InsertTuple(h, t, newId).0;
    var n := |h.pages| - 1;
    if CleanPages(h) && !t.deleted {
      assert Clean(h.pages[n]);
      forall i | 0 <= i < |h'.pages|
        ensures Clean(h'.pages[i])
      {
        if i < n { assert h'.pages[i] == h.pages[i]; }
      }
    }
  }

  /** Where a new tuple really is. */
  function NewPlace(h: Heap, t: Tuple, newId: int): RowId
    requires |h.ids| == |h.pages| > 0
  {
    if FitsLast(h, t) then RowId(h.ids[|h.ids| - 1], |h.pages[|h.pages| - 1].cells|) else RowId(newId, 0)
  }

  /** An insertion adds one row at a free place. */
  lemma {:induction false} LookUpAfterInsert(h: Heap, t: Tuple, newId: int, r: RowId)
    requires WellFormed(h) && !t.deleted && newId > h.ids[|h.ids| - 1] && Insert(EmptyPage, t).1 != -1
    ensures LookUp(h, NewPlace(h, t, newId)) == None
    ensures LookUp(InsertTuple(h, t, newId).0, r) == if r == NewPlace(h, t, newId) then Some(t) else LookUp(h, r)
  {
    var h' := InsertTuple(h, t, newId).0;
    var n := |h.ids| - 1;
    InsertKeepsForm(h, t, newId);
    NewId(h, newId);
    IndexIs(h, n);
    IndexSame(h, h', r.page, newId);
    GetAfterInsert(h.pages[n], t, r.slot);
    if !FitsLast(h, t) { GetAfterInsert(EmptyPage, t, r.slot); }
  }

  lemma {:induction false} NewId(h: Heap, newId: int)
    requires WellFormed(h) && newId > h.ids[|h.ids| - 1]
    ensures newId !in h.ids
  {
  }

  lemma {:induction false} IndexSame(h: Heap, h': Heap, id: int, newId: int)
    requires WellFormed(h) && WellFormed(h') && newId !in h.ids && (h'.ids == h.ids || h'.ids == h.ids + [newId])
    ensures IndexOf(h'.ids, id) == if h'.ids != h.ids && id == newId then |h.ids| else IndexOf(h.ids, id)
  {
    var i := IndexOf(h.ids, id);
    if i >= 0 {
      assert h'.ids[i] == id;
      IndexIs(h', i);
    } else if id == newId && h'.ids != h.ids {
      IndexIs(h', |h.ids|);
    }
  }

  /** A deletion empties its row, if it was live, and counts down. */
  lemma {:induction false} LookUpAfterDelete(h: Heap, rid: RID, r: RowId)
    requires WellFormed(h) && rid.actual.page == rid.page && LookUp(h, rid.actual) != None
    ensures var (h', done) := DeleteTuple(h, rid);
            && done && WellFormed(h') && h'.ids == h.ids && h'.count == h.count - 1
            && LookUp(h', r) == if r == rid.actual then None else LookUp(h, r)
  {
    var i := IndexOf(h.ids, rid.page);
    GetAfterDelete(h.pages[i], rid.actual.slot, r.slot);
    var j := IndexOf(h.ids, r.page);
    if j == i { assert r.page == rid.page; }
  }

  /** A deletion that finds nothing still counts down. */
  lemma {:induction false} DeleteNothing(h: Heap, rid: RID)
    requires WellFormed(h) && rid.page in h.ids && rid.actual.slot == -1
    ensures DeleteTuple(h, rid) == (h.(count := h.count - 1), false)
  {
    var i := IndexOf(h.ids, rid.page);
    assert h.pages[i := h.pages[i]] == h.pages;
  }

  /** The slot of a live row has room for its tuple. */
  ghost predicate RoomFor(h: Heap) {
    forall i, s | 0 <= i < |h.pages| && 0 <= s < |h.pages[i].cells| ::
      TupleSize(h.pages[i].cells[s].tuple) <= h.pages[i].cells[s].room
  }

  /** An update that does not grow the tuple replaces its row in place. */
  lemma {:induction false} LookUpAfterUpdate(h: Heap, rid: RID, t: Tuple, newId: int, r: RowId)
    requires WellFormed(h) && RoomFor(h) && rid.actual == RowId(rid.page, rid.slot) && !t.deleted
    requires LookUp(h, rid.actual) != None && TupleSize(t) <= TupleSize(LookUp(h, rid.actual).value)
    ensures rid.page in h.ids
    ensures var (h', rid') := UpdateTuple(h, rid, t, newId);
            && rid' == rid && WellFormed(h') && RoomFor(h') && h'.ids == h.ids && h'.count == h.count
            && LookUp(h', r) == if r == rid.actual then Some(t) else LookUp(h, r)
  {
    var i := IndexOf(h.ids, rid.page);
    GetAfterUpdate(h.pages[i], rid.slot, t, r.slot);
    var j := IndexOf(h.ids, r.page);
    if j == i { assert r.page == rid.page; }
  }

  /** Tuples that a page can hold. */
  predicate Storable(t: Tuple) {
    !t.deleted && TupleSize(t) <= 65528 && Insert(EmptyPage, t).1 != -1
  }

  lemma {:induction false} InsertKeepsRoom(h: Heap, t: Tuple, newId: int)
    requires WellFormed(h) && RoomFor(h) && Storable(t)
    ensures RoomFor(InsertTuple(h, t, newId).0)
  {
    PaddedHolds(TupleSize(t));
    var h' := InsertTuple(h, t, newId).0;
    var n := |h.pages| - 1;
    forall i, s | 0 <= i < |h'.pages| && 0 <= s < |h'.pages[i].cells|
      ensures TupleSize(h'.pages[i].cells[s].tuple) <= h'.pages[i].cells[s].room
    {
      if i < n {
        assert h'.pages[i] == h.pages[i];
      } else if i == n && s < |h.pages[n].cells| {
        assert h'.pages[n].cells[s] == h.pages[n].cells[s];
      }
    }
  }

  lemma {:induction false} DeleteKeepsRoom(h: Heap, rid: RID)
    requires |h.ids| == |h.pages| && RoomFor(h)
    ensures RoomFor(DeleteTuple(h, rid).0)
  {
    var i := IndexOf(h.ids, rid.page);
    var s := rid.actual.slot;
    if i != -1 && Delete(h.pages[i], s).1 {
      var t := h.pages[i].cells[s].tuple;
      assert TupleSize(t.(deleted := true)) == TupleSize(t);
    }
  }

  // ---------------------------------------------------------------- all rows

  ghost function Places(h: Heap): (ps: set<RowId>)
    requires |h.ids| == |h.pages|
    ensures forall r :: r in ps <==> LookUp(h, r) != None
  {
    var ps := set i, s | 0 <= i < |h.ids| && 0 <= s < |h.pages[i].cells| :: RowId(h.ids[i], s);
    forall r | LookUp(h, r) != None
      ensures r in ps
    {
      var i := IndexOf(h.ids, r.page);
      assert RowId(h.ids[i], r.slot) == r;
    }
    set r | r in ps && LookUp(h, r) != None
  }

  /** The live rows by where they are. */
  ghost function Rows(h: Heap): map<RowId, Tuple>
    requires |h.ids| == |h.pages|
  {
    map r | r in Places(h) :: LookUp(h, r).value
  }

  /** The live rows as a multiset. */
  ghost function Values(m: map<RowId, Tuple>): multiset<Tuple>
    decreases |m|
  {
    if m == map[] then multiset{}
    else
      var r :| r in m;
      multiset{m[r]} + Values(m - {r})
  }

  lemma ValuesPick(m: map<RowId, Tuple>) returns (c: RowId)
    requires m != map[]
    ensures c in m && Values(m) == multiset{m[c]} + Values(m - {c})
  {
    c :| c in m && Values(m) == multiset{m[c]} + Values(m - {c});
  }

  lemma {:induction false} ValuesTake(m: map<RowId, Tuple>, r: RowId)
    requires r in m
    ensures Values(m) == multiset{m[r]} + Values(m - {r})
    decreases |m|
  {
    hide Values;
    var c := ValuesPick(m);
    if c != r {
      ValuesTake(m - {c}, r);
      ValuesTake(m - {r}, c);
      assert m - {c} - {r} == m - {r} - {c};
    }
  }

  lemma {:induction false} ValuesAdd(m: map<RowId, Tuple>, r: RowId, t: Tuple)
    requires r !in m
    ensures Values(m[r := t]) == Values(m) + multiset{t}
  {
    hide Values;
    ValuesTake(m[r := t], r);
    assert m[r := t] - {r} == m;
  }

  lemma {:induction false} ValuesReplace(m: map<RowId, Tuple>, r: RowId, t: Tuple)
    requires r in m
    ensures Values(m[r := t]) + multiset{m[r]} == Values(m) + multiset{t}
  {
    hide Values;
    ValuesTake(m, r);
    ValuesTake(m[r := t], r);
    assert m[r := t] - {r} == m - {r};
  }

  ghost function Live(h: Heap): multiset<Tuple>
    requires |h.ids| == |h.pages|
  {
    Values(Rows(h))
  }

  /** The three operations on the multiset of live rows. */
  lemma {:induction false} LiveAfterInsert(h: Heap, t: Tuple, newId: int)
    requires WellFormed(h) && Storable(t) && newId > h.ids[|h.ids| - 1]
    ensures WellFormed(InsertTuple(h, t, newId).0)
    ensures Live(InsertTuple(h, t, newId).0) == Live(h) + multiset{t}
    ensures InsertTuple(h, t, newId).0.count == h.count + 1
  {
    hide Values, LookUp;
    var h' := InsertTuple(h, t, newId).0;
    var p := NewPlace(h, t, newId);
    InsertKeepsForm(h, t, newId);
    forall r ensures LookUp(h', r) == if r == p then Some(t) else LookUp(h, r) { LookUpAfterInsert(h, t, newId, r); }
    LookUpAfterInsert(h, t, newId, p);
    assert Rows(h') == Rows(h)[p := t];
    ValuesAdd(Rows(h), p, t);
  }

  lemma {:induction false} LiveAfterDelete(h: Heap, rid: RID)
    requires WellFormed(h) && rid.actual.page == rid.page && LookUp(h, rid.actual) != None
    ensures WellFormed(DeleteTuple(h, rid).0)
    ensures Live(DeleteTuple(h, rid).0) + multiset{LookUp(h, rid.actual).value} == Live(h)
    ensures DeleteTuple(h, rid).0.count == h.count - 1
  {
    hide Values, LookUp;
    var h' := DeleteTuple(h, rid).0;
    forall r ensures LookUp(h', r) == if r == rid.actual then None else LookUp(h, r) { LookUpAfterDelete(h, rid, r); }
    LookUpAfterDelete(h, rid, rid.actual);
    assert Rows(h') == Rows(h) - {rid.actual};
    ValuesTake(Rows(h), rid.actual);
  }

  lemma {:induction false} LiveAfterUpdate(h: Heap, rid: RID, t: Tuple, newId: int)
    requires WellFormed(h) && RoomFor(h) && rid.actual == RowId(rid.page, rid.slot) && !t.deleted
    requires LookUp(h, rid.actual) != None && TupleSize(t) <= TupleSize(LookUp(h, rid.actual).value)
    ensures rid.page in h.ids && WellFormed(UpdateTuple(h, rid, t, newId).0)
    ensures Live(UpdateTuple(h, rid, t, newId).0) + multiset{LookUp(h, rid.actual).value} == Live(h) + multiset{t}
    ensures UpdateTuple(h, rid, t, newId).0.count == h.count
  {
    LookUpAfterUpdate(h, rid, t, newId, rid.actual);
    var h' := UpdateTuple(h, rid, t, newId).0;
    forall r
      ensures LookUp(h', r) == if r == rid.actual then Some(t) else LookUp(h, r)
    {
      LookUpAfterUpdate(h, rid, t, newId, r);
    }
    assert Rows(h') == Rows(h)[rid.actual := t];
    ValuesReplace(Rows(h), rid.actual, t);
  }

  // ---------------------------------------------------------------- rows that an update moves

  /** The slot at the place is marked deleted. */
  ghost predicate GoneFrom(h: Heap, r: RowId)
    requires |h.ids| == |h.pages|
  {
    var i := IndexOf(h.ids, r.page);
    i >= 0 && 0 <= r.slot < |h.pages[i].cells| && h.pages[i].cells[r.slot].gone
  }

  lemma {:induction false} InsertKeepsGone(h: Heap, t: Tuple, newId: int, r: RowId)
    requires WellFormed(h) && newId > h.ids[|h.ids| - 1] && GoneFrom(h, r)
    ensures WellFormed(InsertTuple(h, t, newId).0) && GoneFrom(InsertTuple(h, t, newId).0, r)
  {
    InsertKeepsForm(h, t, newId);
    NewId(h, newId);
    IndexSame(h, InsertTuple(h, t, newId).0, r.page, newId);
  }

  /** The table once an update that grows its row took the row out. */
  function WithoutRow(h: Heap, rid: RID): Heap
    requires |h.ids| == |h.pages| && rid.page in h.ids
  {
    var i := IndexOf(h.ids, rid.page);
    h.(pages := h.pages[i := Delete(h.pages[i], rid.slot).0])
  }

  ghost predicate Grows(h: Heap, rid: RID, t: Tuple)
    requires |h.ids| == |h.pages|
  {
    LookUp(h, rid.actual) != None && TupleSize(t) > TupleSize(LookUp(h, rid.actual).value)
  }

  /** The row is where its record id says it was stored first. */
  predicate AtHome(rid: RID) {
    rid.actual == RowId(rid.page, rid.slot)
  }

  lemma {:induction false} WithoutRowFacts(h: Heap, rid: RID, r: RowId)
    requires WellFormed(h) && AtHome(rid) && LookUp(h, rid.actual) != None
    ensures rid.page in h.ids && WellFormed(WithoutRow(h, rid)) && GoneFrom(WithoutRow(h, rid), rid.actual)
    ensures LookUp(WithoutRow(h, rid), r) == if r == rid.actual then None else LookUp(h, r)
    ensures WithoutRow(h, rid) == DeleteTuple(h, rid).0.(count := h.count)
  {
    LookUpAfterDelete(h, rid, r);
  }

  /** An update that grows its row stores the new tuple at a free place, empties the old one and changes no other
      row; the record id it returns finds the new tuple if and only if that fit the last page. */
  lemma {:induction false} LookUpAfterGrowth(h: Heap, rid: RID, t: Tuple, newId: int, r: RowId)
    requires WellFormed(h) && AtHome(rid) && Grows(h, rid, t) && Storable(t) && newId > h.ids[|h.ids| - 1]
    ensures rid.page in h.ids && |WithoutRow(h, rid).ids| == |WithoutRow(h, rid).pages| > 0
    ensures var p := NewPlace(WithoutRow(h, rid), t, newId);
            var (h', rid') := UpdateTuple(h, rid, t, newId);
            && WellFormed(h') && h'.count == h.count + 1 && p != rid.actual
            && LookUp(h', r) == (if r == p then Some(t) else if r == rid.actual then None else LookUp(h, r))
            && rid'.page == rid.page && rid'.slot == rid.slot
            && LookUp(h', rid'.actual) == (if FitsLast(WithoutRow(h, rid), t) then Some(t) else None)
  {
    WithoutRowFacts(h, rid, r);
    var h1 := WithoutRow(h, rid);
    hide Storable, LookUp, WithoutRow, Delete, NewPlace, FitsLast, GoneFrom;
    MovedPlace(h1, rid.actual, t, newId);
    InsertKeepsForm(h1, t, newId);
    InsertCounts(h1, t, newId);
    GrowthIsInsert(h, rid, t, newId);
    StorableFits(t);
    LookUpAfterInsert(h1, t, newId, r);
    InsertedReadsBack(h1, t, newId);
  }

  lemma StorableFits(t: Tuple)
    requires Storable(t)
    ensures !t.deleted && Insert(EmptyPage, t).1 != -1
  {
  }

  lemma InsertCounts(h: Heap, t: Tuple, newId: int)
    requires |h.ids| == |h.pages| > 0
    ensures InsertTuple(h, t, newId).0.count == h.count + 1
  {
  }

  lemma GrowthIsInsert(h: Heap, rid: RID, t: Tuple, newId: int)
    requires WellFormed(h) && rid.page in h.ids && Grows(h, rid, t)
    ensures var (h', moved) := InsertTuple(WithoutRow(h, rid), t, newId);
            UpdateTuple(h, rid, t, newId) == (h', rid.(actual := moved.actual))
  {
  }

  /** A new tuple does not go to a slot that is marked deleted. */
  lemma {:induction false} MovedPlace(h: Heap, r: RowId, t: Tuple, newId: int)
    requires WellFormed(h) && GoneFrom(h, r) && newId > h.ids[|h.ids| - 1]
    ensures NewPlace(h, t, newId) != r
  {
    IndexIs(h, |h.ids| - 1);
    NewId(h, newId);
  }

  /** The multiset of live rows exchanges the old tuple for the new one, and the counter goes up. */
  lemma {:induction false} LiveAfterGrowth(h: Heap, rid: RID, t: Tuple, newId: int)
    requires WellFormed(h) && AtHome(rid) && Grows(h, rid, t) && Storable(t) && newId > h.ids[|h.ids| - 1]
    ensures rid.page in h.ids && WellFormed(UpdateTuple(h, rid, t, newId).0)
    ensures Live(UpdateTuple(h, rid, t, newId).0) + multiset{LookUp(h, rid.actual).value} == Live(h) + multiset{t}
    ensures UpdateTuple(h, rid, t, newId).0.count == h.count + 1
  {
    hide Storable, LookUp, WithoutRow, Values, UpdateTuple;
    WithoutRowFacts(h, rid, rid.actual);
    var h1 := WithoutRow(h, rid);
    GrowthIsInsert(h, rid, t, newId);
    LiveAfterInsert(h1, t, newId);
    LiveAfterDelete(h, rid);
    SameRows(h1, DeleteTuple(h, rid).0);
  }

  lemma {:induction false} SameRows(h: Heap, h': Heap)
    requires |h.ids| == |h.pages| && |h'.ids| == |h'.pages| && h'.ids == h.ids && h'.pages == h.pages
    ensures Live(h) == Live(h') && forall r :: LookUp(h, r) == LookUp(h', r)
  {
    assert Rows(h) == Rows(h');
  }

  // ---------------------------------------------------------------- statements on a row that was moved

  /** The record id of a row that was moved: its first slot is marked deleted. */
  ghost predicate Moved(h: Heap, rid: RID)
    requires |h.ids| == |h.pages|
  {
    LookUp(h, rid.actual) != None && GoneFrom(h, RowId(rid.page, rid.slot))
  }

  /** An update that grows its row and fits the last page leaves such a record id. */
  lemma {:induction false} GrowthLeavesMoved(h: Heap, rid: RID, t: Tuple, newId: int)
    requires WellFormed(h) && AtHome(rid) && Grows(h, rid, t) && Storable(t) && newId > h.ids[|h.ids| - 1]
    requires rid.page in h.ids && FitsLast(WithoutRow(h, rid), t)
    ensures var (h', rid') := UpdateTuple(h, rid, t, newId); WellFormed(h') && Moved(h', rid')
  {
    hide Storable, LookUp, WithoutRow, UpdateTuple;
    WithoutRowFacts(h, rid, rid.actual);
    GrowthIsInsert(h, rid, t, newId);
    LookUpAfterGrowth(h, rid, t, newId, rid.actual);
    InsertKeepsGone(WithoutRow(h, rid), t, newId, rid.actual);
  }

  /** An update of a row that was moved acts on its first slot: a larger tuple is stored beside the old one, and any
      other tuple is lost. */
  lemma {:induction false} UpdateOfMovedRow(h: Heap, rid: RID, t: Tuple, newId: int)
    requires WellFormed(h) && Moved(h, rid) && Storable(t) && newId > h.ids[|h.ids| - 1]
    ensures rid.page in h.ids
    ensures var h' := UpdateTuple(h, rid, t, newId).0;
            && WellFormed(h') && Live(h') == Live(h) + (if Grows(h, rid, t) then multiset{t} else multiset{})
            && LookUp(h', rid.actual) == LookUp(h, rid.actual)
  {
    hide LookUp, UpdateTuple, Storable, Live, Grows;
    var h' := UpdateTuple(h, rid, t, newId).0;
    if Grows(h, rid, t) {
      StorableFits(t);
      GrowthOfMoved(h, rid, t, newId);
      LiveAfterInsert(h, t, newId);
      LookUpAfterInsert(h, t, newId, rid.actual);
    } else {
      UpdateOfGoneSlot(h, rid, t, newId, rid.actual);
      forall r ensures LookUp(h', r) == LookUp(h, r) { UpdateOfGoneSlot(h, rid, t, newId, r); }
      SameLive(h, h');
    }
  }

  lemma GrowthOfMoved(h: Heap, rid: RID, t: Tuple, newId: int)
    requires WellFormed(h) && Moved(h, rid) && Grows(h, rid, t)
    ensures UpdateTuple(h, rid, t, newId).0 == InsertTuple(h, t, newId).0
    ensures !FitsLast(h, t) || NewPlace(h, t, newId) != rid.actual || LookUp(h, rid.actual) == None
  {
    var i := IndexOf(h.ids, rid.page);
    assert h.pages[i := h.pages[i]] == h.pages;
    if FitsLast(h, t) { IndexIs(h, |h.ids| - 1); }
  }

  lemma SameLive(h: Heap, h': Heap)
    requires |h.ids| == |h.pages| && |h'.ids| == |h'.pages| && forall r :: LookUp(h', r) == LookUp(h, r)
    ensures Live(h') == Live(h)
  {
    assert Rows(h') == Rows(h);
  }

  lemma {:induction false} UpdateOfGoneSlot(h: Heap, rid: RID, t: Tuple, newId: int, r: RowId)
    requires WellFormed(h) && Moved(h, rid) && !Grows(h, rid, t) && rid.page in h.ids
    ensures WellFormed(UpdateTuple(h, rid, t, newId).0)
    ensures LookUp(UpdateTuple(h, rid, t, newId).0, r) == LookUp(h, r)
  {
  }

  /** A deletion takes out whatever row is in the actual slot of the first page. */
  lemma {:induction false} DeleteActsOn(h: Heap, rid: RID, r: RowId)
    requires WellFormed(h) && rid.page in h.ids
    ensures var h' := DeleteTuple(h, rid).0;
            && WellFormed(h') && h'.count == h.count - 1
            && LookUp(h', r) == if r == RowId(rid.page, rid.actual.slot) then None else LookUp(h, r)
  {
    var i := IndexOf(h.ids, rid.page);
    GetAfterDelete(h.pages[i], rid.actual.slot, r.slot);
    if IndexOf(h.ids, r.page) == i { assert r.page == rid.page; }
  }

  /** A deletion takes out its own row if and only if the row is still on its first page. */
  lemma {:induction false} DeleteOfMovedRow(h: Heap, rid: RID)
    requires WellFormed(h) && rid.page in h.ids && LookUp(h, rid.actual) != None
    ensures LookUp(DeleteTuple(h, rid).0, rid.actual) == None <==> rid.actual.page == rid.page
  {
    DeleteActsOn(h, rid, rid.actual);
  }
}
