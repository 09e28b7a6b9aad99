/** The table heap over a map of pages. */
module TableHeaps {
  import opened Basics
  import opened ByteCodec
  import opened TupleCodec
  import opened SlottedPages
  import opened TableModel

  ghost function PagesOf(pages: map<int, Page>, ids: seq<int>): (ps: seq<Page>)
    requires forall i | 0 <= i < |ids| :: ids[i] in pages
    ensures |ps| == |ids| && forall i | 0 <= i < |ps| :: ps[i] == pages[ids[i]]
  {
    seq(|ids|, i requires 0 <= i < |ids| => pages[ids[i]])
  }

  /** The pages lead from one to the next, with growing ids. */
  ghost predicate Chained(pages: map<int, Page>, ids: seq<int>, nextPage: int) {
    && ids != []
    && (forall i, j | 0 <= i < j < |ids| :: ids[i] < ids[j])
    && (forall i | 0 <= i < |ids| :: ids[i] in pages && 0 < ids[i] < nextPage)
    && (forall i | 0 <= i < |ids| :: pages[ids[i]].next == if i + 1 < |ids| then ids[i + 1] else -1)
  }

  lemma {:induction false} SetChained(pages: map<int, Page>, ids: seq<int>, nextPage: int, i: nat, page: Page)
    requires Chained(pages, ids, nextPage) && i < |ids| && page.next == pages[ids[i]].next
    ensures Chained(pages[ids[i] := page], ids, nextPage)
    ensures PagesOf(pages[ids[i] := page], ids) == PagesOf(pages, ids)[i := page]
  {
    assert forall a, b | 0 <= a < b < |ids| :: ids[a] != ids[b];
  }

  lemma {:induction false} PushChained(pages: map<int, Page>, ids: seq<int>, nextPage: int32, page: Page)
    requires Chained(pages, ids, nextPage) && page.next == -1
    ensures var n := |ids| - 1;
            var last := pages[ids[n]].(next := nextPage);
            var pages' := pages[ids[n] := last][nextPage := page];
            && Chained(pages', ids + [nextPage], nextPage + 1)
            && PagesOf(pages', ids + [nextPage]) == PagesOf(pages, ids)[n := last] + [page]
  {
    assert forall a, b | 0 <= a < b < |ids| :: ids[a] != ids[b];
    assert nextPage !in ids;
  }

  lemma ChainedFacts(pages: map<int, Page>, ids: seq<int>, nextPage: int)
    requires Chained(pages, ids, nextPage)
    ensures ids != [] && (forall i | 0 <= i < |ids| :: ids[i] in pages && 0 < ids[i] < nextPage)
    ensures forall i, j | 0 <= i < j < |ids| :: ids[i] < ids[j]
  {
  }

  /** What an insertion records besides the pages. */
  lemma InsertMarks(h: Heap, t: Tuple, newId: int)
    requires |h.ids| == |h.pages| > 0
    ensures var (h', rid) := TableModel.InsertTuple(h, t, newId);
            var slot := Insert(h.pages[|h.ids| - 1], t).1;
            && |h'.ids| > 0 && rid == At(h'.ids[|h'.ids| - 1], slot) && (slot == -1 <==> !FitsLast(h, t))
            && h'.count == h.count + 1 && h'.stop == rid
            && h'.start == if h.start.actual.page == -1 then rid else h.start
  {
  }

  class TableHeap {
    /** The pages of the database file. */
    var pages: map<int, Page>
    /** The id of the next page the disk hands out. */
    var nextPage: int
    var lastPage: int
    var numTuples: int
    var startingRid: RID
    var stoppingRid: RID
    /** The ids of the table's data pages, along the chain. */
    ghost var ids: seq<int>

    ghost predicate Valid()
      reads this
    {
      Chained(pages, ids, nextPage) && lastPage == ids[|ids| - 1]
    }

    ghost function State(): (h: Heap)
      requires Valid()
      reads this
      ensures WellFormed(h)
    {
      Heap(ids, PagesOf(pages, ids), numTuples, startingRid, stoppingRid)
    }

    /** A table with one empty data page behind its header page. */
    constructor (pages: map<int, Page>, nextPage: int)
      requires 0 < nextPage < 0x7fff_ffff
      ensures Valid() && State() == Heap([nextPage + 1], [EmptyPage], 0, NoRid, NoRid)
    {
      this.pages := pages[nextPage := EmptyPage.(next := nextPage + 1)][nextPage + 1 := EmptyPage];
      this.nextPage := nextPage + 2;
      lastPage := nextPage + 1;
      numTuples, startingRid, stoppingRid := 0, NoRid, NoRid;
      ids := [nextPage + 1];
    }

    method InsertTuple(t: Tuple) returns (rid: RID)
      requires Valid() && nextPage < 0x8000_0000
      modifies this
      ensures Valid() && (State(), rid) == TableModel.InsertTuple(old(State()), t, old(nextPage))
      ensures nextPage == old(nextPage) + if FitsLast(old(State()), t) then 0 else 1
    {
      hide PagesOf, Get, Insert, Chained, TableModel.InsertTuple, FitsLast;
      InsertMarks(State(), t, nextPage);
      var slot := PlaceTuple(t);
      numTuples := numTuples + 1;
      rid := At(lastPage, slot);
      if startingRid.actual.page == -1 {
        startingRid := rid;
      }
      stoppingRid := rid;
    }

    /** Puts a tuple on the last page, or on a new one. */
    method PlaceTuple(t: Tuple) returns (slot: int)
      requires Valid() && nextPage < 0x8000_0000
      modifies this`pages, this`nextPage, this`lastPage, this`ids
      ensures Valid() && slot == Insert(old(State()).pages[old(|ids|) - 1], t).1
      ensures nextPage == old(nextPage) + if slot == -1 then 1 else 0
      ensures State() == TableModel.InsertTuple(old(State()), t, old(nextPage)).0.(
                           count := numTuples, start := startingRid, stop := stoppingRid)
    {
      hide Insert, Chained;
      ChainedFacts(pages, ids, nextPage);
      var page: Page;
      page, slot := Insert(pages[lastPage], t).0, Insert(pages[lastPage], t).1;
      InsertKeepsNext(pages[lastPage], t);
      if slot == -1 {
        OpenPage(t);
      } else {
        SetPage(lastPage, page, |ids| - 1);
      }
    }

    /** Links a new page behind the last one and puts the tuple there. */
    method OpenPage(t: Tuple)
      requires Valid() && nextPage < 0x8000_0000
      modifies this`pages, this`nextPage, this`lastPage, this`ids
      ensures Valid() && nextPage == old(nextPage) + 1
      ensures var h, n := old(State()), old(|ids|) - 1;
              State() == h.(ids := h.ids + [old(nextPage)],
                            pages := h.pages[n := h.pages[n].(next := old(nextPage))] + [Insert(EmptyPage, t).0])
    {
      hide Insert, Chained, PagesOf;
      ChainedFacts(pages, ids, nextPage);
      var newPage := nextPage;
      nextPage := nextPage + 1;
      InsertKeepsNext(EmptyPage, t);
      PushChained(pages, ids, newPage, Insert(EmptyPage, t).0);
      pages := pages[lastPage := pages[lastPage].(next := newPage)][newPage := Insert(EmptyPage, t).0];
      lastPage := newPage;
      ids := ids + [newPage];
    }

    /** The live tuple at a record id's actual place. */
    method GetTuple(rid: RID) returns (t: Option<Tuple>)
      requires Valid()
      ensures rid.actual.page in ids ==> t == LookUp(State(), rid.actual)
    {
      if rid.actual.page !in pages {
        return None;
      }
      t := Get(pages[rid.actual.page], rid.actual.slot);
      ghost var i := IndexOf(ids, rid.actual.page);
    }

    method DeleteTuple(rid: RID) returns (done: bool)
      requires Valid() && rid.page in ids
      modifies this
      ensures Valid() && (State(), done) == TableModel.DeleteTuple(old(State()), rid)
    {
      hide Delete;
      ghost var i := IndexOf(ids, rid.page);
      assert State().pages[i] == pages[rid.page];
      DeleteKeepsNext(pages[rid.page], rid.actual.slot);
      var (page, deleted) := Delete(pages[rid.page], rid.actual.slot);
      SetPage(rid.page, page, i);
      done := deleted;
      numTuples := numTuples - 1;
    }

    /** The record id after the update; nothing where the program stops because there is no live row. */
    method UpdateTuple(rid: RID, t: Tuple) returns (rid': Option<RID>)
      requires Valid() && nextPage < 0x8000_0000 && rid.page in ids && rid.actual.page in ids
      modifies this
      ensures Valid()
      ensures if LookUp(old(State()), rid.actual) == None then rid' == None && State() == old(State())
              else rid' != None && (State(), rid'.value) == TableModel.UpdateTuple(old(State()), rid, t, old(nextPage))
    {
      hide Insert, Delete, Get, Update;
      ghost var i := IndexOf(ids, rid.page);
      var found := GetTuple(rid);
      if found == None {
        return None;
      }
      if TupleSize(found.value) < TupleSize(t) {
        DeleteKeepsNext(pages[rid.page], rid.slot);
        SetPage(rid.page, Delete(pages[rid.page], rid.slot).0, i);
        var moved := InsertTuple(t);
        rid' := Some(rid.(actual := moved.actual));
      } else {
        UpdateKeepsNext(pages[rid.page], rid.slot, t);
        SetPage(rid.page, Update(pages[rid.page], rid.slot, t).0, i);
        rid' := Some(rid);
      }
    }

    method SetPage(id: int, page: Page, ghost i: int)
      requires Valid() && 0 <= i < |ids| && ids[i] == id && page.next == pages[id].next
      modifies this`pages
      ensures Valid() && State() == old(State()).(pages := old(State()).pages[i := page])
    {
      SetChained(pages, ids, nextPage, i, page);
      pages := pages[id := page];
    }
  }

  lemma InsertKeepsNext(p: Page, t: Tuple)
    ensures Insert(p, t).0.next == p.next && (Insert(p, t).1 == -1 ==> Insert(p, t).0 == p)
  {
  }

  lemma DeleteKeepsNext(p: Page, slot: int)
    ensures Delete(p, slot).0.next == p.next
  {
  }

  lemma UpdateKeepsNext(p: Page, slot: int, t: Tuple)
    ensures Update(p, slot, t).0.next == p.next
  {
  }
}
