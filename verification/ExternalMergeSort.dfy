/** The external merge sort operator: runs of one page, pairwise merging of runs, and the reading cursor. */
module ExternalMergeSorts {
  import opened Basics
  import opened SortModel
  import SP = SlottedPages

  /** The merge under way: which rows were taken from two runs, and the pages of the new run. */
  ghost predicate RunOf(pages: map<int, SortPage>, ids: seq<int>, first: int) {
    Chain(pages, ids) && ids[0] == first
  }

  /** The queued first pages head the given runs. */
  ghost predicate Queued(pages: map<int, SortPage>, queue: seq<int>, runs: seq<seq<int>>) {
    |runs| == |queue| && forall i | 0 <= i < |runs| :: RunOf(pages, runs[i], queue[i])
  }

  ghost predicate AllSorted(asc: bool, pages: map<int, SortPage>, runs: seq<seq<int>>) {
    forall i | 0 <= i < |runs| :: Chain(pages, runs[i]) && Sorted(asc, RowsOf(pages, runs[i]))
  }

  ghost predicate AllChains(pages: map<int, SortPage>, runs: seq<seq<int>>) {
    forall i | 0 <= i < |runs| :: Chain(pages, runs[i])
  }

  ghost function Collected(pages: map<int, SortPage>, runs: seq<seq<int>>): multiset<Row>
    requires AllChains(pages, runs)
  {
    if runs == [] then multiset{}
    else multiset(RowsOf(pages, runs[0])) + Collected(pages, runs[1..])
  }

  lemma {:induction false} CollectedPush(pages: map<int, SortPage>, runs: seq<seq<int>>, run: seq<int>)
    requires AllChains(pages, runs) && Chain(pages, run)
    ensures AllChains(pages, runs + [run])
    ensures Collected(pages, runs + [run]) == Collected(pages, runs) + multiset(RowsOf(pages, run))
  {
    if runs == [] {
      assert runs + [run] == [run] && [run][1..] == [];
    } else {
      CollectedPush(pages, runs[1..], run);
      assert (runs + [run])[1..] == runs[1..] + [run];
    }
  }

  lemma {:induction false} QueuePush(asc: bool, pages: map<int, SortPage>, queue: seq<int>, runs: seq<seq<int>>,
                                     first: int, run: seq<int>)
    requires Queued(pages, queue, runs) && AllSorted(asc, pages, runs)
    requires RunOf(pages, run, first) && Sorted(asc, RowsOf(pages, run))
    ensures Queued(pages, queue + [first], runs + [run]) && AllSorted(asc, pages, runs + [run])
    ensures Collected(pages, runs + [run]) == Collected(pages, runs) + multiset(RowsOf(pages, run))
  {
    CollectedPush(pages, runs, run);
  }

  ghost predicate Below(pages: map<int, SortPage>, last: int) {
    forall p | p in pages :: 0 < p <= last
  }

  /** The pages of a run being written: as a chain, but the only page may still be empty. */
  ghost predicate Building(pages: map<int, SortPage>, ids: seq<int>) {
    && ids != []
    && (forall i, j | 0 <= i < j < |ids| :: ids[i] != ids[j])
    && (forall i | 0 <= i < |ids| :: ids[i] in pages && ids[i] != -1)
    && (forall i | 0 <= i < |ids| :: pages[ids[i]].next == if i + 1 < |ids| then ids[i + 1] else -1)
    && (forall i | 0 <= i < |ids| && |ids| > 1 :: pages[ids[i]].rows != [])
  }

  lemma BuildingLast(pages: map<int, SortPage>, ids: seq<int>)
    requires Building(pages, ids)
    ensures ids != [] && ids[|ids| - 1] in pages && forall i | 0 <= i < |ids| :: ids[i] in pages
  {
  }

  /** A row more on the last page. */
  lemma {:induction false} GrowLast(pages: map<int, SortPage>, ids: seq<int>, r: Row)
    requires Building(pages, ids)
    ensures var last := ids[|ids| - 1];
            var pages' := pages[last := SortPage(pages[last].rows + [r], pages[last].next)];
            Building(pages', ids) && Chain(pages', ids) && RowsOf(pages', ids) == RowsOf(pages, ids) + [r]
  {
    var n := |ids| - 1;
    var last := ids[n];
    var pages' := pages[last := SortPage(pages[last].rows + [r], pages[last].next)];
    FlatGrow(Parts(pages, ids), r);
    assert Parts(pages', ids) == Parts(pages, ids)[n := pages[last].rows + [r]];
  }

  /** A row on a new last page. */
  lemma {:induction false} GrowPage(pages: map<int, SortPage>, ids: seq<int>, id: int, r: Row)
    requires Building(pages, ids) && id !in pages && id != -1 && pages[ids[|ids| - 1]].rows != []
    ensures var last := ids[|ids| - 1];
            var pages' := pages[id := SortPage([r], -1)][last := SortPage(pages[last].rows, id)];
            Building(pages', ids + [id]) && Chain(pages', ids + [id])
            && RowsOf(pages', ids + [id]) == RowsOf(pages, ids) + [r]
  {
    var last := ids[|ids| - 1];
    var pages' := pages[id := SortPage([r], -1)][last := SortPage(pages[last].rows, id)];
    var ids' := ids + [id];
    forall i | 0 <= i < |ids'|
      ensures ids'[i] in pages' && ids'[i] != -1
                && pages'[ids'[i]].rows == (if i < |ids| then pages[ids[i]].rows else [r])
      ensures pages'[ids'[i]].next == (if i + 1 < |ids'| then ids'[i + 1] else -1)
    {
    }
    GrowRows(pages, ids, pages', id, r);
  }

  lemma {:induction false} GrowRows(pages: map<int, SortPage>, ids: seq<int>, pages': map<int, SortPage>, id: int,
      r: Row)
    requires forall i | 0 <= i < |ids| ::
               ids[i] in pages && ids[i] in pages' && pages'[ids[i]].rows == pages[ids[i]].rows
    requires id in pages' && pages'[id].rows == [r]
    ensures RowsOf(pages', ids + [id]) == RowsOf(pages, ids) + [r]
  {
    FlatPush(Parts(pages, ids), [r]);
    assert Parts(pages', ids + [id]) == Parts(pages, ids) + [[r]];
  }

  /** A run being read: its pages and their rows. */
  ghost predicate Reading(pages: map<int, SortPage>, ids: seq<int>, parts: seq<seq<Row>>) {
    && (forall i | 0 <= i < |ids| :: ids[i] in pages) && Parts(pages, ids) == parts
    && forall i | 0 <= i < |parts| :: parts[i] != []
  }

  lemma {:induction false} ReadingSame(pages: map<int, SortPage>, ids: seq<int>, parts: seq<seq<Row>>, p: int,
      page: SortPage)
    requires Reading(pages, ids, parts) && p !in ids
    ensures Reading(pages[p := page], ids, parts)
  {
    assert Parts(pages[p := page], ids) == parts;
  }

  ghost predicate Avoids(runs: seq<seq<int>>, p: int) {
    forall i | 0 <= i < |runs| :: p !in runs[i]
  }

  /** Rewriting a page of no queued run changes no queued run. */
  lemma {:induction false} QueueSame(asc: bool, pages: map<int, SortPage>, p: int, page: SortPage,
                                     queue: seq<int>, runs: seq<seq<int>>)
    requires Queued(pages, queue, runs) && AllSorted(asc, pages, runs) && Avoids(runs, p)
    ensures var pages' := pages[p := page];
            && Queued(pages', queue, runs) && AllSorted(asc, pages', runs)
            && Collected(pages', runs) == Collected(pages, runs)
  {
    var pages' := pages[p := page];
    if runs != [] {
      ChainSame(pages, pages', runs[0]);
      assert Queued(pages, queue[1..], runs[1..]);
      QueueSame(asc, pages, p, page, queue[1..], runs[1..]);
      forall i | 0 <= i < |runs|
        ensures RunOf(pages', runs[i], queue[i]) && Sorted(asc, RowsOf(pages', runs[i]))
      {
        ChainSame(pages, pages', runs[i]);
      }
    }
  }

  /** A sorted permutation; the library's sort is any such method. */
  method SortRows(asc: bool, rows: seq<Row>) returns (sorted: seq<Row>)
    ensures Sorted(asc, sorted) && multiset(sorted) == multiset(rows)
  {
    sorted := [];
    for i := 0 to |rows|
      invariant Sorted(asc, sorted) && multiset(sorted) == multiset(rows[..i])
    {
      var k := 0;
      while k < |sorted| && Le(asc, sorted[k], rows[i])
        invariant k <= |sorted| && forall j | 0 <= j < k :: Le(asc, sorted[j], rows[i])
      {
        k := k + 1;
      }
      InsertSorted(asc, sorted, k, rows[i]);
      sorted := sorted[..k] + [rows[i]] + sorted[k..];
      assert rows[..i + 1] == rows[..i] + [rows[i]];
    }
    assert rows[..|rows|] == rows;
  }

  lemma {:induction false} InsertSorted(asc: bool, rows: seq<Row>, k: nat, r: Row)
    requires Sorted(asc, rows) && k <= |rows|
    requires forall j | 0 <= j < k :: Le(asc, rows[j], r)
    requires k < |rows| ==> !Le(asc, rows[k], r)
    ensures var rows' := rows[..k] + [r] + rows[k..];
            Sorted(asc, rows') && multiset(rows') == multiset(rows) + multiset{r}
  {
    assert rows == rows[..k] + rows[k..];
  }

  class ExternalMergeSort {
    const asc: bool
    var pages: map<int, SortPage>
    var lastPage: nat
    var pagesIds: seq<int>
    var runBuffer: seq<Row>
    var tmpPage: int
    var currPage: int
    var currSlot: nat
    /** The page ids of the queued runs. */
    ghost var runs: seq<seq<int>>
    /** All rows of the queued runs. */
    ghost var total: multiset<Row>
    /** The two runs being merged, with the rows of each page. */
    ghost var leftIds: seq<int>
    ghost var leftParts: seq<seq<Row>>
    ghost var rightIds: seq<int>
    ghost var rightParts: seq<seq<Row>>
    /** The pages of the merged run. */
    ghost var outIds: seq<int>
    /** Where in the result run the reading cursor is. */
    ghost var position: nat

    ghost predicate Valid()
      reads this
    {
      && Below(pages, lastPage) && Queued(pages, pagesIds, runs) && AllSorted(asc, pages, runs)
      && total == Collected(pages, runs)
      && Reading(pages, leftIds, leftParts) && Reading(pages, rightIds, rightParts)
    }

    /** No run, queued or being read, uses the page. */
    ghost predicate Unused(id: int)
      reads this
    {
      Avoids(runs, id) && id !in leftIds && id !in rightIds
    }

    constructor (asc: bool, pages: map<int, SortPage>, lastPage: nat)
      requires Below(pages, lastPage)
      ensures Valid() && pagesIds == [] && runBuffer == [] && this.asc == asc
    {
      this.asc, this.pages, this.lastPage := asc, pages, lastPage;
      pagesIds, runBuffer, tmpPage, currPage, currSlot := [], [], -1, -1, 0;
      runs, total := [], multiset{};
      leftIds, leftParts, rightIds, rightParts, outIds, position := [], [], [], [], [], 0;
    }

    method NewPage() returns (id: int)
      requires Valid()
      modifies this`pages, this`lastPage
      ensures Valid() && id == lastPage == old(lastPage) + 1 && pages == old(pages)[id := SortPage([], -1)]
      ensures id !in old(pages) && Unused(id)
    {
      id := lastPage + 1;
      assert Avoids(runs, id) by {
        forall i | 0 <= i < |runs| ensures id !in runs[i] { assert RunOf(pages, runs[i], pagesIds[i]); }
      }
      QueueSame(asc, pages, id, SortPage([], -1), pagesIds, runs);
      ReadingSame(pages, leftIds, leftParts, id, SortPage([], -1));
      ReadingSame(pages, rightIds, rightParts, id, SortPage([], -1));
      pages := pages[id := SortPage([], -1)];
      lastPage := id;
    }

    /** Rewrites a page of no queued run. */
    method SetPage(id: int, page: SortPage)
      requires Valid() && id in pages && Unused(id)
      modifies this`pages
      ensures Valid() && pages == old(pages)[id := page]
    {
      QueueSame(asc, pages, id, page, pagesIds, runs);
      ReadingSame(pages, leftIds, leftParts, id, page);
      ReadingSame(pages, rightIds, rightParts, id, page);
      pages := pages[id := page];
    }

    /** Adds a row to a page of no queued run; -1 if there is no room. */
    method InsertIntoPage(id: int, r: Row) returns (slot: int)
      requires Valid() && id in pages && Unused(id)
      modifies this`pages
      ensures slot == if HasRoom(old(pages[id].rows), r) then old(|pages[id].rows|) else -1
      ensures pages == if slot == -1 then old(pages)
                       else old(pages)[id := SortPage(old(pages[id].rows) + [r], old(pages[id].next))]
      ensures Valid()
    {
      var page := pages[id];
      if !HasRoom(page.rows, r) {
        return -1;
      }
      slot := |page.rows|;
      SetPage(id, SortPage(page.rows + [r], page.next));
    }

    // -------------------------------------------------------------- runs of one page

    /** Sorts the buffered rows into a page of its own, which is queued, and empties the temporary page.
        No row is lost: the sorted rows fit one page because the buffered ones did. */
    method WriteRunBuffer() returns (lost: int)
      requires Valid() && tmpPage in pages && Unused(tmpPage)
      requires runBuffer != [] && HEADER_SIZE + Volume(runBuffer) <= PAGE_SIZE
      modifies this`pages, this`lastPage, this`pagesIds, this`runs, this`total
      ensures Valid() && lost == 0 && Unused(tmpPage)
      ensures tmpPage in pages && pages[tmpPage] == SortPage([], old(pages[tmpPage].next))
      ensures total == old(total) + multiset(runBuffer)
      ensures |runs| == old(|runs|) + 1
    {
      hide Below, Queued, AllSorted, Collected, Reading, Volume, Sorted;
      var id := NewPage();
      var sorted := SortRows(asc, runBuffer);
      lost := WriteSorted(id, sorted);
      ClearTmpPage();
    }

    method WriteSorted(id: int, sorted: seq<Row>) returns (lost: int)
      requires Valid() && id in pages && Unused(id) && pages[id] == SortPage([], -1) && id != -1
      requires Sorted(asc, sorted) && multiset(sorted) == multiset(runBuffer)
      requires runBuffer != [] && HEADER_SIZE + Volume(runBuffer) <= PAGE_SIZE
      modifies this`pages, this`pagesIds, this`runs, this`total
      ensures Valid() && lost == 0 && pages == old(pages)[id := SortPage(sorted, -1)]
      ensures total == old(total) + multiset(runBuffer) && runs == old(runs) + [[id]]
    {
      hide Sorted, Chain, HasRoom, Volume, Below, Queued, AllSorted, Collected, Reading;
      forall k | 0 <= k < |sorted| ensures HasRoom(sorted[..k], sorted[k]) { PermutationFits(runBuffer, sorted, k); }
      lost := WriteRows(id, sorted);
      assert sorted != [] by { assert multiset(sorted) != multiset([]); }
      OnePageRun(pages, id, sorted);
      QueueRun(id, [id]);
    }

    method ClearTmpPage()
      requires Valid() && tmpPage in pages && Unused(tmpPage)
      modifies this`pages
      ensures Valid()
      ensures pages == old(pages)[tmpPage := SortPage([], old(pages[tmpPage].next))]
    {
      SetPage(tmpPage, SortPage([], pages[tmpPage].next));
    }

    /** Writes rows that fit to an empty page and counts those that were lost. */
    method WriteRows(id: int, rows: seq<Row>) returns (lost: int)
      requires Valid() && id in pages && Unused(id) && pages[id].rows == []
      requires forall k | 0 <= k < |rows| :: HasRoom(rows[..k], rows[k])
      modifies this`pages
      ensures Valid() && lost == 0 && pages == old(pages)[id := SortPage(rows, old(pages[id].next))]
    {
      lost := 0;
      for i := 0 to |rows|
        invariant Valid() && lost == 0 && pages == old(pages)[id := SortPage(rows[..i], old(pages[id].next))]
      {
        var slot := InsertIntoPage(id, rows[i]);
        if slot == -1 {
          lost := lost + 1;
        }
        assert rows[..i + 1] == rows[..i] + [rows[i]];
      }
      assert rows[..|rows|] == rows;
    }

    /** Queues a finished run. */
    method QueueRun(first: int, ghost ids: seq<int>)
      requires Valid() && RunOf(pages, ids, first) && Sorted(asc, RowsOf(pages, ids))
      modifies this`pagesIds, this`runs, this`total
      ensures Valid() && pagesIds == old(pagesIds) + [first] && runs == old(runs) + [ids]
      ensures total == old(total) + multiset(RowsOf(pages, ids))
    {
      QueuePush(asc, pages, pagesIds, runs, first, ids);
      pagesIds := pagesIds + [first];
      runs := runs + [ids];
      total := total + multiset(RowsOf(pages, ids));
    }

    /** The temporary page holds the buffered rows. */
    ghost predicate Buffering()
      reads this
    {
      && Valid() && tmpPage in pages && Unused(tmpPage) && pages[tmpPage].rows == runBuffer
      && HEADER_SIZE + Volume(runBuffer) <= PAGE_SIZE
    }

    /** Cuts the rows of the child into sorted runs of one page each. */
    method FormRuns(rows: seq<Row>)
      requires Valid() && pagesIds == [] && total == multiset{} && runBuffer == []
      requires forall i | 0 <= i < |rows| :: HasRoom([], rows[i])
      modifies this`pages, this`lastPage, this`pagesIds, this`runs, this`total, this`runBuffer, this`tmpPage
      ensures Valid() && total == multiset(rows) && (rows != [] ==> pagesIds != [])
    {
      hide Below, Queued, AllSorted, Collected, Reading, HasRoom;
      tmpPage := NewPage();
      for i := 0 to |rows|
        invariant Buffering() && (i > 0 ==> runBuffer != [])
        invariant total + multiset(runBuffer) == multiset(rows[..i])
      {
        BufferRow(rows[i]);
        assert rows[..i + 1] == rows[..i] + [rows[i]];
      }
      assert rows[..|rows|] == rows;
      FlushRest();
    }

    /** The rows left in the buffer become the last run. */
    method FlushRest()
      requires Buffering()
      modifies this`pages, this`lastPage, this`pagesIds, this`runs, this`total, this`runBuffer
      ensures Valid() && runBuffer == [] && total == old(total) + multiset(old(runBuffer))
      ensures old(runBuffer) != [] ==> pagesIds != []
    {
      if runBuffer != [] {
        var lost := WriteRunBuffer();
        runBuffer := [];
      }
    }

    /** One row into the temporary page; a full page becomes a run first. */
    method BufferRow(r: Row)
      requires Buffering() && HasRoom([], r)
      modifies this`pages, this`lastPage, this`pagesIds, this`runs, this`total, this`runBuffer
      ensures Buffering() && runBuffer != []
      ensures total + multiset(runBuffer) == old(total) + multiset(old(runBuffer)) + multiset{r}
    {
      var slot := InsertIntoPage(tmpPage, r);
      if slot == -1 {
        var lost := WriteRunBuffer();
        runBuffer := [];
        slot := InsertIntoPage(tmpPage, r);
        assert [] + [r] == [r];
      }
      VolumePush(runBuffer, r);
      runBuffer := runBuffer + [r];
    }

    // -------------------------------------------------------------- merging two runs

    /** The merged run is being written, its last page is `out`. */
    ghost predicate Writing(out: int)
      reads this
    {
      && Valid() && Building(pages, outIds) && outIds[|outIds| - 1] == out
      && forall i | 0 <= i < |outIds| :: Unused(outIds[i])
    }

    ghost function Written(): seq<Row>
      requires Building(pages, outIds)
      reads this
    {
      RowsOf(pages, outIds)
    }

    /** Copies one row to the end of the merged run, on a new page when the last one is full. */
    method InsertTuple(out: int, page: int, slot: nat) returns (out': int)
      requires Writing(out) && page in pages && slot < |pages[page].rows| && HasRoom([], pages[page].rows[slot])
      modifies this`pages, this`lastPage, this`outIds
      ensures Writing(out') && Chain(pages, outIds) && outIds[0] == old(outIds[0])
      ensures Written() == old(Written()) + [old(pages[page].rows[slot])]
    {
      hide Below, Queued, AllSorted, Collected, Reading, HasRoom, Chain, Building;
      BuildingLast(pages, outIds);
      var r := pages[page].rows[slot];
      out' := out;
      GrowLast(pages, outIds, r);
      var newSlot := InsertIntoPage(out, r);
      if newSlot == -1 {
        ghost var before := pages;
        out' := AppendPage(out, r);
        GrowPage(before, outIds, out', r);
        outIds := outIds + [out'];
      }
    }

    /** Links a new page with one row behind page `out`. */
    method AppendPage(out: int, r: Row) returns (next: int)
      requires Valid() && out in pages && Unused(out) && HasRoom([], r)
      modifies this`pages, this`lastPage
      ensures Valid() && next == old(lastPage) + 1 && next !in old(pages) && Unused(next)
      ensures pages == old(pages)[next := SortPage([r], -1)][out := SortPage(old(pages[out].rows), next)]
    {
      next := LinkPage(out);
      var slot := InsertIntoPage(next, r);
      assert [] + [r] == [r];
    }

    method LinkPage(out: int) returns (next: int)
      requires Valid() && out in pages && Unused(out)
      modifies this`pages, this`lastPage
      ensures Valid() && next == old(lastPage) + 1 && next !in old(pages) && Unused(next)
      ensures pages == old(pages)[next := SortPage([], -1)][out := SortPage(old(pages[out].rows), next)]
    {
      next := NewPage();
      SetPage(out, SortPage(pages[out].rows, next));
    }

    /** Both cursors and the merged rows agree. */
    ghost predicate Midway(out: int, left: nat, lp: nat, ls: nat, right: nat, rp: nat, rs: nat)
      reads this
    {
      && Writing(out) && Fitting(leftParts) && Fitting(rightParts)
      && Cursor(leftParts, lp, ls, left) && Cursor(rightParts, rp, rs, right)
      && Merging(asc, Flat(leftParts), Flat(rightParts), left, right, Written())
      && (left + right > 0 ==> Chain(pages, outIds))
    }

    method TakeLeftRow(out: int, left: nat, lp: nat, ls: nat, ghost right: nat, ghost rp: nat, ghost rs: nat,
                       ids: seq<int>, fields: seq<seq<int>>) returns (out': int, left': nat, lp': nat, ls': nat)
      requires Midway(out, left, lp, ls, right, rp, rs) && ids == leftIds && FieldsOf(fields, leftParts)
      requires left < |Flat(leftParts)|
      requires right < |Flat(rightParts)| ==> Le(asc, Flat(leftParts)[left], Flat(rightParts)[right])
      modifies this`pages, this`lastPage, this`outIds
      ensures Midway(out', left', lp', ls', right, rp, rs) && left' == left + 1 && outIds[0] == old(outIds[0])
    {
      hide Below, Queued, AllSorted, Collected, HasRoom, Chain, Building, Flat, Merging;
      CursorAt(leftParts, lp, ls, left);
      CursorNext(leftParts, lp, ls, left);
      TakeLeft(asc, Flat(leftParts), Flat(rightParts), left, right, Written());
      out' := InsertTuple(out, ids[lp], ls);
      left' := left + 1;
      lp', ls' := lp, ls + 1;
      if ls' >= |fields[lp]| {
        lp', ls' := lp + 1, 0;
      }
    }

    method TakeRightRow(out: int, ghost left: nat, ghost lp: nat, ghost ls: nat, right: nat, rp: nat, rs: nat,
                        ids: seq<int>, fields: seq<seq<int>>) returns (out': int, right': nat, rp': nat, rs': nat)
      requires Midway(out, left, lp, ls, right, rp, rs) && ids == rightIds && FieldsOf(fields, rightParts)
      requires right < |Flat(rightParts)|
      requires left < |Flat(leftParts)| ==> Le(asc, Flat(rightParts)[right], Flat(leftParts)[left])
      modifies this`pages, this`lastPage, this`outIds
      ensures Midway(out', left, lp, ls, right', rp', rs') && right' == right + 1 && outIds[0] == old(outIds[0])
    {
      hide Below, Queued, AllSorted, Collected, HasRoom, Chain, Building, Flat, Merging;
      CursorAt(rightParts, rp, rs, right);
      CursorNext(rightParts, rp, rs, right);
      TakeRight(asc, Flat(leftParts), Flat(rightParts), left, right, Written());
      out' := InsertTuple(out, ids[rp], rs);
      right' := right + 1;
      rp', rs' := rp, rs + 1;
      if rs' >= |fields[rp]| {
        rp', rs' := rp + 1, 0;
      }
    }

    /** Takes the smaller head row until both runs are used up. */
    method MergeLoops(first: int, leftRun: seq<int>, leftFields: seq<seq<int>>, rightRun: seq<int>,
                      rightFields: seq<seq<int>>, leftSize: nat, rightSize: nat)
      requires Midway(first, 0, 0, 0, 0, 0, 0) && outIds == [first]
      requires leftRun == leftIds && FieldsOf(leftFields, leftParts) && leftSize == |Flat(leftParts)|
      requires rightRun == rightIds && FieldsOf(rightFields, rightParts) && rightSize == |Flat(rightParts)|
      requires leftSize + rightSize > 0
      modifies this`pages, this`lastPage, this`outIds
      ensures Valid() && RunOf(pages, outIds, first) && Sorted(asc, RowsOf(pages, outIds))
      ensures multiset(RowsOf(pages, outIds)) == multiset(Flat(leftParts)) + multiset(Flat(rightParts))
    {
      var out, left, lp, ls, right, rp, rs :=
        MergeHeads(first, leftRun, leftFields, rightRun, rightFields, leftSize, rightSize);
      out, left, lp, ls := CopyLeft(out, left, lp, ls, right, rp, rs, leftRun, leftFields, leftSize);
      out, right, rp, rs := CopyRight(out, left, lp, ls, right, rp, rs, rightRun, rightFields, rightSize);
      FinishMerge(out, left, lp, ls, right, rp, rs);
    }

    lemma FinishMerge(out: int, left: nat, lp: nat, ls: nat, right: nat, rp: nat, rs: nat)
      requires Midway(out, left, lp, ls, right, rp, rs)
      requires left == |Flat(leftParts)| && right == |Flat(rightParts)| && left + right > 0
      ensures Valid() && Chain(pages, outIds) && Sorted(asc, RowsOf(pages, outIds))
      ensures multiset(RowsOf(pages, outIds)) == multiset(Flat(leftParts)) + multiset(Flat(rightParts))
    {
      MergedAll(asc, Flat(leftParts), Flat(rightParts), Written());
    }

    /** Merges until one run is used up. */
    method MergeHeads(first: int, leftRun: seq<int>, leftFields: seq<seq<int>>, rightRun: seq<int>,
                      rightFields: seq<seq<int>>, leftSize: nat, rightSize: nat)
      returns (out: int, left: nat, lp: nat, ls: nat, right: nat, rp: nat, rs: nat)
      requires Midway(first, 0, 0, 0, 0, 0, 0) && outIds == [first]
      requires leftRun == leftIds && FieldsOf(leftFields, leftParts) && leftSize == |Flat(leftParts)|
      requires rightRun == rightIds && FieldsOf(rightFields, rightParts) && rightSize == |Flat(rightParts)|
      modifies this`pages, this`lastPage, this`outIds
      ensures Midway(out, left, lp, ls, right, rp, rs) && outIds[0] == first
      ensures left == leftSize || right == rightSize
    {
      hide Below, Queued, AllSorted, Collected, Reading, Flat, HasRoom, Fitting;
      out, left, lp, ls, right, rp, rs := first, 0, 0, 0, 0, 0, 0;
      while left < leftSize && right < rightSize
        invariant Midway(out, left, lp, ls, right, rp, rs) && outIds[0] == first
      {
        CursorAt(leftParts, lp, ls, left);
        CursorAt(rightParts, rp, rs, right);
        if Ahead(asc, leftFields[lp][ls], rightFields[rp][rs]) {
          out, left, lp, ls := TakeLeftRow(out, left, lp, ls, right, rp, rs, leftRun, leftFields);
        } else {
          out, right, rp, rs := TakeRightRow(out, left, lp, ls, right, rp, rs, rightRun, rightFields);
        }
      }
    }

    method CopyLeft(out0: int, left0: nat, lp0: nat, ls0: nat, ghost right: nat, ghost rp: nat, ghost rs: nat,
                    leftRun: seq<int>, leftFields: seq<seq<int>>, leftSize: nat)
      returns (out: int, left: nat, lp: nat, ls: nat)
      requires Midway(out0, left0, lp0, ls0, right, rp, rs)
      requires leftRun == leftIds && FieldsOf(leftFields, leftParts) && leftSize == |Flat(leftParts)|
      requires left0 == leftSize || right == |Flat(rightParts)|
      modifies this`pages, this`lastPage, this`outIds
      ensures Midway(out, left, lp, ls, right, rp, rs) && outIds[0] == old(outIds[0]) && left == leftSize
    {
      out, left, lp, ls := out0, left0, lp0, ls0;
      while left < leftSize
        invariant Midway(out, left, lp, ls, right, rp, rs) && outIds[0] == old(outIds[0])
      {
        out, left, lp, ls := TakeLeftRow(out, left, lp, ls, right, rp, rs, leftRun, leftFields);
      }
    }

    method CopyRight(out0: int, ghost left: nat, ghost lp: nat, ghost ls: nat, right0: nat, rp0: nat, rs0: nat,
                     rightRun: seq<int>, rightFields: seq<seq<int>>, rightSize: nat)
      returns (out: int, right: nat, rp: nat, rs: nat)
      requires Midway(out0, left, lp, ls, right0, rp0, rs0)
      requires rightRun == rightIds && FieldsOf(rightFields, rightParts) && rightSize == |Flat(rightParts)|
      requires left == |Flat(leftParts)|
      modifies this`pages, this`lastPage, this`outIds
      ensures Midway(out, left, lp, ls, right, rp, rs) && outIds[0] == old(outIds[0]) && right == rightSize
    {
      out, right, rp, rs := out0, right0, rp0, rs0;
      while right < rightSize
        invariant Midway(out, left, lp, ls, right, rp, rs) && outIds[0] == old(outIds[0])
      {
        out, right, rp, rs := TakeRightRow(out, left, lp, ls, right, rp, rs, rightRun, rightFields);
      }
    }

    /** The page ids of a run, along the chain. */
    method CollectIds(first: int, ghost ids: seq<int>) returns (run: seq<int>)
      requires RunOf(pages, ids, first)
      ensures run == ids
    {
      run := [first];
      var next := pages[first].next;
      assert |ids| > 1 ==> pages[ids[0]].next == ids[0 + 1];
      while next != -1
        invariant 1 <= |run| <= |ids| && run == ids[..|run|] && next == if |run| < |ids| then ids[|run|] else -1
        decreases |ids| - |run|
      {
        run := run + [next];
        next := pages[next].next;
      }
    }

    /** The sort keys on each page of a run. */
    method CollectFields(ids: seq<int>) returns (fields: seq<seq<int>>)
      requires forall i | 0 <= i < |ids| :: ids[i] in pages
      ensures FieldsOf(fields, Parts(pages, ids))
    {
      fields := [];
      for i := 0 to |ids|
        invariant |fields| == i && (forall p | 0 <= p < i :: |fields[p]| == |pages[ids[p]].rows|)
        invariant forall p, s | 0 <= p < i && 0 <= s < |fields[p]| :: fields[p][s] == pages[ids[p]].rows[s].key
      {
        var rows := pages[ids[i]].rows;
        fields := fields + [seq(|rows|, s requires 0 <= s < |rows| => rows[s].key)];
      }
    }

    /** The number of rows on all pages. */
    method CountRows(fields: seq<seq<int>>, ghost parts: seq<seq<Row>>) returns (size: nat)
      requires FieldsOf(fields, parts)
      ensures size == |Flat(parts)|
    {
      size := 0;
      for i := 0 to |fields|
        invariant size == |Flat(parts[..i])|
      {
        assert parts[..i + 1][..i] == parts[..i];
        size := size + |fields[i]|;
      }
      assert parts[..|parts|] == parts;
    }

    method PopRun() returns (first: int, ghost ids: seq<int>)
      requires Valid() && pagesIds != [] && forall r | r in total :: HasRoom([], r)
      modifies this`pagesIds, this`runs, this`total
      ensures Valid() && |pagesIds| == old(|pagesIds|) - 1 && RunOf(pages, ids, first)
      ensures Reading(pages, ids, Parts(pages, ids)) && Fitting(Parts(pages, ids)) && Sorted(asc, RowsOf(pages, ids))
      ensures old(total) == total + multiset(RowsOf(pages, ids))
    {
      PopHead(asc, pages, pagesIds, runs);
      first, ids := pagesIds[0], runs[0];
      total := Collected(pages, runs[1..]);
      pagesIds, runs := pagesIds[1..], runs[1..];
    }

    /** Takes the first run from the queue, as the left one. */
    method PopLeft() returns (first: int)
      requires Valid() && pagesIds != [] && forall r | r in total :: HasRoom([], r)
      modifies this`pagesIds, this`runs, this`total, this`leftIds, this`leftParts
      ensures Valid() && |pagesIds| == old(|pagesIds|) - 1 && RunOf(pages, leftIds, first)
      ensures Fitting(leftParts) && Sorted(asc, Flat(leftParts))
      ensures old(total) == total + multiset(Flat(leftParts))
    {
      ghost var ids;
      first, ids := PopRun();
      leftIds, leftParts := ids, Parts(pages, ids);
    }

    /** Takes the next run from the queue, as the right one. */
    method PopRight() returns (first: int)
      requires Valid() && pagesIds != [] && forall r | r in total :: HasRoom([], r)
      modifies this`pagesIds, this`runs, this`total, this`rightIds, this`rightParts
      ensures Valid() && |pagesIds| == old(|pagesIds|) - 1 && RunOf(pages, rightIds, first)
      ensures Fitting(rightParts) && Sorted(asc, Flat(rightParts))
      ensures old(total) == total + multiset(Flat(rightParts))
    {
      ghost var ids;
      first, ids := PopRun();
      rightIds, rightParts := ids, Parts(pages, ids);
    }

    method PopTwo() returns (first: int, second: int)
      requires Valid() && |pagesIds| > 1 && forall r | r in total :: HasRoom([], r)
      modifies this`pagesIds, this`runs, this`total, this`leftIds, this`leftParts, this`rightIds, this`rightParts
      ensures Valid() && |pagesIds| == old(|pagesIds|) - 2
      ensures RunOf(pages, leftIds, first) && RunOf(pages, rightIds, second)
      ensures Fitting(leftParts) && Fitting(rightParts) && Sorted(asc, Flat(leftParts)) && Sorted(asc, Flat(rightParts))
      ensures old(total) == total + (multiset(Flat(leftParts)) + multiset(Flat(rightParts)))
    {
      first := PopLeft();
      second := PopRight();
    }

    /** Merges the first two queued runs into a new one at the end of the queue. */
    method MergeRuns()
      requires Valid() && |pagesIds| > 1 && forall r | r in total :: HasRoom([], r)
      modifies this`pages, this`lastPage, this`pagesIds, this`runs, this`total, this`outIds
      modifies this`leftIds, this`leftParts, this`rightIds, this`rightParts
      ensures Valid() && total == old(total) && |pagesIds| == old(|pagesIds|) - 1
    {
      var first, second := PopTwo();
      var merged := MergePopped(first, second);
      QueueMerged(merged);
    }

    /** Queues the merged run; the two runs it was made of are done with. */
    method QueueMerged(merged: int)
      requires Valid() && RunOf(pages, outIds, merged) && Sorted(asc, RowsOf(pages, outIds))
      modifies this`pagesIds, this`runs, this`total, this`leftIds, this`leftParts, this`rightIds, this`rightParts
      ensures Valid() && |pagesIds| == old(|pagesIds|) + 1
      ensures total == old(total) + multiset(RowsOf(pages, outIds))
    {
      leftIds, leftParts, rightIds, rightParts := [], [], [], [];
      QueueRun(merged, outIds);
    }

    method MergePopped(first: int, second: int) returns (merged: int)
      requires Valid() && RunOf(pages, leftIds, first) && RunOf(pages, rightIds, second)
      requires Fitting(leftParts) && Fitting(rightParts) && Sorted(asc, Flat(leftParts))
                 && Sorted(asc, Flat(rightParts))
      modifies this`pages, this`lastPage, this`outIds
      ensures Valid() && RunOf(pages, outIds, merged) && Sorted(asc, RowsOf(pages, outIds))
      ensures multiset(RowsOf(pages, outIds)) == multiset(Flat(leftParts)) + multiset(Flat(rightParts))
    {
      var leftRun := CollectIds(first, leftIds);
      var rightRun := CollectIds(second, rightIds);
      var leftFields := CollectFields(leftRun);
      var rightFields := CollectFields(rightRun);
      var leftSize := CountRows(leftFields, leftParts);
      var rightSize := CountRows(rightFields, rightParts);
      merged := StartRun();
      NotEmpty(leftParts);
      MergeLoops(merged, leftRun, leftFields, rightRun, rightFields, leftSize, rightSize);
    }

    /** An empty page for the merged run. */
    method StartRun() returns (first: int)
      requires Valid() && Fitting(leftParts) && Fitting(rightParts)
      requires Sorted(asc, Flat(leftParts)) && Sorted(asc, Flat(rightParts))
      modifies this`pages, this`lastPage, this`outIds
      ensures Midway(first, 0, 0, 0, 0, 0, 0) && outIds == [first]
    {
      first := NewPage();
      outIds := [first];
      EmptyRun(pages, first);
      CursorStart(leftParts);
      CursorStart(rightParts);
    }

    // -------------------------------------------------------------- the operator

    /** The rows that are still to be returned. */
    ghost function Remaining(): seq<Row>
      requires Opened()
      reads this
    {
      Rest(Parts(pages, runs[0]), position, currSlot)
    }

    /** One run is left and the cursor stands in it. */
    ghost predicate Opened()
      reads this
    {
      && Valid() && |runs| == 1 && position < |runs[0]|
      && currPage == runs[0][position] && currSlot <= |pages[currPage].rows|
    }

    /** Sorts the rows of the child: the queue shrinks to one run, a sorted permutation of them. */
    method Open(rows: seq<Row>)
      requires Valid() && pagesIds == [] && total == multiset{} && runBuffer == [] && rows != []
      requires forall i | 0 <= i < |rows| :: HasRoom([], rows[i])
      modifies this
      ensures Opened() && |pagesIds| == 1
      ensures Sorted(asc, Remaining()) && multiset(Remaining()) == multiset(rows)
      ensures asc ==> forall i, j | 0 <= i < j < |Remaining()| :: Remaining()[i].key <= Remaining()[j].key
      ensures !asc ==> forall i, j | 0 <= i < j < |Remaining()| :: Remaining()[i].key >= Remaining()[j].key
    {
      FormRuns(rows);
      assert forall r | r in multiset(rows) :: r in rows;
      MergeAll();
      StartReading();
      hide Rest, Parts;
      SortedKeys(asc, Remaining());
    }

    method MergeAll()
      requires Valid() && pagesIds != [] && forall r | r in total :: HasRoom([], r)
      modifies this`pages, this`lastPage, this`pagesIds, this`runs, this`total, this`outIds
      modifies this`leftIds, this`leftParts, this`rightIds, this`rightParts
      ensures Valid() && |pagesIds| == 1 && total == old(total)
    {
      while |pagesIds| > 1
        invariant Valid() && pagesIds != [] && total == old(total)
        decreases |pagesIds|
      {
        MergeRuns();
      }
    }

    method StartReading()
      requires Valid() && |pagesIds| == 1
      modifies this`currPage, this`currSlot, this`position
      ensures Opened() && Sorted(asc, Remaining()) && multiset(Remaining()) == total
    {
      currPage, currSlot := pagesIds[0], 0;
      position := 0;
      assert RunOf(pages, runs[0], pagesIds[0]);
      assert Parts(pages, runs[0])[..0] == [];
      assert Remaining() == RowsOf(pages, runs[0]);
      assert runs[1..] == [];
    }

    /** The next row of the result, or nothing at its end. */
    method GetNext() returns (row: Option<Row>)
      requires Opened()
      modifies this`currPage, this`currSlot, this`position
      ensures Opened()
      ensures if old(Remaining()) == [] then row == None && Remaining() == []
              else row == Some(old(Remaining()[0])) && Remaining() == old(Remaining()[1..])
    {
      hide Below, Queued, AllSorted, Collected, Reading, Rest, Flat;
      QueuedNext(pages, pagesIds, runs, position);
      RestNext(Parts(pages, runs[0]), position, currSlot);
      var rows := pages[currPage].rows;
      if currSlot >= |rows| {
        var next := pages[currPage].next;
        if next == -1 {
          return None;
        }
        position := position + 1;
        currPage, currSlot := next, 1;
        return Some(pages[next].rows[0]);
      }
      currSlot := currSlot + 1;
      return Some(rows[currSlot - 1]);
    }

    /** The k-th row of the result was just read. */
    ghost predicate AtRow(all: seq<Row>, k: nat, row: Option<Row>)
      reads this
    {
      && Opened() && k <= |all|
      && if k < |all| then row == Some(all[k]) && Remaining() == all[k + 1..] else row == None && Remaining() == []
    }

    method ReadRow(ghost all: seq<Row>, ghost k: nat) returns (row: Option<Row>)
      requires Opened() && k <= |all| && Remaining() == all[k..]
      modifies this`currPage, this`currSlot, this`position
      ensures AtRow(all, k, row)
    {
      row := GetNext();
    }

    method Keep(rows: seq<Row>, row: Option<Row>, ghost all: seq<Row>) returns (rows': seq<Row>, row': Option<Row>)
      requires AtRow(all, |rows|, row) && row != None && rows <= all
      modifies this`currPage, this`currSlot, this`position
      ensures |rows'| == |rows| + 1 && rows' <= all && AtRow(all, |rows'|, row')
    {
      rows' := rows + [row.value];
      row' := ReadRow(all, |rows'|);
    }

    /** Reads the whole result. */
    method Drain() returns (rows: seq<Row>)
      requires Opened()
      modifies this`currPage, this`currSlot, this`position
      ensures Opened() && Remaining() == [] && rows == old(Remaining())
    {
      rows := [];
      ghost var all := Remaining();
      var row := ReadRow(all, 0);
      while row != None
        invariant AtRow(all, |rows|, row) && rows <= all
        decreases |all| - |rows|
      {
        rows, row := Keep(rows, row, all);
      }
    }
  }

  lemma QueuedNext(pages: map<int, SortPage>, queue: seq<int>, runs: seq<seq<int>>, p: nat)
    requires Queued(pages, queue, runs) && runs != [] && p < |runs[0]|
    ensures forall i | 0 <= i < |runs[0]| :: runs[0][i] in pages && pages[runs[0][i]].rows != []
    ensures var ids := runs[0];
            && pages[ids[p]].next == (if p + 1 < |ids| then ids[p + 1] else -1)
            && forall i | 0 <= i < |ids| :: ids[i] != -1
  {
    assert RunOf(pages, runs[0], queue[0]);
  }

  /** The elements from slot `s` of part `p` on. */
  ghost function Rest<T>(parts: seq<seq<T>>, p: nat, s: nat): seq<T>
    requires p < |parts| && s <= |parts[p]|
  {
    FlatPrefix(parts, p);
    Flat(parts)[|Flat(parts[..p])| + s..]
  }

  lemma {:induction false} RestNext<T>(parts: seq<seq<T>>, p: nat, s: nat)
    requires p < |parts| && s <= |parts[p]| && forall q | 0 <= q < |parts| :: parts[q] != []
    ensures var rest := Rest(parts, p, s);
            if s < |parts[p]| then rest != [] && rest[0] == parts[p][s] && Rest(parts, p, s + 1) == rest[1..]
            else if p + 1 < |parts| then rest != [] && rest[0] == parts[p + 1][0] && Rest(parts, p + 1, 1) == rest[1..]
            else rest == []
  {
    FlatPrefix(parts, p);
    if p + 1 < |parts| { FlatPrefix(parts, p + 1); } else { assert parts[..p + 1] == parts; }
  }

  lemma {:induction false} EmptyRun(pages: map<int, SortPage>, id: int)
    requires id in pages && pages[id] == SortPage([], -1) && id != -1
    ensures Building(pages, [id]) && RowsOf(pages, [id]) == []
  {
    var parts := Parts(pages, [id]);
    assert parts == [[]] && parts[..0] == [];
    assert Flat(parts) == Flat(parts[..0]) + parts[0];
  }

  lemma {:induction false} CursorStart(parts: seq<seq<Row>>)
    requires forall i | 0 <= i < |parts| :: parts[i] != []
    ensures Cursor(parts, 0, 0, 0)
  {
    assert parts[..0] == [];
  }

  lemma {:induction false} NotEmpty(parts: seq<seq<Row>>)
    requires parts != [] && forall i | 0 <= i < |parts| :: parts[i] != []
    ensures Flat(parts) != []
  {
  }

  lemma {:induction false} PopHead(asc: bool, pages: map<int, SortPage>, queue: seq<int>, runs: seq<seq<int>>)
    requires Queued(pages, queue, runs) && AllSorted(asc, pages, runs) && runs != []
    requires forall r | r in Collected(pages, runs) :: HasRoom([], r)
    ensures Queued(pages, queue[1..], runs[1..]) && AllSorted(asc, pages, runs[1..]) && RunOf(pages, runs[0], queue[0])
    ensures var parts := Parts(pages, runs[0]);
            && Reading(pages, runs[0], parts) && Fitting(parts) && Sorted(asc, Flat(parts))
            && Collected(pages, runs) == Collected(pages, runs[1..]) + multiset(Flat(parts))
  {
    FitsAll(Parts(pages, runs[0]), Collected(pages, runs));
  }

  /** What holds of all rows of a multiset holds of those on the given pages. */
  lemma {:induction false} FitsAll(parts: seq<seq<Row>>, m: multiset<Row>)
    requires multiset(Flat(parts)) <= m && forall r | r in m :: HasRoom([], r)
    ensures Fitting(parts)
  {
    forall p, s | 0 <= p < |parts| && 0 <= s < |parts[p]|
      ensures HasRoom([], parts[p][s])
    {
      FlatPrefix(parts, p);
      assert parts[p][s] in Flat(parts);
      assert parts[p][s] in multiset(Flat(parts));
    }
  }

  ghost predicate Fitting(parts: seq<seq<Row>>) {
    forall p, s | 0 <= p < |parts| && 0 <= s < |parts[p]| :: HasRoom([], parts[p][s])
  }

  /** The sort keys of the rows, page by page. */
  ghost predicate FieldsOf(fields: seq<seq<int>>, parts: seq<seq<Row>>) {
    && |fields| == |parts|
    && (forall p | 0 <= p < |fields| :: |fields[p]| == |parts[p]|)
    && (forall p, s | 0 <= p < |fields| && 0 <= s < |fields[p]| :: fields[p][s] == parts[p][s].key)
  }

  predicate Ahead(asc: bool, a: int, b: int) {
    if asc then a < b else a > b
  }

  lemma {:induction false} VolumePush(rows: seq<Row>, r: Row)
    ensures Volume(rows + [r]) == Volume(rows) + SP.SLOT_SIZE + SP.Padded(r.size)
  {
    assert (rows + [r])[..|rows|] == rows;
  }

  lemma {:induction false} OnePageRun(pages: map<int, SortPage>, id: int, rows: seq<Row>)
    requires id in pages && pages[id] == SortPage(rows, -1) && rows != [] && id != -1
    ensures Chain(pages, [id]) && RowsOf(pages, [id]) == rows
  {
    var parts := Parts(pages, [id]);
    assert parts[..0] == [] && Flat(parts[..0]) == [];
    assert [] + rows == rows;
  }
}
