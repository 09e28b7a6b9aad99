/** Sorted runs on chains of pages: rows, pages, cursors over a chain and the merging of two runs. */
module SortModel {
  import opened Basics
  import SP = SlottedPages
  import TupleCodec

  /** A row by its sort key, the size of its serialized form, and the rest of it. */
  datatype Row = Row(key: int, size: nat, rest: int)

  /** The bytes that the rows and their slots take. */
  function Volume(rows: seq<Row>): nat {
    if rows == [] then 0 else Volume(rows[..|rows| - 1]) + SP.SLOT_SIZE + SP.Padded(rows[|rows| - 1].size)
  }

  /** There is room for one more row behind the given ones. */
  predicate HasRoom(rows: seq<Row>, r: Row) {
    HEADER_SIZE + Volume(rows) + SP.SLOT_SIZE + SP.Padded(r.size) <= PAGE_SIZE
  }

  /** That is the condition under which the slotted page takes a tuple of that size. */
  lemma {:induction false} RoomIsInsert(rows: seq<Row>, p: SP.Page, t: TupleCodec.Tuple, r: Row)
    requires |p.cells| == |rows| && forall i | 0 <= i < |rows| :: p.cells[i].room == SP.Padded(rows[i].size)
    requires r.size == TupleCodec.TupleSize(t)
    ensures SP.Insert(p, t).1 != -1 <==> HasRoom(rows, r)
  {
    FloorIsVolume(rows, p.cells);
  }

  lemma {:induction false} FloorIsVolume(rows: seq<Row>, cells: seq<SP.Cell>)
    requires |cells| == |rows| && forall i | 0 <= i < |rows| :: cells[i].room == SP.Padded(rows[i].size)
    ensures SP.Floor(cells) == PAGE_SIZE - Volume(rows) + SP.SLOT_SIZE * |rows|
  {
    if rows != [] {
      FloorIsVolume(rows[..|rows| - 1], cells[..|cells| - 1]);
    }
  }

  /** A page of a run; `next` is -1 at the end of the chain. */
  datatype SortPage = SortPage(rows: seq<Row>, next: int)

  // ---------------------------------------------------------------- order

  predicate Le(asc: bool, a: Row, b: Row) {
    if asc then a.key <= b.key else a.key >= b.key
  }

  ghost predicate Sorted(asc: bool, rows: seq<Row>) {
    forall i, j | 0 <= i < j < |rows| :: Le(asc, rows[i], rows[j])
  }

  /** Sorted rows have growing keys in ascending order, and falling keys in descending order. */
  lemma {:induction false} SortedKeys(asc: bool, rows: seq<Row>)
    ensures Sorted(asc, rows) <==>
              forall i, j | 0 <= i < j < |rows| ::
                if asc then rows[i].key <= rows[j].key else rows[j].key <= rows[i].key
  {
  }

  // ---------------------------------------------------------------- volume does not depend on order

  ghost function Sum(m: multiset<Row>): nat
    decreases |m|
  {
    if m == multiset{} then 0
    else
      var r :| r in m;
      SP.SLOT_SIZE + SP.Padded(r.size) + Sum(m - multiset{r})
  }

  lemma {:induction false} SumTake(m: multiset<Row>, r: Row)
    requires r in m
    ensures Sum(m) == SP.SLOT_SIZE + SP.Padded(r.size) + Sum(m - multiset{r})
    decreases |m|
  {
    hide SP.Padded;
    var c :| c in m && Sum(m) == SP.SLOT_SIZE + SP.Padded(c.size) + Sum(m - multiset{c});
    if c != r {
      SumTake(m - multiset{c}, r);
      SumTake(m - multiset{r}, c);
      assert m - multiset{c} - multiset{r} == m - multiset{r} - multiset{c};
    }
  }

  lemma {:induction false} VolumeIsSum(rows: seq<Row>)
    ensures Volume(rows) == Sum(multiset(rows))
  {
    hide SP.Padded;
    if rows != [] {
      var n := |rows| - 1;
      VolumeIsSum(rows[..n]);
      assert rows == rows[..n] + [rows[n]];
      SumTake(multiset(rows), rows[n]);
      assert multiset(rows) - multiset{rows[n]} == multiset(rows[..n]);
    }
  }

  /** A permutation of the rows of a page fits a page, one row after the other. */
  lemma {:induction false} PermutationFits(rows: seq<Row>, permuted: seq<Row>, k: nat)
    requires multiset(rows) == multiset(permuted) && HEADER_SIZE + Volume(rows) <= PAGE_SIZE && k < |permuted|
    ensures HasRoom(permuted[..k], permuted[k])
  {
    hide SP.Padded;
    VolumeIsSum(rows);
    VolumeIsSum(permuted);
    VolumePrefix(permuted, k + 1);
    assert permuted[..k + 1][..k] == permuted[..k];
  }

  lemma {:induction false} VolumePrefix(rows: seq<Row>, k: nat)
    requires k <= |rows|
    ensures Volume(rows[..k]) <= Volume(rows)
    decreases |rows|
  {
    hide SP.Padded;
    if k < |rows| {
      var shorter := rows[..|rows| - 1];
      VolumePrefix(shorter, k);
      assert shorter[..k] == rows[..k];
    } else {
      assert rows[..k] == rows;
    }
  }

  // ---------------------------------------------------------------- rows of a chain

  function Flat<T>(parts: seq<seq<T>>): seq<T> {
    if parts == [] then [] else Flat(parts[..|parts| - 1]) + parts[|parts| - 1]
  }

  ghost function Parts(pages: map<int, SortPage>, ids: seq<int>): (r: seq<seq<Row>>)
    requires forall i | 0 <= i < |ids| :: ids[i] in pages
    ensures |r| == |ids| && forall i | 0 <= i < |ids| :: r[i] == pages[ids[i]].rows
  {
    seq(|ids|, i requires 0 <= i < |ids| => pages[ids[i]].rows)
  }

  /** The pages `ids` follow one another, the last one ends the chain, and none is empty. */
  ghost predicate Chain(pages: map<int, SortPage>, ids: seq<int>) {
    && ids != []
    && (forall i | 0 <= i < |ids| :: ids[i] in pages && ids[i] != -1)
    && (forall i | 0 <= i < |ids| :: pages[ids[i]].next == if i + 1 < |ids| then ids[i + 1] else -1)
    && (forall i | 0 <= i < |ids| :: pages[ids[i]].rows != [])
  }

  ghost function RowsOf(pages: map<int, SortPage>, ids: seq<int>): seq<Row>
    requires forall i | 0 <= i < |ids| :: ids[i] in pages
  {
    Flat(Parts(pages, ids))
  }

  lemma {:induction false} ChainSame(pages: map<int, SortPage>, pages': map<int, SortPage>, ids: seq<int>)
    requires Chain(pages, ids)
    requires forall i | 0 <= i < |ids| :: ids[i] in pages' && pages'[ids[i]] == pages[ids[i]]
    ensures Chain(pages', ids) && RowsOf(pages', ids) == RowsOf(pages, ids)
  {
    assert Parts(pages', ids) == Parts(pages, ids);
  }

  lemma {:induction false} FlatGrow<T>(parts: seq<seq<T>>, x: T)
    requires parts != []
    ensures var n := |parts| - 1; Flat(parts[n := parts[n] + [x]]) == Flat(parts) + [x]
  {
    var n := |parts| - 1;
    var grown := parts[n := parts[n] + [x]];
    assert grown[..n] == parts[..n];
    assert Flat(parts[..n]) + (parts[n] + [x]) == Flat(parts[..n]) + parts[n] + [x];
  }

  lemma {:induction false} FlatPush<T>(parts: seq<seq<T>>, part: seq<T>)
    ensures Flat(parts + [part]) == Flat(parts) + part
  {
    assert (parts + [part])[..|parts|] == parts;
  }

  // ---------------------------------------------------------------- a cursor over the parts

  /** Slot `s` of part `p` is the i-th element; behind the last one the cursor is at slot 0 of no part. */
  ghost predicate Cursor<T>(parts: seq<seq<T>>, p: nat, s: nat, i: nat) {
    && p <= |parts| && i == |Flat(parts[..p])| + s
    && (if p < |parts| then s < |parts[p]| else s == 0)
  }

  lemma {:induction false} FlatPrefix<T>(parts: seq<seq<T>>, p: nat)
    requires p < |parts|
    ensures |Flat(parts[..p + 1])| == |Flat(parts[..p])| + |parts[p]|
    ensures Flat(parts[..p + 1]) <= Flat(parts)
    ensures forall s | 0 <= s < |parts[p]| :: Flat(parts[..p + 1])[|Flat(parts[..p])| + s] == parts[p][s]
    decreases |parts|
  {
    assert parts[..p + 1][..p] == parts[..p];
    if p + 1 < |parts| {
      var shorter := parts[..|parts| - 1];
      FlatPrefix(shorter, p);
      assert shorter[..p + 1] == parts[..p + 1] && shorter[..p] == parts[..p];
    } else {
      assert parts[..p + 1] == parts;
    }
  }

  /** A cursor that is not at the end stands at an element of the whole. */
  lemma {:induction false} CursorAt<T>(parts: seq<seq<T>>, p: nat, s: nat, i: nat)
    requires Cursor(parts, p, s, i)
    ensures p < |parts| ==> i < |Flat(parts)| && Flat(parts)[i] == parts[p][s]
    ensures p == |parts| ==> i == |Flat(parts)|
  {
    if p < |parts| { FlatPrefix(parts, p); } else { assert parts[..p] == parts; }
  }

  /** Stepping to the next slot, or to the first slot of the next part, moves one element on. */
  lemma {:induction false} CursorNext<T>(parts: seq<seq<T>>, p: nat, s: nat, i: nat)
    requires Cursor(parts, p, s, i) && p < |parts| && forall q | 0 <= q < |parts| :: parts[q] != []
    ensures if s + 1 >= |parts[p]| then Cursor(parts, p + 1, 0, i + 1) else Cursor(parts, p, s + 1, i + 1)
  {
    FlatPrefix(parts, p);
  }

  // ---------------------------------------------------------------- merging

  /** `out` is the merge of the first i rows of `a` and the first j rows of `b`. */
  ghost predicate Merging(asc: bool, a: seq<Row>, b: seq<Row>, i: nat, j: nat, out: seq<Row>) {
    && i <= |a| && j <= |b| && Sorted(asc, a) && Sorted(asc, b) && Sorted(asc, out)
    && multiset(out) == multiset(a[..i]) + multiset(b[..j])
    && (i < |a| ==> forall k | 0 <= k < |out| :: Le(asc, out[k], a[i]))
    && (j < |b| ==> forall k | 0 <= k < |out| :: Le(asc, out[k], b[j]))
  }

  lemma {:induction false} TakeLeft(asc: bool, a: seq<Row>, b: seq<Row>, i: nat, j: nat, out: seq<Row>)
    requires Merging(asc, a, b, i, j, out) && i < |a| && (j < |b| ==> Le(asc, a[i], b[j]))
    ensures Merging(asc, a, b, i + 1, j, out + [a[i]])
  {
    assert a[..i + 1] == a[..i] + [a[i]];
  }

  lemma {:induction false} TakeRight(asc: bool, a: seq<Row>, b: seq<Row>, i: nat, j: nat, out: seq<Row>)
    requires Merging(asc, a, b, i, j, out) && j < |b| && (i < |a| ==> Le(asc, b[j], a[i]))
    ensures Merging(asc, a, b, i, j + 1, out + [b[j]])
  {
    assert b[..j + 1] == b[..j] + [b[j]];
  }

  lemma {:induction false} MergedAll(asc: bool, a: seq<Row>, b: seq<Row>, out: seq<Row>)
    requires Merging(asc, a, b, |a|, |b|, out)
    ensures Sorted(asc, out) && multiset(out) == multiset(a) + multiset(b)
  {
    assert a[..|a|] == a && b[..|b|] == b;
  }
}
