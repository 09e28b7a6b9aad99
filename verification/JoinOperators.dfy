/** The join operators as machines that return one row per call. */
module JoinOperators {
  import opened Basics
  import opened TupleCodec
  import opened Streams
  import opened JoinModel

  // ---------------------------------------------------------------- nested loops

  class NestedLoopJoin {
    const outer: Source<Row>
    const inner: Source<Row>
    const cond: Row -> bool
    const left: bool
    const width: nat
    var hasInner: bool
    var outerRow: Row
    var matches: int

    ghost predicate Valid()
      reads this, outer, inner
    {
      && outer != inner && outer.Valid() && inner.Valid() && width > 0
      && (forall i | 0 <= i < |outer.rows| :: outer.rows[i] != [])
      && (forall i | 0 <= i < |inner.rows| :: inner.rows[i] != [])
      && ((hasInner || matches == 0) ==> outerRow != []) && (hasInner ==> matches >= 0)
    }

    /** The rows that are still to be returned. */
    ghost function Remaining(): seq<Row>
      reads this, outer, inner
      requires Valid()
    {
      Here() + NestedLoop(cond, left, width, outer.rows[outer.position..], inner.rows)
    }

    /** Those of the current outer row. */
    ghost function Here(): seq<Row>
      reads this, outer, inner
      requires Valid()
    {
      var rest := if hasInner then Matches(cond, outerRow, inner.rows[inner.position..]) else [];
      if left && matches == 0 && rest == [] then [outerRow + NullRow(width)] else rest
    }

    constructor (outer: Source<Row>, inner: Source<Row>, cond: Row -> bool, left: bool, width: nat)
      requires outer != inner && outer.Valid() && inner.Valid() && outer.position == 0 && width > 0
      requires forall i | 0 <= i < |outer.rows| :: outer.rows[i] != []
      requires forall i | 0 <= i < |inner.rows| :: inner.rows[i] != []
      ensures Valid() && Remaining() == NestedLoop(cond, left, width, outer.rows, inner.rows)
    {
      this.outer, this.inner, this.cond, this.left, this.width := outer, inner, cond, left, width;
      hasInner, outerRow, matches := false, [], -1;
      new;
      assert outer.rows[0..] == outer.rows;
    }

    /** The next joined row. */
    method GetNext() returns (row: Option<Row>)
      requires Valid()
      modifies this, outer, inner
      ensures Valid()
      ensures var rest := old(Remaining());
              if rest == [] then row == None && Remaining() == [] else row == Some(rest[0]) && Remaining() == rest[1..]
    {
      hide Matches, NestedLoop, NullRow;
      while true
        invariant Valid() && Remaining() == old(Remaining())
        decreases |outer.rows| - outer.position, hasInner
      {
        if !hasInner {
          if matches == 0 && left {
            matches := -1;
            return Some(outerRow + NullRow(width));
          }
          var more := NextOuter();
          if !more {
            return None;
          }
        }
        row := NextMatch();
        if row != None {
          return;
        }
      }
    }

    /** Starts on the next outer row. */
    method NextOuter() returns (more: bool)
      requires Valid() && !hasInner && !(left && matches == 0)
      modifies this, outer, inner
      ensures Valid() && more == (old(outer.position) < |outer.rows|) && Remaining() == old(Remaining())
      ensures if more then hasInner && outer.position == old(outer.position) + 1 else Remaining() == []
    {
      hide Matches, NullRow;
      ghost var p := outer.position;
      var next := outer.GetNext();
      if next == None {
        return false;
      }
      outerRow := next.value;
      inner.Open();
      hasInner, matches := true, 0;
      more := true;
      assert outer.rows[p..][1..] == outer.rows[p + 1..];
      assert inner.rows[0..] == inner.rows;
    }

    /** The next match of the current outer row, if there is one. */
    method NextMatch() returns (row: Option<Row>)
      requires Valid() && hasInner
      modifies this`hasInner, this`matches, inner
      ensures Valid()
      ensures row == None ==> !hasInner && Remaining() == old(Remaining())
      ensures row != None ==>
                old(Remaining()) != [] && row == Some(old(Remaining()[0])) && Remaining() == old(Remaining()[1..])
    {
      hide NestedLoop, NullRow, Matches;
      ghost var here, later := Here(), NestedLoop(cond, left, width, outer.rows[outer.position..], inner.rows);
      var next := ReadInner();
      while next != None
        invariant Valid() && hasInner == (next != None) && here == AfterRead(next)
        decreases |inner.rows| - inner.position, next != None
      {
        if cond(outerRow + next.value) {
          row := Some(outerRow + next.value);
          CountMatch(next.value);
          assert Here() + later == (here + later)[1..];
          return;
        }
        PassOver(next.value);
        next := ReadInner();
      }
      row := None;
    }

    method CountMatch(i: Row)
      requires Valid() && hasInner && cond(outerRow + i)
      modifies this`matches
      ensures Valid() && old(AfterRead(Some(i))) == [outerRow + i] + Here()
    {
      matches := matches + 1;
    }

    lemma PassOver(i: Row)
      requires Valid() && hasInner && !cond(outerRow + i)
      ensures AfterRead(Some(i)) == Here()
    {
    }

    /** What is left of the current outer row when the inner row was just read. */
    ghost function AfterRead(next: Option<Row>): seq<Row>
      reads this, outer, inner
      requires Valid()
    {
      var ms := (if next != None && cond(outerRow + next.value) then [outerRow + next.value] else [])
                + (if hasInner then Matches(cond, outerRow, inner.rows[inner.position..]) else []);
      if left && matches == 0 && ms == [] then [outerRow + NullRow(width)] else ms
    }

    method ReadInner() returns (next: Option<Row>)
      requires Valid() && hasInner
      modifies this`hasInner, inner
      ensures Valid() && hasInner == (next != None) && AfterRead(next) == old(Here())
      ensures next != None ==> inner.position == old(inner.position) + 1
      ensures next == None ==> inner.position == old(inner.position)
    {
      hide NullRow;
      ghost var p := inner.position;
      next := inner.GetNext();
      hasInner := next != None;
      if next != None {
        assert inner.rows[p..][1..] == inner.rows[p + 1..];
      } else {
        assert inner.rows[p..] == [];
      }
    }
  }

  // ---------------------------------------------------------------- hash join

  /** The map holds the outer rows by key. */
  ghost predicate Built(m: map<Field, seq<Row>>, oc: nat, outer: seq<Row>)
    requires Wide(outer, oc)
  {
    forall k :: Bucket(oc, outer, k) == if k in m then m[k] else []
  }

  lemma BuiltNone(oc: nat, outer: seq<Row>)
    requires Wide(outer, oc)
    ensures Built(map[], oc, outer[..0])
  {
  }

  lemma BuiltPush(m: map<Field, seq<Row>>, oc: nat, outer: seq<Row>, n: nat)
    requires Wide(outer, oc) && n < |outer| && Built(m, oc, outer[..n])
    ensures var k := outer[n][oc]; Built(m[k := (if k in m then m[k] else []) + [outer[n]]], oc, outer[..n + 1])
  {
    assert outer[..n + 1][..n] == outer[..n];
  }

  class HashJoinOperator {
    const outer: Source<Row>
    const inner: Source<Row>
    const oc: nat
    const ic: nat
    var isBuilt: bool
    var hashMap: map<Field, seq<Row>>
    var tupleIndex: nat
    var innerRow: Row
    /** The end was reported. */
    ghost var ended: bool

    ghost predicate Valid()
      reads this, outer, inner
    {
      && outer != inner && outer.Valid() && inner.Valid() && Wide(outer.rows, oc) && Wide(inner.rows, ic)
      && if isBuilt then Built(hashMap, oc, outer.rows) && (!ended ==> ic < |innerRow|)
         else !ended && hashMap == map[] && outer.position == 0 && inner.position == 0 && tupleIndex == 0
    }

    ghost function Remaining(): seq<Row>
      reads this, outer, inner
      requires Valid()
    {
      if ended then []
      else if !isBuilt then HashJoin(oc, ic, outer.rows, inner.rows)
      else Probe(Bucket(oc, outer.rows, innerRow[ic]), tupleIndex, innerRow)
           + HashJoin(oc, ic, outer.rows, inner.rows[inner.position..])
    }

    constructor (outer: Source<Row>, inner: Source<Row>, oc: nat, ic: nat)
      requires outer != inner && outer.Valid() && inner.Valid() && outer.position == inner.position == 0
      requires Wide(outer.rows, oc) && Wide(inner.rows, ic)
      ensures Valid() && !ended && Remaining() == HashJoin(oc, ic, outer.rows, inner.rows)
    {
      this.outer, this.inner, this.oc, this.ic := outer, inner, oc, ic;
      isBuilt, hashMap, tupleIndex, innerRow, ended := false, map[], 0, [], false;
    }

    method GetNext() returns (row: Option<Row>)
      requires Valid() && !ended
      modifies this, outer, inner
      ensures Valid() && (ended <==> row == None)
      ensures var rest := old(Remaining());
              if rest == [] then row == None && Remaining() == [] else row == Some(rest[0]) && Remaining() == rest[1..]
    {
      hide Built, Probe, HashJoin, Bucket;
      if !isBuilt {
        Build();
        var more := NextInner();
        if !more {
          return None;
        }
      }
      while true
        invariant Valid() && isBuilt && !ended && Remaining() == old(Remaining())
        decreases |inner.rows| - inner.position
      {
        row := ProbeOne();
        if row != None {
          return;
        }
        tupleIndex := 0;
        var more := NextInner();
        if !more {
          return None;
        }
      }
    }

    /** Puts all outer rows into the map. */
    method Build()
      requires Valid() && !isBuilt
      modifies this`hashMap, this`isBuilt, this`ended, outer
      ensures isBuilt && outer.Valid() && Built(hashMap, oc, outer.rows) && ended
    {
      hide Built, Bucket;
      BuiltNone(oc, outer.rows);
      var next := outer.GetNext();
      while next != None
        invariant outer.Valid() && Wide(outer.rows, oc)
        invariant next != None ==> outer.position > 0 && next == Some(outer.rows[outer.position - 1])
        invariant next == None ==> outer.position == |outer.rows|
        invariant Built(hashMap, oc, outer.rows[..if next == None then outer.position else outer.position - 1])
        decreases |outer.rows| - outer.position, next != None
      {
        var k := next.value[oc];
        ghost var n := outer.position - 1;
        BuiltPush(hashMap, oc, outer.rows, n);
        hashMap := hashMap[k := (if k in hashMap then hashMap[k] else []) + [next.value]];
        next := outer.GetNext();
      }
      assert outer.rows[..|outer.rows|] == outer.rows;
      isBuilt, ended := true, true;
    }

    /** Takes the next inner row. */
    method NextInner() returns (more: bool)
      requires Valid() && isBuilt && tupleIndex == 0
      modifies this`innerRow, this`ended, inner
      ensures Valid() && more == !ended
                && Remaining() == HashJoin(oc, ic, outer.rows, inner.rows[old(inner.position)..])
      ensures more ==> inner.position == old(inner.position) + 1
    {
      hide Built, Probe, Bucket;
      ghost var p := inner.position;
      var next := inner.GetNext();
      if next == None {
        ended := true;
        return false;
      }
      innerRow := next.value;
      ended := false;
      more := true;
      assert inner.rows[p..][1..] == inner.rows[p + 1..];
    }

    /** The next row of the bucket of the current inner row. */
    method ProbeOne() returns (row: Option<Row>)
      requires Valid() && isBuilt && !ended
      modifies this`tupleIndex
      ensures Valid()
      ensures row == None ==>
                Remaining() == old(Remaining()) == HashJoin(oc, ic, outer.rows, inner.rows[inner.position..])
      ensures row != None ==>
                old(Remaining()) != [] && row == Some(old(Remaining()[0])) && Remaining() == old(Remaining()[1..])
    {
      hide HashJoin, Bucket;
      var k := innerRow[ic];
      if k in hashMap && tupleIndex < |hashMap[k]| {
        row := Some(hashMap[k][tupleIndex] + innerRow);
        tupleIndex := tupleIndex + 1;
        return;
      }
      row := None;
    }
  }

  // ---------------------------------------------------------------- index join

  class IndexedNestedLoopJoin {
    const outer: Source<Row>
    const index: Field -> seq<int>
    const table: map<int, Row>
    const oc: nat
    var matches: seq<int>
    var outerRow: Row

    ghost predicate Valid()
      reads this, outer
    {
      && outer.Valid() && Wide(outer.rows, oc) && (forall k, i | 0 <= i < |index(k)| :: index(k)[i] in table)
      && forall i | 0 <= i < |matches| :: matches[i] in table
    }

    ghost function Remaining(): seq<Row>
      reads this, outer
      requires Valid()
    {
      Popped(outerRow, table, matches) + IndexJoin(oc, index, table, outer.rows[outer.position..])
    }

    constructor (outer: Source<Row>, index: Field -> seq<int>, table: map<int, Row>, oc: nat)
      requires outer.Valid() && outer.position == 0 && Wide(outer.rows, oc)
      requires forall k, i | 0 <= i < |index(k)| :: index(k)[i] in table
      ensures Valid() && Remaining() == IndexJoin(oc, index, table, outer.rows)
    {
      this.outer, this.index, this.table, this.oc := outer, index, table, oc;
      matches, outerRow := [], [];
      new;
      assert outer.rows[0..] == outer.rows;
    }

    method GetNext() returns (row: Option<Row>)
      requires Valid()
      modifies this, outer
      ensures Valid()
      ensures var rest := old(Remaining());
              if rest == [] then row == None && Remaining() == [] else row == Some(rest[0]) && Remaining() == rest[1..]
    {
      while matches == []
        invariant Valid() && Remaining() == old(Remaining())
        decreases |outer.rows| - outer.position
      {
        ghost var p := outer.position;
        var next := outer.GetNext();
        if next == None {
          return None;
        }
        outerRow := next.value;
        matches := index(outerRow[oc]);
        assert outer.rows[p..][1..] == outer.rows[p + 1..];
      }
      var rid := matches[|matches| - 1];
      matches := matches[..|matches| - 1];
      row := Some(outerRow + table[rid]);
    }
  }
}
