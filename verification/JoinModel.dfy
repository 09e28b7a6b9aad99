/** What the join operators compute, and that they agree. */
module JoinModel {
  import opened TupleCodec

  type Row = seq<Field>

  /** The text that stands for a missing value: a string, not a null field. */
  function NullRow(width: nat): Row {
    seq(width, _ => StringField(['N' as int, 'U' as int, 'L' as int, 'L' as int]))
  }

  // ---------------------------------------------------------------- nested loops

  /** The inner rows that match an outer row, behind it. */
  function Matches(cond: Row -> bool, o: Row, inner: seq<Row>): seq<Row> {
    if inner == [] then []
    else (if cond(o + inner[0]) then [o + inner[0]] else []) + Matches(cond, o, inner[1..])
  }

  /** A left join adds an outer row without matches once. */
  function ForOuter(cond: Row -> bool, left: bool, width: nat, o: Row, inner: seq<Row>): seq<Row> {
    var ms := Matches(cond, o, inner);
    if left && ms == [] then [o + NullRow(width)] else ms
  }

  function NestedLoop(cond: Row -> bool, left: bool, width: nat, outer: seq<Row>, inner: seq<Row>): seq<Row> {
    if outer == [] then []
    else ForOuter(cond, left, width, outer[0], inner) + NestedLoop(cond, left, width, outer[1..], inner)
  }

  // ---------------------------------------------------------------- hash join

  /** The outer rows with a key, in order. */
  function Bucket(col: nat, outer: seq<Row>, k: Field): seq<Row>
    requires forall i | 0 <= i < |outer| :: col < |outer[i]|
  {
    if outer == [] then []
    else Bucket(col, outer[..|outer| - 1], k) + if outer[|outer| - 1][col] == k then [outer[|outer| - 1]] else []
  }

  /** The rows of a bucket from `j` on, each before the inner row. */
  function Probe(bucket: seq<Row>, j: nat, i: Row): seq<Row>
    decreases if j < |bucket| then |bucket| - j else 0
  {
    if j >= |bucket| then [] else [bucket[j] + i] + Probe(bucket, j + 1, i)
  }

  predicate Wide(rows: seq<Row>, col: nat) {
    forall i | 0 <= i < |rows| :: col < |rows[i]|
  }

  function HashJoin(oc: nat, ic: nat, outer: seq<Row>, inner: seq<Row>): seq<Row>
    requires Wide(outer, oc) && Wide(inner, ic)
  {
    if inner == [] then []
    else Probe(Bucket(oc, outer, inner[0][ic]), 0, inner[0]) + HashJoin(oc, ic, outer, inner[1..])
  }

  // ---------------------------------------------------------------- index join

  /** The rows of the found record ids, the last one first. */
  function Popped(o: Row, table: map<int, Row>, rids: seq<int>): seq<Row>
    requires forall i | 0 <= i < |rids| :: rids[i] in table
  {
    if rids == [] then []
    else [o + table[rids[|rids| - 1]]] + Popped(o, table, rids[..|rids| - 1])
  }

  /** The index finds, for every key, the record ids of the table's rows with that key, each once. */
  ghost predicate Agrees(index: Field -> seq<int>, table: map<int, Row>, inner: seq<Row>, ic: nat)
    requires Wide(inner, ic)
  {
    && (forall k, i | 0 <= i < |index(k)| :: index(k)[i] in table)
    && forall k :: RowsAt(table, index(k)) == multiset(WithKey(inner, ic, k))
  }

  ghost function RowsAt(table: map<int, Row>, rids: seq<int>): multiset<Row> {
    if rids == [] then multiset{}
    else
      RowsAt(table, rids[..|rids| - 1])
      + if rids[|rids| - 1] in table then multiset{table[rids[|rids| - 1]]} else multiset{}
  }

  ghost function WithKey(inner: seq<Row>, ic: nat, k: Field): seq<Row>
    requires Wide(inner, ic)
  {
    if inner == [] then [] else (if inner[0][ic] == k then [inner[0]] else []) + WithKey(inner[1..], ic, k)
  }

  function IndexJoin(oc: nat, index: Field -> seq<int>, table: map<int, Row>, outer: seq<Row>): seq<Row>
    requires Wide(outer, oc) && forall k, i | 0 <= i < |index(k)| :: index(k)[i] in table
  {
    if outer == [] then []
    else Popped(outer[0], table, index(outer[0][oc])) + IndexJoin(oc, index, table, outer[1..])
  }

  // ---------------------------------------------------------------- they agree

  /** The condition compares the two key columns. */
  ghost predicate OnKeys(cond: Row -> bool, oc: nat, ic: nat, outer: seq<Row>, inner: seq<Row>)
    requires Wide(outer, oc) && Wide(inner, ic)
  {
    forall a, b | 0 <= a < |outer| && 0 <= b < |inner| :: cond(outer[a] + inner[b]) <==> outer[a][oc] == inner[b][ic]
  }

  ghost function Before(o: Row, m: seq<Row>): multiset<Row> {
    if m == [] then multiset{} else multiset{o + m[0]} + Before(o, m[1..])
  }

  lemma {:induction false} MatchesAreWithKey(cond: Row -> bool, oc: nat, ic: nat, o: Row, inner: seq<Row>)
    requires oc < |o| && Wide(inner, ic)
    requires forall b | 0 <= b < |inner| :: cond(o + inner[b]) <==> o[oc] == inner[b][ic]
    ensures multiset(Matches(cond, o, inner)) == Before(o, WithKey(inner, ic, o[oc]))
  {
    if inner != [] {
      assert forall b | 0 <= b < |inner| - 1 :: inner[1..][b] == inner[b + 1];
      MatchesAreWithKey(cond, oc, ic, o, inner[1..]);
      var rest := WithKey(inner[1..], ic, o[oc]);
      if cond(o + inner[0]) {
        assert ([inner[0]] + rest)[1..] == rest;
        assert Matches(cond, o, inner) == [o + inner[0]] + Matches(cond, o, inner[1..]);
        assert WithKey(inner, ic, o[oc]) == [inner[0]] + rest;
      } else {
        assert Matches(cond, o, inner) == Matches(cond, o, inner[1..]);
        assert WithKey(inner, ic, o[oc]) == rest;
      }
    }
  }

  ghost function BeforeAll(o: Row, m: multiset<Row>): multiset<Row>
    decreases |m|
  {
    if m == multiset{} then multiset{}
    else
      var r :| r in m;
      multiset{o + r} + BeforeAll(o, m - multiset{r})
  }

  lemma BeforeAllPick(o: Row, m: multiset<Row>) returns (c: Row)
    requires m != multiset{}
    ensures c in m && BeforeAll(o, m) == multiset{o + c} + BeforeAll(o, m - multiset{c})
  {
    c :| c in m && BeforeAll(o, m) == multiset{o + c} + BeforeAll(o, m - multiset{c});
  }

  lemma {:induction false} BeforeAllTake(o: Row, m: multiset<Row>, r: Row)
    requires r in m
    ensures BeforeAll(o, m) == multiset{o + r} + BeforeAll(o, m - multiset{r})
    decreases |m|
  {
    hide BeforeAll;
    var c := BeforeAllPick(o, m);
    if c != r {
      BeforeAllTake(o, m - multiset{c}, r);
      BeforeAllTake(o, m - multiset{r}, c);
      assert m - multiset{c} - multiset{r} == m - multiset{r} - multiset{c};
    }
  }

  lemma {:induction false} BeforeIsAll(o: Row, s: seq<Row>)
    ensures Before(o, s) == BeforeAll(o, multiset(s))
  {
    if s != [] {
      BeforeIsAll(o, s[1..]);
      assert s == [s[0]] + s[1..];
      BeforeAllTake(o, multiset(s), s[0]);
      assert multiset(s) - multiset{s[0]} == multiset(s[1..]);
    }
  }

  lemma {:induction false} PoppedIsAll(o: Row, table: map<int, Row>, rids: seq<int>)
    requires forall i | 0 <= i < |rids| :: rids[i] in table
    ensures multiset(Popped(o, table, rids)) == BeforeAll(o, RowsAt(table, rids))
  {
    if rids != [] {
      var n := |rids| - 1;
      PoppedIsAll(o, table, rids[..n]);
      BeforeAllTake(o, RowsAt(table, rids), table[rids[n]]);
      assert RowsAt(table, rids) - multiset{table[rids[n]]} == RowsAt(table, rids[..n]);
    }
  }

  /** The index join returns the rows of the nested loop join. */
  lemma {:induction false} IndexJoinAgrees(cond: Row -> bool, oc: nat, ic: nat, index: Field -> seq<int>,
                                           table: map<int, Row>, outer: seq<Row>, inner: seq<Row>, width: nat)
    requires Wide(outer, oc) && Wide(inner, ic) && OnKeys(cond, oc, ic, outer, inner)
    requires Agrees(index, table, inner, ic)
    ensures multiset(IndexJoin(oc, index, table, outer)) == multiset(NestedLoop(cond, false, width, outer, inner))
  {
    if outer != [] {
      var o := outer[0];
      assert OnKeys(cond, oc, ic, outer[1..], inner) by {
        assert forall a | 0 <= a < |outer| - 1 :: outer[1..][a] == outer[a + 1];
      }
      IndexJoinAgrees(cond, oc, ic, index, table, outer[1..], inner, width);
      MatchesAreWithKey(cond, oc, ic, o, inner);
      BeforeIsAll(o, WithKey(inner, ic, o[oc]));
      PoppedIsAll(o, table, index(o[oc]));
    }
  }

  /** An inner row more in the nested loop join adds its pairs. */
  lemma {:induction false} NestedLoopInner(cond: Row -> bool, oc: nat, ic: nat, outer: seq<Row>, i: Row,
      inner: seq<Row>, width: nat)
    requires Wide(outer, oc) && ic < |i|
    requires forall a | 0 <= a < |outer| :: cond(outer[a] + i) <==> outer[a][oc] == i[ic]
    ensures multiset(NestedLoop(cond, false, width, outer, [i] + inner))
         == multiset(NestedLoop(cond, false, width, outer, inner)) + multiset(Probe(Bucket(oc, outer, i[ic]), 0, i))
    decreases |outer|
  {
    if outer != [] {
      var n := |outer| - 1;
      NestedLoopInner(cond, oc, ic, outer[..n], i, inner, width);
      NestedLoopInnerLast(cond, oc, ic, outer, i, inner, width);
    }
  }

  lemma {:induction false} NestedLoopInnerLast(cond: Row -> bool, oc: nat, ic: nat, outer: seq<Row>, i: Row,
      inner: seq<Row>, width: nat)
    requires outer != [] && Wide(outer, oc) && ic < |i|
    requires cond(outer[|outer| - 1] + i) <==> outer[|outer| - 1][oc] == i[ic]
    requires var front := outer[..|outer| - 1];
             multiset(NestedLoop(cond, false, width, front, [i] + inner))
             == multiset(NestedLoop(cond, false, width, front, inner)) + multiset(Probe(Bucket(oc, front, i[ic]), 0, i))
    ensures multiset(NestedLoop(cond, false, width, outer, [i] + inner))
         == multiset(NestedLoop(cond, false, width, outer, inner)) + multiset(Probe(Bucket(oc, outer, i[ic]), 0, i))
  {
    var n := |outer| - 1;
    MatchesFirst(cond, outer[n], i, inner);
    NestedLoopLast(cond, outer, inner, width);
    NestedLoopLast(cond, outer, [i] + inner, width);
    BucketLast(oc, outer, i[ic]);
    hide NestedLoop, Matches, Probe, Bucket;
    var b := Bucket(oc, outer[..n], i[ic]);
    var here := if cond(outer[n] + i) then [outer[n] + i] else [];
    ProbeLast(b, 0, outer[n], i);
    assert b + [] == b && Probe(b, 0, i) + [] == Probe(b, 0, i);
    Rearrange(NestedLoop(cond, false, width, outer[..n], [i] + inner),
              NestedLoop(cond, false, width, outer[..n], inner),
              Probe(b, 0, i), here, Matches(cond, outer[n], inner));
  }

  lemma Rearrange(x: seq<Row>, y: seq<Row>, p: seq<Row>, h: seq<Row>, m: seq<Row>)
    requires multiset(x) == multiset(y) + multiset(p)
    ensures multiset(x + (h + m)) == multiset(y + m) + multiset(p + h)
  {
  }

  lemma MatchesFirst(cond: Row -> bool, o: Row, i: Row, inner: seq<Row>)
    ensures Matches(cond, o, [i] + inner) == (if cond(o + i) then [o + i] else []) + Matches(cond, o, inner)
  {
    assert ([i] + inner)[1..] == inner;
  }

  lemma BucketLast(col: nat, outer: seq<Row>, k: Field)
    requires Wide(outer, col) && outer != []
    ensures var n := |outer| - 1;
            Bucket(col, outer, k) == Bucket(col, outer[..n], k) + if outer[n][col] == k then [outer[n]] else []
  {
  }

  lemma {:induction false} NestedLoopLast(cond: Row -> bool, outer: seq<Row>, inner: seq<Row>, width: nat)
    requires outer != []
    ensures NestedLoop(cond, false, width, outer, inner)
         == NestedLoop(cond, false, width, outer[..|outer| - 1], inner) + Matches(cond, outer[|outer| - 1], inner)
  {
    var n := |outer| - 1;
    if n > 0 {
      NestedLoopLast(cond, outer[1..], inner, width);
      assert outer[1..][..n - 1] == outer[..n][1..];
    }
  }

  lemma {:induction false} ProbeLast(bucket: seq<Row>, j: nat, o: Row, i: Row)
    requires j <= |bucket|
    ensures Probe(bucket + [o], j, i) == Probe(bucket, j, i) + [o + i]
    decreases |bucket| - j
  {
    if j < |bucket| { ProbeLast(bucket, j + 1, o, i); }
  }

  lemma {:induction false} NestedLoopNoInner(cond: Row -> bool, outer: seq<Row>, width: nat)
    ensures NestedLoop(cond, false, width, outer, []) == []
  {
    if outer != [] { NestedLoopNoInner(cond, outer[1..], width); }
  }

  /** The hash join returns the rows of the nested loop join. */
  lemma {:induction false} HashJoinAgrees(cond: Row -> bool, oc: nat, ic: nat, outer: seq<Row>, inner: seq<Row>,
      width: nat)
    requires Wide(outer, oc) && Wide(inner, ic) && OnKeys(cond, oc, ic, outer, inner)
    ensures multiset(HashJoin(oc, ic, outer, inner)) == multiset(NestedLoop(cond, false, width, outer, inner))
    decreases |inner|
  {
    if inner == [] {
      NestedLoopNoInner(cond, outer, width);
    } else {
      assert OnKeys(cond, oc, ic, outer, inner[1..]) by {
        assert forall b | 0 <= b < |inner| - 1 :: inner[1..][b] == inner[b + 1];
      }
      HashJoinAgrees(cond, oc, ic, outer, inner[1..], width);
      NestedLoopInner(cond, oc, ic, outer, inner[0], inner[1..], width);
      assert [inner[0]] + inner[1..] == inner;
    }
  }

  /** The outer rows without a match. */
  function Unmatched(cond: Row -> bool, outer: seq<Row>, inner: seq<Row>): seq<Row> {
    if outer == [] then []
    else (if Matches(cond, outer[0], inner) == [] then [outer[0]] else []) + Unmatched(cond, outer[1..], inner)
  }

  function Padded(width: nat, rows: seq<Row>): (r: seq<Row>)
    ensures |r| == |rows| && forall i | 0 <= i < |rows| :: r[i] == rows[i] + NullRow(width)
  {
    seq(|rows|, i requires 0 <= i < |rows| => rows[i] + NullRow(width))
  }

  /** The left join is the inner join and each unmatched outer row once. */
  lemma {:induction false} LeftJoinAdds(cond: Row -> bool, width: nat, outer: seq<Row>, inner: seq<Row>)
    ensures multiset(NestedLoop(cond, true, width, outer, inner))
         == multiset(NestedLoop(cond, false, width, outer, inner))
             + multiset(Padded(width, Unmatched(cond, outer, inner)))
  {
    if outer != [] {
      LeftJoinAdds(cond, width, outer[1..], inner);
      LeftJoinStep(cond, width, outer, inner);
    }
  }

  lemma {:induction false} LeftJoinStep(cond: Row -> bool, width: nat, outer: seq<Row>, inner: seq<Row>)
    requires outer != []
    requires multiset(NestedLoop(cond, true, width, outer[1..], inner))
          == multiset(NestedLoop(cond, false, width, outer[1..], inner))
              + multiset(Padded(width, Unmatched(cond, outer[1..], inner)))
    ensures multiset(NestedLoop(cond, true, width, outer, inner))
         == multiset(NestedLoop(cond, false, width, outer, inner))
             + multiset(Padded(width, Unmatched(cond, outer, inner)))
  {
    hide Matches, NullRow, NestedLoop, Unmatched;
    var o, more := outer[0], outer[1..];
    var rest := Unmatched(cond, more, inner);
    NestedLoopHead(cond, true, width, outer, inner);
    NestedLoopHead(cond, false, width, outer, inner);
    UnmatchedHead(cond, outer, inner);
    var x, y := NestedLoop(cond, true, width, more, inner), NestedLoop(cond, false, width, more, inner);
    if Matches(cond, o, inner) == [] {
      assert Padded(width, [o] + rest) == [o + NullRow(width)] + Padded(width, rest);
      assert [] + y == y;
      assert multiset([o + NullRow(width)] + x) == multiset{o + NullRow(width)} + multiset(x);
    } else {
      assert multiset(Matches(cond, o, inner) + x) == multiset(Matches(cond, o, inner)) + multiset(x);
    }
  }

  lemma NestedLoopHead(cond: Row -> bool, left: bool, width: nat, outer: seq<Row>, inner: seq<Row>)
    requires outer != []
    ensures NestedLoop(cond, left, width, outer, inner)
         == ForOuter(cond, left, width, outer[0], inner) + NestedLoop(cond, left, width, outer[1..], inner)
  {
  }

  lemma UnmatchedHead(cond: Row -> bool, outer: seq<Row>, inner: seq<Row>)
    requires outer != []
    ensures Unmatched(cond, outer, inner)
         == if Matches(cond, outer[0], inner) == [] then [outer[0]] + Unmatched(cond, outer[1..], inner)
            else Unmatched(cond, outer[1..], inner)
  {
  }

  // ---------------------------------------------------------------- the rows of a join, one by one

  /** The positions of an outer and an inner row. */
  datatype Pair = Pair(o: nat, i: nat)

  predicate Earlier(a: Pair, b: Pair) {
    a.o < b.o || (a.o == b.o && a.i < b.i)
  }

  /** The joined rows of exactly the pairs that meet the condition, each once, outer row by outer row. */
  ghost predicate Joins(cond: Row -> bool, outer: seq<Row>, inner: seq<Row>, rows: seq<Row>, ps: seq<Pair>) {
    && |rows| == |ps|
    && (forall x | 0 <= x < |ps| ::
          ps[x].o < |outer| && ps[x].i < |inner| && rows[x] == outer[ps[x].o] + inner[ps[x].i])
    && (forall x, y | 0 <= x < y < |ps| :: Earlier(ps[x], ps[y]))
    && forall o: nat, i: nat | o < |outer| && i < |inner| :: Pair(o, i) in ps <==> cond(outer[o] + inner[i])
  }

  lemma {:induction false} MatchesLast(cond: Row -> bool, o: Row, inner: seq<Row>)
    requires inner != []
    ensures var n := |inner| - 1;
            Matches(cond, o, inner) == Matches(cond, o, inner[..n]) + if cond(o + inner[n]) then [o + inner[n]] else []
  {
    hide Matches;
    var n := |inner| - 1;
    MatchesHead(cond, o, inner);
    if n > 0 {
      var front := if cond(o + inner[0]) then [o + inner[0]] else [];
      var last := if cond(o + inner[n]) then [o + inner[n]] else [];
      MatchesHead(cond, o, inner[..n]);
      assert inner[1..][..n - 1] == inner[..n][1..];
      MatchesLast(cond, o, inner[1..]);
      assert front + (Matches(cond, o, inner[..n][1..]) + last) == (front + Matches(cond, o, inner[..n][1..])) + last;
    } else {
      assert inner[1..] == [] && inner[..0] == [];
      MatchesNone(cond, o);
    }
  }

  lemma MatchesHead(cond: Row -> bool, o: Row, inner: seq<Row>)
    requires inner != []
    ensures Matches(cond, o, inner)
         == (if cond(o + inner[0]) then [o + inner[0]] else []) + Matches(cond, o, inner[1..])
  {
  }

  lemma MatchesNone(cond: Row -> bool, o: Row)
    ensures Matches(cond, o, []) == []
  {
  }

  /** The join so far, and the n-th outer row with the first m inner ones. */
  ghost predicate JoinsUpTo(cond: Row -> bool, outer: seq<Row>, inner: seq<Row>, n: nat, m: nat, rows: seq<Row>,
                            ps: seq<Pair>)
    requires n < |outer| && m <= |inner|
  {
    && |rows| == |ps|
    && (forall x | 0 <= x < |ps| ::
          && (ps[x].o < n || (ps[x].o == n && ps[x].i < m)) && ps[x].i < |inner|
          && rows[x] == outer[ps[x].o] + inner[ps[x].i])
    && (forall x, y | 0 <= x < y < |ps| :: Earlier(ps[x], ps[y]))
    && forall o: nat, i: nat | (o < n && i < |inner|) || (o == n && i < m) ::
         Pair(o, i) in ps <==> cond(outer[o] + inner[i])
  }

  lemma JoinsMore(cond: Row -> bool, outer: seq<Row>, inner: seq<Row>, n: nat, m: nat, rows: seq<Row>, ps: seq<Pair>)
    requires n < |outer| && m < |inner| && JoinsUpTo(cond, outer, inner, n, m, rows, ps)
    ensures var row := outer[n] + inner[m];
            if cond(row) then JoinsUpTo(cond, outer, inner, n, m + 1, rows + [row], ps + [Pair(n, m)])
            else JoinsUpTo(cond, outer, inner, n, m + 1, rows + [], ps)
  {
    var ps' := ps + [Pair(n, m)];
    assert ps'[|ps|] == Pair(n, m) && Pair(n, m) !in ps;
    assert forall p | p != Pair(n, m) :: p in ps' <==> p in ps;
  }

  lemma {:induction false} JoinsRow(cond: Row -> bool, outer: seq<Row>, inner: seq<Row>, n: nat, m: nat, rows: seq<Row>,
                                    ps: seq<Pair>)
      returns (ps': seq<Pair>)
    requires n < |outer| && m <= |inner| && JoinsUpTo(cond, outer, inner, n, 0, rows, ps)
    ensures JoinsUpTo(cond, outer, inner, n, m, rows + Matches(cond, outer[n], inner[..m]), ps')
    decreases m
  {
    hide Matches, JoinsUpTo;
    if m == 0 {
      MatchesNone(cond, outer[n]);
      assert inner[..0] == [] && rows + [] == rows;
      ps' := ps;
    } else {
      ps' := JoinsRow(cond, outer, inner, n, m - 1, rows, ps);
      var so := rows + Matches(cond, outer[n], inner[..m - 1]);
      JoinsMore(cond, outer, inner, n, m - 1, so, ps');
      MatchesLast(cond, outer[n], inner[..m]);
      assert inner[..m][..m - 1] == inner[..m - 1];
      var row := outer[n] + inner[m - 1];
      assert rows + (Matches(cond, outer[n], inner[..m - 1]) + if cond(row) then [row] else [])
          == so + if cond(row) then [row] else [];
      if cond(row) { ps' := ps' + [Pair(n, m - 1)]; }
    }
  }

  lemma JoinsBegin(cond: Row -> bool, outer: seq<Row>, inner: seq<Row>, rows: seq<Row>, ps: seq<Pair>)
    requires outer != [] && Joins(cond, outer[..|outer| - 1], inner, rows, ps)
    ensures JoinsUpTo(cond, outer, inner, |outer| - 1, 0, rows, ps)
  {
    assert forall o | 0 <= o < |outer| - 1 :: outer[..|outer| - 1][o] == outer[o];
  }

  /** The inner join by nested loops. */
  lemma {:induction false} NestedLoopExact(cond: Row -> bool, outer: seq<Row>, inner: seq<Row>, width: nat)
      returns (ps: seq<Pair>)
    ensures Joins(cond, outer, inner, NestedLoop(cond, false, width, outer, inner), ps)
  {
    ps := [];
    if outer != [] {
      hide NestedLoop, Matches;
      var n := |outer| - 1;
      ps := NestedLoopExact(cond, outer[..n], inner, width);
      JoinsBegin(cond, outer, inner, NestedLoop(cond, false, width, outer[..n], inner), ps);
      ps := JoinsRow(cond, outer, inner, n, |inner|, NestedLoop(cond, false, width, outer[..n], inner), ps);
      assert inner[..|inner|] == inner;
      NestedLoopLast(cond, outer, inner, width);
    }
  }

  /** The outer rows that meet the condition with no inner row: those at the positions `qs`, each once, in order. */
  ghost predicate Lone(cond: Row -> bool, outer: seq<Row>, inner: seq<Row>, rows: seq<Row>, qs: seq<nat>) {
    && |rows| == |qs|
    && (forall x | 0 <= x < |qs| :: qs[x] < |outer| && rows[x] == outer[qs[x]])
    && (forall x, y | 0 <= x < y < |qs| :: qs[x] < qs[y])
    && forall o: nat | o < |outer| :: o in qs <==> forall i | 0 <= i < |inner| :: !cond(outer[o] + inner[i])
  }

  lemma {:induction false} NoMatch(cond: Row -> bool, o: Row, inner: seq<Row>)
    ensures Matches(cond, o, inner) == [] <==> forall i | 0 <= i < |inner| :: !cond(o + inner[i])
  {
    if inner != [] {
      NoMatch(cond, o, inner[1..]);
      assert forall i | 0 < i < |inner| :: inner[i] == inner[1..][i - 1];
    }
  }

  lemma {:induction false} UnmatchedLast(cond: Row -> bool, outer: seq<Row>, inner: seq<Row>)
    requires outer != []
    ensures var n := |outer| - 1;
            Unmatched(cond, outer, inner)
            == Unmatched(cond, outer[..n], inner) + if Matches(cond, outer[n], inner) == [] then [outer[n]] else []
  {
    hide Unmatched, Matches;
    var n := |outer| - 1;
    UnmatchedHead(cond, outer, inner);
    if n > 0 {
      var front := if Matches(cond, outer[0], inner) == [] then [outer[0]] else [];
      var last := if Matches(cond, outer[n], inner) == [] then [outer[n]] else [];
      UnmatchedHead(cond, outer[..n], inner);
      assert outer[1..][..n - 1] == outer[..n][1..];
      UnmatchedLast(cond, outer[1..], inner);
      assert front + (Unmatched(cond, outer[..n][1..], inner) + last)
          == (front + Unmatched(cond, outer[..n][1..], inner)) + last;
    } else {
      assert outer[1..] == [] && outer[..0] == [];
      UnmatchedNone(cond, inner);
    }
  }

  lemma UnmatchedNone(cond: Row -> bool, inner: seq<Row>)
    ensures Unmatched(cond, [], inner) == []
  {
  }

  lemma LoneLast(cond: Row -> bool, outer: seq<Row>, inner: seq<Row>, rows: seq<Row>, qs: seq<nat>)
    requires outer != [] && Lone(cond, outer[..|outer| - 1], inner, rows, qs)
    ensures var n: nat := |outer| - 1;
            if forall i | 0 <= i < |inner| :: !cond(outer[n] + inner[i])
            then Lone(cond, outer, inner, rows + [outer[n]], qs + [n]) else Lone(cond, outer, inner, rows + [], qs)
  {
    var n: nat := |outer| - 1;
    assert forall o | 0 <= o < n :: outer[..n][o] == outer[o];
    var qs' := qs + [n];
    assert qs'[|qs|] == n && n !in qs;
    assert forall o: nat | o < n :: o in qs' <==> o in qs;
  }

  lemma {:induction false} UnmatchedExact(cond: Row -> bool, outer: seq<Row>, inner: seq<Row>) returns (qs: seq<nat>)
    ensures Lone(cond, outer, inner, Unmatched(cond, outer, inner), qs)
  {
    qs := [];
    if outer != [] {
      hide Unmatched, Lone, Matches;
      var n := |outer| - 1;
      qs := UnmatchedExact(cond, outer[..n], inner);
      UnmatchedLast(cond, outer, inner);
      NoMatch(cond, outer[n], inner);
      LoneLast(cond, outer, inner, Unmatched(cond, outer[..n], inner), qs);
      if forall i | 0 <= i < |inner| :: !cond(outer[n] + inner[i]) { qs := qs + [n]; }
    }
  }

  /** The left join: the rows of exactly the pairs that meet the condition, and each outer row without a partner once,
      with as many fields of the text NULL behind it as inner rows have columns. */
  lemma {:induction false} LeftJoinExact(cond: Row -> bool, width: nat, outer: seq<Row>, inner: seq<Row>)
      returns (joined: seq<Row>, lone: seq<Row>, nulls: Row, ps: seq<Pair>, qs: seq<nat>)
    ensures Joins(cond, outer, inner, joined, ps) && Lone(cond, outer, inner, lone, qs)
    ensures |nulls| == width && forall c | 0 <= c < width :: nulls[c] == StringField([78, 85, 76, 76])
    ensures multiset(NestedLoop(cond, true, width, outer, inner))
         == multiset(joined) + multiset(seq(|lone|, x requires 0 <= x < |lone| => lone[x] + nulls))
  {
    joined, lone, nulls := NestedLoop(cond, false, width, outer, inner), Unmatched(cond, outer, inner), NullRow(width);
    ps := NestedLoopExact(cond, outer, inner, width);
    qs := UnmatchedExact(cond, outer, inner);
    LeftJoinAdds(cond, width, outer, inner);
    assert Padded(width, lone) == seq(|lone|, x requires 0 <= x < |lone| => lone[x] + nulls);
  }
}
