/** What aggregation computes for each group, and that the order of the rows does not matter. */
module AggregateModel {

  datatype AggregateType = COUNT | SUM | AVG | MAX | MIN

  datatype GroupingFunction = GroupingFunction(kind: AggregateType, col: nat)

  /** The values of the grouping columns. */
  type Key = seq<int>

  /** A row by its grouping key and the numbers in its columns. */
  datatype Row = Row(key: Key, numbers: seq<real>)

  datatype AggValues = AggValues(counter: nat, value: real)

  datatype Group = Group(key: Key, states: seq<AggValues>)

  predicate Wide(fs: seq<GroupingFunction>, r: Row) {
    forall i | 0 <= i < |fs| :: fs[i].col < |r.numbers|
  }

  ghost predicate AllWide(fs: seq<GroupingFunction>, rows: seq<Row>) {
    forall i | 0 <= i < |rows| :: Wide(fs, rows[i])
  }

  function UpdateOne(kind: AggregateType, s: AggValues, v: real): AggValues {
    AggValues(s.counter + 1,
              match kind
              case SUM => s.value + v
              case AVG => s.value + v
              case MAX => if v > s.value then v else s.value
              case MIN => if v < s.value then v else s.value
              case COUNT => s.value)
  }

  /** One row added to the states of all functions. */
  function Update(fs: seq<GroupingFunction>, states: seq<AggValues>, r: Row): (s: seq<AggValues>)
    requires |states| == |fs| && Wide(fs, r)
    ensures |s| == |fs|
  {
    seq(|fs|, i requires 0 <= i < |fs| => UpdateOne(fs[i].kind, states[i], r.numbers[fs[i].col]))
  }

  function Start(fs: seq<GroupingFunction>): (s: seq<AggValues>)
    ensures |s| == |fs|
  {
    seq(|fs|, _ => AggValues(0, 0.0))
  }

  /** The states after all rows. */
  function Fold(fs: seq<GroupingFunction>, rows: seq<Row>): (s: seq<AggValues>)
    requires AllWide(fs, rows)
    ensures |s| == |fs|
  {
    if rows == [] then Start(fs) else Update(fs, Fold(fs, rows[..|rows| - 1]), rows[|rows| - 1])
  }

  // ---------------------------------------------------------------- what the states mean

  /** The numbers of one column. */
  function Numbers(rows: seq<Row>, col: nat): (xs: seq<real>)
    requires forall i | 0 <= i < |rows| :: col < |rows[i].numbers|
    ensures |xs| == |rows| && forall i | 0 <= i < |rows| :: xs[i] == rows[i].numbers[col]
  {
    seq(|rows|, i requires 0 <= i < |rows| => rows[i].numbers[col])
  }

  function Total(xs: seq<real>): real {
    if xs == [] then 0.0 else xs[0] + Total(xs[1..])
  }

  lemma {:induction false} TotalSplits(a: seq<real>, b: seq<real>, x: real)
    ensures Total(a + b) == Total(a) + Total(b) && Total([x]) == x
  {
    if a == [] {
      assert a + b == b;
    } else {
      assert (a + b)[1..] == a[1..] + b;
      TotalSplits(a[1..], b, x);
    }
    assert [x][1..] == [];
  }

  /** The state of a function over some numbers: how many there are, and their sum, or the greatest or least of
      them and zero, with which the program starts. */
  ghost predicate Summarizes(kind: AggregateType, xs: seq<real>, s: AggValues) {
    && s.counter == |xs|
    && match kind
       case COUNT => s.value == 0.0
       case SUM => s.value == Total(xs)
       case AVG => s.value == Total(xs)
       case MAX => (forall i | 0 <= i < |xs| :: s.value >= xs[i]) && s.value >= 0.0 && (s.value == 0.0 || s.value in xs)
       case MIN => (forall i | 0 <= i < |xs| :: s.value <= xs[i]) && s.value <= 0.0 && (s.value == 0.0 || s.value in xs)
  }

  lemma {:induction false} FoldSummarizes(fs: seq<GroupingFunction>, rows: seq<Row>, i: nat)
    requires AllWide(fs, rows) && i < |fs|
    ensures Summarizes(fs[i].kind, Numbers(rows, fs[i].col), Fold(fs, rows)[i])
    decreases |rows|
  {
    if rows != [] {
      var n := |rows| - 1;
      var xs, x := Numbers(rows[..n], fs[i].col), rows[n].numbers[fs[i].col];
      FoldSummarizes(fs, rows[..n], i);
      assert Numbers(rows, fs[i].col) == xs + [x];
      SummarizesMore(fs[i].kind, xs, Fold(fs, rows[..n])[i], x);
    }
  }

  lemma {:induction false} SummarizesMore(kind: AggregateType, xs: seq<real>, s: AggValues, x: real)
    requires Summarizes(kind, xs, s)
    ensures Summarizes(kind, xs + [x], UpdateOne(kind, s, x))
  {
    TotalSplits(xs, [x], x);
    assert (xs + [x])[|xs|] == x;
    assert forall i | 0 <= i < |xs| :: (xs + [x])[i] == xs[i];
  }

  /** MAX is the maximum of the numbers if and only if one of them is not negative, and MIN the minimum if and only
      if one is not positive. */
  lemma {:induction false} ExtremesExact(xs: seq<real>, max: AggValues, min: AggValues)
    requires Summarizes(MAX, xs, max) && Summarizes(MIN, xs, min)
    ensures max.value in xs <==> exists i :: 0 <= i < |xs| && xs[i] >= 0.0
    ensures min.value in xs <==> exists i :: 0 <= i < |xs| && xs[i] <= 0.0
  {
    if max.value in xs { var i :| 0 <= i < |xs| && xs[i] == max.value; }
    if min.value in xs { var i :| 0 <= i < |xs| && xs[i] == min.value; }
  }

  /** The maximum of a single -1 comes out as 0, and the minimum of a single 1. */
  lemma {:induction false} ExtremesMissed(below: Row, above: Row)
    requires below.numbers == [-1.0] && above.numbers == [1.0]
    ensures Fold([GroupingFunction(MAX, 0)], [below]) == [AggValues(1, 0.0)]
    ensures Fold([GroupingFunction(MIN, 0)], [above]) == [AggValues(1, 0.0)]
  {
    FoldSummarizes([GroupingFunction(MAX, 0)], [below], 0);
    FoldSummarizes([GroupingFunction(MIN, 0)], [above], 0);
  }

  // ---------------------------------------------------------------- order does not matter

  lemma {:induction false} UpdatesCommute(fs: seq<GroupingFunction>, states: seq<AggValues>, a: Row, b: Row)
    requires |states| == |fs| && Wide(fs, a) && Wide(fs, b)
    ensures Update(fs, Update(fs, states, a), b) == Update(fs, Update(fs, states, b), a)
  {
    forall i | 0 <= i < |fs|
      ensures Update(fs, Update(fs, states, a), b)[i] == Update(fs, Update(fs, states, b), a)[i]
    {
    }
  }

  /** A row taken out of the middle and added last leaves the same states. */
  lemma {:induction false} FoldMove(fs: seq<GroupingFunction>, rows: seq<Row>, i: nat)
    requires AllWide(fs, rows) && i < |rows|
    ensures AllWide(fs, rows[..i] + rows[i + 1..])
    ensures Fold(fs, rows) == Update(fs, Fold(fs, rows[..i] + rows[i + 1..]), rows[i])
  {
    var n := |rows| - 1;
    var rest := rows[..i] + rows[i + 1..];
    if i == n {
      assert rest == rows[..n];
    } else {
      FoldMove(fs, rows[..n], i);
      var inner := rows[..n][..i] + rows[..n][i + 1..];
      assert rest[..n - 1] == inner && rest[n - 1] == rows[n];
      UpdatesCommute(fs, Fold(fs, inner), rows[i], rows[n]);
    }
  }

  /** Permuted rows leave the same states. */
  lemma {:induction false} FoldPermutation(fs: seq<GroupingFunction>, a: seq<Row>, b: seq<Row>)
    requires AllWide(fs, a) && AllWide(fs, b) && multiset(a) == multiset(b)
    ensures Fold(fs, a) == Fold(fs, b)
    decreases |a|
  {
    if a == [] {
      assert b == [] by { assert |multiset(b)| == |multiset(a)|; }
    } else {
      hide Fold, AllWide, Update;
      var n := |a| - 1;
      FoldLast(fs, a);
      var i := WithoutLast(a, b);
      FoldMove(fs, b, i);
      FoldPermutation(fs, a[..n], b[..i] + b[i + 1..]);
    }
  }

  lemma FoldLast(fs: seq<GroupingFunction>, rows: seq<Row>)
    requires AllWide(fs, rows) && rows != []
    ensures var n := |rows| - 1;
            AllWide(fs, rows[..n]) && Wide(fs, rows[n]) && Fold(fs, rows) == Update(fs, Fold(fs, rows[..n]), rows[n])
  {
  }

  /** The place in `b` of the last row of `a`; without it the lists are still permutations. */
  lemma WithoutLast(a: seq<Row>, b: seq<Row>) returns (i: nat)
    requires a != [] && multiset(a) == multiset(b)
    ensures i < |b| && b[i] == a[|a| - 1] && multiset(a[..|a| - 1]) == multiset(b[..i] + b[i + 1..])
  {
    var n := |a| - 1;
    assert a == a[..n] + [a[n]];
    assert a[n] in multiset(b);
    i :| 0 <= i < |b| && b[i] == a[n];
    assert b == b[..i] + [b[i]] + b[i + 1..];
    assert multiset(a[..n]) == multiset(a) - multiset{a[n]};
    assert multiset(b[..i] + b[i + 1..]) == multiset(b) - multiset{b[i]};
  }

  // ---------------------------------------------------------------- groups

  /** The rows with a key, in order. */
  function WithKey(rows: seq<Row>, k: Key): seq<Row> {
    if rows == [] then []
    else WithKey(rows[..|rows| - 1], k) + if rows[|rows| - 1].key == k then [rows[|rows| - 1]] else []
  }

  lemma {:induction false} WithKeyWide(fs: seq<GroupingFunction>, rows: seq<Row>, k: Key)
    requires AllWide(fs, rows)
    ensures AllWide(fs, WithKey(rows, k))
  {
    if rows != [] { WithKeyWide(fs, rows[..|rows| - 1], k); }
  }

  lemma {:induction false} WithKeyCount(rows: seq<Row>, k: Key, r: Row)
    ensures multiset(WithKey(rows, k))[r] == if r.key == k then multiset(rows)[r] else 0
  {
    if rows != [] {
      var n := |rows| - 1;
      WithKeyCount(rows[..n], k, r);
      assert rows == rows[..n] + [rows[n]];
    }
  }

  /** The positions of exactly the rows with the key, in order. */
  ghost predicate Places(rows: seq<Row>, k: Key, ps: seq<nat>) {
    && (forall j | 0 <= j < |ps| :: ps[j] < |rows|) && (forall j, m | 0 <= j < m < |ps| :: ps[j] < ps[m])
    && forall i: nat | i < |rows| :: i in ps <==> rows[i].key == k
  }

  /** The rows at the positions. */
  function At(rows: seq<Row>, ps: seq<nat>): (r: seq<Row>)
    requires forall j | 0 <= j < |ps| :: ps[j] < |rows|
    ensures |r| == |ps| && forall j | 0 <= j < |ps| :: r[j] == rows[ps[j]]
  {
    seq(|ps|, j requires 0 <= j < |ps| => rows[ps[j]])
  }

  /** The states of a group: each summarizes the numbers of exactly the rows with the key. */
  ghost predicate StatesOf(fs: seq<GroupingFunction>, rows: seq<Row>, k: Key, states: seq<AggValues>, ps: seq<nat>) {
    && AllWide(fs, rows) && |states| == |fs| && Places(rows, k, ps)
    && forall i | 0 <= i < |fs| :: Summarizes(fs[i].kind, Numbers(At(rows, ps), fs[i].col), states[i])
  }

  lemma {:induction false} WithKeyExact(rows: seq<Row>, k: Key) returns (ps: seq<nat>)
    ensures Places(rows, k, ps) && WithKey(rows, k) == At(rows, ps)
  {
    ps := [];
    if rows != [] {
      hide WithKey, Places;
      var n := |rows| - 1;
      ps := WithKeyExact(rows[..n], k);
      WithKeyLast(rows, k);
      PlacesLast(rows, k, ps);
      if rows[n].key == k { ps := ps + [n]; }
    }
  }

  lemma PlacesLast(rows: seq<Row>, k: Key, ps: seq<nat>)
    requires rows != [] && Places(rows[..|rows| - 1], k, ps)
    ensures forall j | 0 <= j < |ps| :: ps[j] < |rows| - 1
    ensures var n: nat := |rows| - 1;
            var ps' := if rows[n].key == k then ps + [n] else ps;
            && Places(rows, k, ps')
            && At(rows, ps') == At(rows[..n], ps) + if rows[n].key == k then [rows[n]] else []
  {
    var n: nat := |rows| - 1;
    assert forall i | 0 <= i < n :: rows[..n][i] == rows[i];
    var ps' := ps + [n];
    assert ps'[|ps|] == n && n !in ps;
    assert forall i: nat | i < n :: i in ps' <==> i in ps;
  }

  lemma WithKeyLast(rows: seq<Row>, k: Key)
    requires rows != []
    ensures var n := |rows| - 1; WithKey(rows, k) == WithKey(rows[..n], k) + if rows[n].key == k then [rows[n]] else []
  {
  }

  /** What the group of a key means. */
  lemma {:induction false} GroupMeans(fs: seq<GroupingFunction>, rows: seq<Row>, k: Key) returns (ps: seq<nat>)
    requires AllWide(fs, rows)
    ensures AllWide(fs, WithKey(rows, k)) && StatesOf(fs, rows, k, Fold(fs, WithKey(rows, k)), ps)
  {
    ps := WithKeyExact(rows, k);
    WithKeyWide(fs, rows, k);
    forall i: nat | i < |fs|
      ensures Summarizes(fs[i].kind, Numbers(At(rows, ps), fs[i].col), Fold(fs, WithKey(rows, k))[i])
    {
      FoldSummarizes(fs, WithKey(rows, k), i);
    }
  }

  lemma {:induction false} WithKeyPermutation(a: seq<Row>, b: seq<Row>, k: Key)
    requires multiset(a) == multiset(b)
    ensures multiset(WithKey(a, k)) == multiset(WithKey(b, k))
  {
    forall r ensures multiset(WithKey(a, k))[r] == multiset(WithKey(b, k))[r] {
      WithKeyCount(a, k, r);
      WithKeyCount(b, k, r);
    }
  }

  predicate HasKey(rows: seq<Row>, k: Key) {
    exists i :: 0 <= i < |rows| && rows[i].key == k
  }

  /** What the hash map holds after all rows: each key that occurs, with the states of its rows. */
  ghost predicate Hashed(fs: seq<GroupingFunction>, rows: seq<Row>, groups: map<Key, seq<AggValues>>)
    requires AllWide(fs, rows)
  {
    && (forall k :: k in groups <==> HasKey(rows, k))
    && forall k | k in groups :: (WithKeyWide(fs, rows, k); groups[k] == Fold(fs, WithKey(rows, k)))
  }

  /** The number of rows before the first one with another key. */
  function RunLength(rows: seq<Row>, k: Key): (n: nat)
    ensures n <= |rows| && (forall i | 0 <= i < n :: rows[i].key == k) && (n < |rows| ==> rows[n].key != k)
  {
    if rows == [] || rows[0].key != k then 0 else 1 + RunLength(rows[1..], k)
  }

  /** One group for each run of rows with the same key. */
  ghost function Runs(fs: seq<GroupingFunction>, rows: seq<Row>): seq<Group>
    requires AllWide(fs, rows)
    decreases |rows|
  {
    if rows == [] then []
    else
      var n := RunLength(rows, rows[0].key);
      [Group(rows[0].key, Fold(fs, rows[..n]))] + Runs(fs, rows[n..])
  }

  /** Rows with the same key are next to each other. */
  ghost predicate Grouped(rows: seq<Row>) {
    forall i, j, m | 0 <= i < j < m < |rows| && rows[i].key == rows[m].key :: rows[j].key == rows[i].key
  }

  /** Sorted on the first grouping column, as the sort operator leaves the rows. */
  ghost predicate Sorted(rows: seq<Row>) {
    && (forall i | 0 <= i < |rows| :: rows[i].key != [])
    && forall i, j | 0 <= i < j < |rows| :: rows[i].key[0] <= rows[j].key[0]
  }

  /** With one grouping column, sorted rows are grouped. */
  lemma SortedIsGrouped(rows: seq<Row>)
    requires Sorted(rows) && forall i | 0 <= i < |rows| :: |rows[i].key| == 1
    ensures Grouped(rows)
  {
    forall i, j, m | 0 <= i < j < m < |rows| && rows[i].key == rows[m].key
      ensures rows[j].key == rows[i].key
    {
      assert rows[i].key[0] <= rows[j].key[0] <= rows[m].key[0];
    }
  }

  lemma {:induction false} WithKeyAll(rows: seq<Row>, k: Key)
    requires forall i | 0 <= i < |rows| :: rows[i].key == k
    ensures WithKey(rows, k) == rows
  {
    if rows != [] { WithKeyAll(rows[..|rows| - 1], k); }
  }

  lemma {:induction false} WithKeyNone(rows: seq<Row>, k: Key)
    requires forall i | 0 <= i < |rows| :: rows[i].key != k
    ensures WithKey(rows, k) == []
  {
    if rows != [] { WithKeyNone(rows[..|rows| - 1], k); }
  }

  lemma {:induction false} WithKeyConcat(a: seq<Row>, b: seq<Row>, k: Key)
    ensures WithKey(a + b, k) == WithKey(a, k) + WithKey(b, k)
  {
    if b == [] {
      assert a + b == a;
    } else {
      var n := |b| - 1;
      assert (a + b)[..|a + b| - 1] == a + b[..n];
      WithKeyConcat(a, b[..n], k);
    }
  }

  /** Groups with distinct keys, one for each key that occurs, with the states of all rows with the key. */
  ghost predicate GroupsOf(fs: seq<GroupingFunction>, rows: seq<Row>, gs: seq<Group>)
    requires AllWide(fs, rows)
  {
    && OneEach(gs)
    && (forall i | 0 <= i < |gs| :: IsGroup(fs, rows, gs[i]))
    && (forall k | HasKey(rows, k) :: exists i :: 0 <= i < |gs| && gs[i].key == k)
  }

  ghost predicate OneEach(gs: seq<Group>) {
    forall i, j | 0 <= i < j < |gs| :: gs[i].key != gs[j].key
  }

  ghost predicate IsGroup(fs: seq<GroupingFunction>, rows: seq<Row>, g: Group)
    requires AllWide(fs, rows)
  {
    WithKeyWide(fs, rows, g.key);
    HasKey(rows, g.key) && g.states == Fold(fs, WithKey(rows, g.key))
  }

  /** The runs of a stream are the groups if and only if rows with the same key are next to each other. */
  lemma {:induction false} RunsAreGroups(fs: seq<GroupingFunction>, rows: seq<Row>)
    requires AllWide(fs, rows)
    ensures GroupsOf(fs, rows, Runs(fs, rows)) <==> Grouped(rows)
  {
    if Grouped(rows) { GroupedRuns(fs, rows); }
    if OneEach(Runs(fs, rows)) { DistinctRuns(fs, rows); }
  }

  lemma {:induction false} GroupedRuns(fs: seq<GroupingFunction>, rows: seq<Row>)
    requires AllWide(fs, rows) && Grouped(rows)
    ensures GroupsOf(fs, rows, Runs(fs, rows))
    decreases |rows|
  {
    if rows != [] {
      var n := RunLength(rows, rows[0].key);
      GroupedRest(rows, n);
      GroupedRuns(fs, rows[n..]);
      FirstGroup(fs, rows, n, Runs(fs, rows[n..]));
    }
  }

  lemma GroupedRest(rows: seq<Row>, n: nat)
    requires Grouped(rows) && n <= |rows|
    ensures Grouped(rows[n..])
  {
    forall i, j, m | 0 <= i < j < m < |rows| - n && rows[n..][i].key == rows[n..][m].key
      ensures rows[n..][j].key == rows[n..][i].key
    {
      assert rows[n + j].key == rows[n + i].key;
    }
  }

  /** Each row's key is the key of a run. */
  lemma {:induction false} RunsCover(fs: seq<GroupingFunction>, rows: seq<Row>, i: nat)
    requires AllWide(fs, rows) && i < |rows|
    ensures exists j :: 0 <= j < |Runs(fs, rows)| && Runs(fs, rows)[j].key == rows[i].key
    decreases |rows|
  {
    hide Runs, Fold, RunLength, AllWide;
    RunsUnfold(fs, rows);
    var n := RunLength(rows, rows[0].key);
    var gs := Runs(fs, rows);
    if i < n {
      assert gs[0].key == rows[i].key;
    } else {
      RunsCover(fs, rows[n..], i - n);
      var j :| 0 <= j < |Runs(fs, rows[n..])| && Runs(fs, rows[n..])[j].key == rows[n..][i - n].key;
      assert gs[j + 1].key == rows[i].key;
    }
  }

  /** If no key has two runs, rows with the same key are next to each other. */
  lemma {:induction false} DistinctRuns(fs: seq<GroupingFunction>, rows: seq<Row>)
    requires AllWide(fs, rows) && OneEach(Runs(fs, rows))
    ensures Grouped(rows)
    decreases |rows|
  {
    if rows != [] {
      hide Runs, Fold, RunLength, AllWide, Grouped, OneEach;
      RunsUnfold(fs, rows);
      var n := RunLength(rows, rows[0].key);
      OneEachRest(Group(rows[0].key, Fold(fs, rows[..n])), Runs(fs, rows[n..]));
      DistinctRuns(fs, rows[n..]);
      forall i | n <= i < |rows| ensures rows[i].key != rows[0].key { FirstKeyOnce(fs, rows, n, i); }
      GroupedFront(rows, n);
    }
  }

  lemma OneEachRest(first: Group, later: seq<Group>)
    requires OneEach([first] + later)
    ensures OneEach(later) && forall j | 0 <= j < |later| :: later[j].key != first.key
  {
    var gs := [first] + later;
    assert gs[0] == first;
    assert forall j | 0 <= j < |later| :: later[j] == gs[j + 1];
  }

  lemma {:induction false} FirstKeyOnce(fs: seq<GroupingFunction>, rows: seq<Row>, n: nat, i: nat)
    requires AllWide(fs, rows) && n <= i < |rows| && AllWide(fs, rows[n..])
    requires forall j | 0 <= j < |Runs(fs, rows[n..])| :: Runs(fs, rows[n..])[j].key != rows[0].key
    ensures rows[i].key != rows[0].key
  {
    hide Runs, AllWide;
    RunsCover(fs, rows[n..], i - n);
    assert rows[n..][i - n] == rows[i];
  }

  lemma GroupedFront(rows: seq<Row>, n: nat)
    requires 0 < n <= |rows| && (forall i | 0 <= i < n :: rows[i].key == rows[0].key)
    requires (forall i | n <= i < |rows| :: rows[i].key != rows[0].key) && Grouped(rows[n..])
    ensures Grouped(rows)
  {
    forall i, j, m | 0 <= i < j < m < |rows| && rows[i].key == rows[m].key
      ensures rows[j].key == rows[i].key
    {
      if i >= n { assert rows[n..][i - n].key == rows[n..][m - n].key && rows[n..][j - n].key == rows[j].key; }
    }
  }

  lemma {:induction false} FirstGroup(fs: seq<GroupingFunction>, rows: seq<Row>, n: nat, later: seq<Group>)
    requires AllWide(fs, rows) && Grouped(rows) && rows != [] && n == RunLength(rows, rows[0].key)
    requires GroupsOf(fs, rows[n..], later)
    ensures GroupsOf(fs, rows, [Group(rows[0].key, Fold(fs, rows[..n]))] + later)
  {
    hide Fold, WithKey, RunLength, AllWide, Grouped, Runs;
    RunsUnfold(fs, rows);
    RunGroup(fs, rows, n);
    var k0 := rows[0].key;
    var first := Group(k0, Fold(fs, rows[..n]));
    var gs := [first] + later;
    assert HasKey(rows, k0);
    forall i | 0 <= i < |later|
      ensures later[i].key != k0 && IsGroup(fs, rows, later[i])
    {
      var k := later[i].key;
      assert IsGroup(fs, rows[n..], later[i]);
      var j :| 0 <= j < |rows[n..]| && rows[n..][j].key == k;
      assert rows[n + j].key == k;
      LaterGroup(rows, n, k);
    }
    forall k | HasKey(rows, k)
      ensures exists i :: 0 <= i < |gs| && gs[i].key == k
    {
      if k == k0 {
        assert gs[0].key == k;
      } else {
        LaterGroup(rows, n, k);
        var i :| 0 <= i < |later| && later[i].key == k;
        assert gs[i + 1].key == k;
      }
    }
  }

  lemma {:induction false} RunGroup(fs: seq<GroupingFunction>, rows: seq<Row>, n: nat)
    requires AllWide(fs, rows) && Grouped(rows) && rows != [] && n == RunLength(rows, rows[0].key)
    ensures WithKey(rows, rows[0].key) == rows[..n]
    ensures forall i | n <= i < |rows| :: rows[i].key != rows[0].key
  {
    hide WithKey, RunLength;
    var a, b := rows[..n], rows[n..];
    forall i | n <= i < |rows|
      ensures rows[i].key != rows[0].key
    {
      assert rows[n].key != rows[0].key;
    }
    assert rows == a + b;
    WithKeyConcat(a, b, rows[0].key);
    WithKeyAll(a, rows[0].key);
    WithKeyNone(b, rows[0].key);
  }

  lemma {:induction false} LaterGroup(rows: seq<Row>, n: nat, k: Key)
    requires rows != [] && n == RunLength(rows, rows[0].key) && k != rows[0].key
    ensures WithKey(rows, k) == WithKey(rows[n..], k) && (HasKey(rows, k) <==> HasKey(rows[n..], k))
  {
    hide WithKey, RunLength;
    var a, b := rows[..n], rows[n..];
    assert rows == a + b;
    WithKeyConcat(a, b, k);
    WithKeyNone(a, k);
    assert [] + WithKey(b, k) == WithKey(b, k);
    if HasKey(rows, k) {
      var i :| 0 <= i < |rows| && rows[i].key == k;
      assert b[i - n].key == k;
    }
    if HasKey(b, k) {
      var i :| 0 <= i < |b| && b[i].key == k;
      assert rows[n + i].key == k;
    }
  }

  /** Over a stream with rows of the same key next to each other, sort aggregation returns, for each key once,
      the states that the hash map has after any permutation of the rows. */
  lemma {:induction false} SortAgreesWithHash(fs: seq<GroupingFunction>, sorted: seq<Row>, rows: seq<Row>,
      groups: map<Key, seq<AggValues>>)
    requires AllWide(fs, sorted) && AllWide(fs, rows) && Grouped(sorted) && multiset(sorted) == multiset(rows)
    requires Hashed(fs, rows, groups)
    ensures var gs := Runs(fs, sorted);
            && OneEach(gs)
            && (forall i | 0 <= i < |gs| :: gs[i].key in groups && groups[gs[i].key] == gs[i].states)
            && (forall k | k in groups :: exists i :: 0 <= i < |gs| && gs[i].key == k)
  {
    RunsAreGroups(fs, sorted);
    var gs := Runs(fs, sorted);
    forall k ensures HasKey(sorted, k) <==> HasKey(rows, k) { SameKeys(sorted, rows, k); }
    forall i | 0 <= i < |gs|
      ensures gs[i].key in groups && groups[gs[i].key] == gs[i].states
    {
      var k := gs[i].key;
      assert IsGroup(fs, sorted, gs[i]);
      WithKeyPermutation(sorted, rows, k);
      WithKeyWide(fs, rows, k);
      WithKeyWide(fs, sorted, k);
      FoldPermutation(fs, WithKey(sorted, k), WithKey(rows, k));
    }
  }

  /** Each run's key is the key of a row. */
  lemma {:induction false} RunKeys(fs: seq<GroupingFunction>, rows: seq<Row>, j: nat)
    requires AllWide(fs, rows) && j < |Runs(fs, rows)|
    ensures HasKey(rows, Runs(fs, rows)[j].key)
    decreases |rows|
  {
    var n := RunLength(rows, rows[0].key);
    if j == 0 {
      assert rows[0].key == Runs(fs, rows)[0].key;
    } else {
      RunKeys(fs, rows[n..], j - 1);
      var i :| 0 <= i < |rows[n..]| && rows[n..][i].key == Runs(fs, rows[n..])[j - 1].key;
      assert rows[n + i].key == Runs(fs, rows)[j].key;
    }
  }

  /** Sorted on a single grouping column, the groups come with growing keys and agree with the hash map. */
  lemma {:induction false} SingleKeyAgrees(fs: seq<GroupingFunction>, sorted: seq<Row>, rows: seq<Row>,
      groups: map<Key, seq<AggValues>>)
    requires AllWide(fs, sorted) && AllWide(fs, rows) && multiset(sorted) == multiset(rows) && Hashed(fs, rows, groups)
    requires Sorted(sorted) && forall i | 0 <= i < |sorted| :: |sorted[i].key| == 1
    ensures var gs := Runs(fs, sorted);
            && (forall i | 0 <= i < |gs| ::
               |gs[i].key| == 1 && gs[i].key in groups && groups[gs[i].key] == gs[i].states)
            && (forall i, j | 0 <= i < j < |gs| :: gs[i].key[0] < gs[j].key[0])
            && (forall k | k in groups :: exists i :: 0 <= i < |gs| && gs[i].key == k)
  {
    SortedIsGrouped(sorted);
    SortAgreesWithHash(fs, sorted, rows, groups);
    RunsGrow(fs, sorted);
  }

  lemma {:induction false} RunsGrow(fs: seq<GroupingFunction>, rows: seq<Row>)
    requires AllWide(fs, rows) && Sorted(rows) && forall i | 0 <= i < |rows| :: |rows[i].key| == 1
    ensures var gs := Runs(fs, rows);
            && (forall i | 0 <= i < |gs| :: |gs[i].key| == 1)
            && (forall i, j | 0 <= i < j < |gs| :: gs[i].key[0] < gs[j].key[0])
    decreases |rows|
  {
    if rows != [] {
      hide Runs, Fold, RunLength, AllWide, Sorted;
      var n := RunLength(rows, rows[0].key);
      var later := Runs(fs, rows[n..]);
      RunsUnfold(fs, rows);
      SortedRest(rows, n);
      RunsGrow(fs, rows[n..]);
      forall j | 0 <= j < |later|
        ensures |later[j].key| == 1 && later[j].key[0] > rows[0].key[0]
      {
        RunAbove(fs, rows, n, j);
      }
      GrowFront(Group(rows[0].key, Fold(fs, rows[..n])), later);
    }
  }

  lemma GrowFront(first: Group, later: seq<Group>)
    requires |first.key| == 1 && forall j | 0 <= j < |later| :: |later[j].key| == 1 && later[j].key[0] > first.key[0]
    requires forall i, j | 0 <= i < j < |later| :: later[i].key[0] < later[j].key[0]
    ensures var gs := [first] + later;
            && (forall i | 0 <= i < |gs| :: |gs[i].key| == 1)
            && (forall i, j | 0 <= i < j < |gs| :: gs[i].key[0] < gs[j].key[0])
  {
  }

  lemma RunsUnfold(fs: seq<GroupingFunction>, rows: seq<Row>)
    requires AllWide(fs, rows) && rows != []
    ensures var n := RunLength(rows, rows[0].key);
            0 < n <= |rows| && AllWide(fs, rows[..n]) && AllWide(fs, rows[n..])
            && Runs(fs, rows) == [Group(rows[0].key, Fold(fs, rows[..n]))] + Runs(fs, rows[n..])
  {
  }

  lemma SortedRest(rows: seq<Row>, n: nat)
    requires Sorted(rows) && n <= |rows|
    ensures Sorted(rows[n..])
  {
    assert forall i | 0 <= i < |rows| - n :: rows[n..][i] == rows[n + i];
  }

  lemma {:induction false} RunAbove(fs: seq<GroupingFunction>, rows: seq<Row>, n: nat, j: nat)
    requires Sorted(rows) && forall i | 0 <= i < |rows| :: |rows[i].key| == 1
    requires rows != [] && n == RunLength(rows, rows[0].key) && AllWide(fs, rows) && AllWide(fs, rows[n..])
    requires j < |Runs(fs, rows[n..])|
    ensures var k := Runs(fs, rows[n..])[j].key; |k| == 1 && k[0] > rows[0].key[0]
  {
    hide Runs, Fold, RunLength, WithKey;
    SortedIsGrouped(rows);
    RunGroup(fs, rows, n);
    RunKeys(fs, rows[n..], j);
    var k := Runs(fs, rows[n..])[j].key;
    var i :| 0 <= i < |rows[n..]| && rows[n..][i].key == k;
    assert rows[n + i].key == k && rows[n + i].key != rows[0].key;
    assert rows[0].key[0] <= rows[n + i].key[0];
  }

  /** Sorted on the first of two grouping columns: a key between two equal ones gives it two runs. */
  lemma SecondKeyCuts(fs: seq<GroupingFunction>, a: Row, b: Row)
    requires a.key == [1, 1] && b.key == [1, 2] && Wide(fs, a) && Wide(fs, b)
    ensures var rows := [a, b, a]; Sorted(rows) && !GroupsOf(fs, rows, Runs(fs, rows))
  {
    var rows := [a, b, a];
    assert rows[0].key == rows[2].key && rows[1].key != rows[0].key;
    RunsAreGroups(fs, rows);
  }

  lemma SameKeys(a: seq<Row>, b: seq<Row>, k: Key)
    requires multiset(a) == multiset(b)
    ensures HasKey(a, k) <==> HasKey(b, k)
  {
    if HasKey(a, k) {
      var i :| 0 <= i < |a| && a[i].key == k;
      assert a[i] in multiset(b);
    }
    if HasKey(b, k) {
      var i :| 0 <= i < |b| && b[i].key == k;
      assert b[i] in multiset(a);
    }
  }
}
