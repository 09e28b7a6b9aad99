/** Sort and hash aggregation as operators. */
module AggregateOperators {
  import opened Basics
  import opened TupleCodec
  import opened Streams
  import opened AggregateModel
  import SortModel

  /** The rows that an ascending sort by the first grouping column leaves are sorted as the aggregation asks. */
  lemma {:induction false} SortFeedsAggregate(sorted: seq<SortModel.Row>, rows: seq<Row>)
    requires SortModel.Sorted(true, sorted) && |sorted| == |rows|
    requires forall i | 0 <= i < |rows| :: rows[i].key != [] && rows[i].key[0] == sorted[i].key
    ensures Sorted(rows)
  {
    SortModel.SortedKeys(true, sorted);
  }

  /** The groups that pass the HAVING condition. */
  ghost function Having(cond: Group -> bool, gs: seq<Group>): seq<Group> {
    if gs == [] then [] else (if cond(gs[0]) then [gs[0]] else []) + Having(cond, gs[1..])
  }

  /** Exactly the groups that pass, each once, in order: those at the positions `ps`. */
  ghost predicate Passing(cond: Group -> bool, gs: seq<Group>, hs: seq<Group>, ps: seq<nat>) {
    && |hs| == |ps|
    && (forall j | 0 <= j < |ps| :: ps[j] < |gs| && hs[j] == gs[ps[j]])
    && (forall j, m | 0 <= j < m < |ps| :: ps[j] < ps[m])
    && forall i: nat | i < |gs| :: i in ps <==> cond(gs[i])
  }

  lemma {:induction false} HavingExact(cond: Group -> bool, gs: seq<Group>) returns (ps: seq<nat>)
    ensures Passing(cond, gs, Having(cond, gs), ps)
  {
    ps := [];
    if gs != [] {
      hide Having, Passing;
      var n := |gs| - 1;
      ps := HavingExact(cond, gs[..n]);
      HavingLast(cond, gs);
      PassingLast(cond, gs, Having(cond, gs[..n]), ps);
      if cond(gs[n]) { ps := ps + [n]; }
    }
  }

  lemma PassingLast(cond: Group -> bool, gs: seq<Group>, hs: seq<Group>, ps: seq<nat>)
    requires gs != [] && Passing(cond, gs[..|gs| - 1], hs, ps)
    ensures var n: nat := |gs| - 1;
            if cond(gs[n]) then Passing(cond, gs, hs + [gs[n]], ps + [n]) else Passing(cond, gs, hs + [], ps)
  {
    var n: nat := |gs| - 1;
    assert forall i | 0 <= i < n :: gs[..n][i] == gs[i];
    var ps' := ps + [n];
    assert ps'[|ps|] == n && n !in ps;
    assert forall i: nat | i < n :: i in ps' <==> i in ps;
  }

  lemma {:induction false} HavingLast(cond: Group -> bool, gs: seq<Group>)
    requires gs != []
    ensures var n := |gs| - 1; Having(cond, gs) == Having(cond, gs[..n]) + if cond(gs[n]) then [gs[n]] else []
  {
    hide Having;
    var n := |gs| - 1;
    HavingHead(cond, gs);
    HavingNone(cond);
    if n > 0 {
      var front, last := if cond(gs[0]) then [gs[0]] else [], if cond(gs[n]) then [gs[n]] else [];
      HavingHead(cond, gs[..n]);
      assert gs[1..][..n - 1] == gs[..n][1..];
      HavingLast(cond, gs[1..]);
      assert front + (Having(cond, gs[..n][1..]) + last) == (front + Having(cond, gs[..n][1..])) + last;
    } else {
      assert gs[1..] == [] && gs[..0] == [];
    }
  }

  lemma HavingNone(cond: Group -> bool)
    ensures Having(cond, []) == []
  {
  }

  /** The group of the first n of the rows, behind which another key follows. */
  ghost predicate Block(fs: seq<GroupingFunction>, rows: seq<Row>, g: Group, n: nat) {
    && 0 < n <= |rows| && AllWide(fs, rows[..n]) && |g.states| == |fs|
    && (forall i | 0 <= i < n :: rows[i].key == g.key) && (n < |rows| ==> rows[n].key != g.key)
    && forall i | 0 <= i < |fs| :: Summarizes(fs[i].kind, Numbers(rows[..n], fs[i].col), g.states[i])
  }

  lemma {:induction false} BlockMeans(fs: seq<GroupingFunction>, rows: seq<Row>, n: nat)
    requires AllWide(fs, rows) && 0 < n <= |rows|
    requires (forall i | 0 <= i < n :: rows[i].key == rows[0].key) && (n < |rows| ==> rows[n].key != rows[0].key)
    ensures AllWide(fs, rows[..n]) && Block(fs, rows, Group(rows[0].key, Fold(fs, rows[..n])), n)
  {
    forall i: nat | i < |fs|
      ensures Summarizes(fs[i].kind, Numbers(rows[..n], fs[i].col), Fold(fs, rows[..n])[i])
    {
      FoldSummarizes(fs, rows[..n], i);
    }
  }

  class SortAggregate {
    const table: Source<Row>
    const fs: seq<GroupingFunction>
    const having: Group -> bool
    /** The row read ahead. */
    var nextRow: Option<Row>

    ghost predicate Valid()
      reads this, table
    {
      && table.Valid() && AllWide(fs, table.rows)
      && (nextRow != None ==> table.position > 0 && nextRow.value == table.rows[table.position - 1])
      && (nextRow == None ==> table.position == |table.rows|)
    }

    /** The rows not yet grouped. */
    ghost function Unread(): (rows: seq<Row>)
      reads this, table
      requires Valid()
      ensures AllWide(fs, rows)
    {
      table.rows[if nextRow == None then table.position else table.position - 1..]
    }

    ghost function Remaining(): seq<Group>
      reads this, table
      requires Valid()
    {
      Having(having, Runs(fs, Unread()))
    }

    /** Opens the operator on the sorted rows. */
    constructor (table: Source<Row>, fs: seq<GroupingFunction>, having: Group -> bool)
      requires AllWide(fs, table.rows)
      modifies table
      ensures Valid() && Remaining() == Having(having, Runs(fs, table.rows))
    {
      this.table, this.fs, this.having := table, fs, having;
      table.Open();
      var row := table.GetNext();
      nextRow := row;
      new;
      assert Unread() == table.rows;
    }

    method Fetch()
      requires Valid() && nextRow != None
      modifies this`nextRow, table
      ensures Valid() && old(Unread()) != [] && old(nextRow) == Some(old(Unread())[0]) && Unread() == old(Unread())[1..]
      ensures nextRow == if Unread() == [] then None else Some(Unread()[0])
    {
      nextRow := table.GetNext();
    }

    /** The next group that passes the condition. */
    method GetNext() returns (group: Option<Group>)
      requires Valid()
      modifies this, table
      ensures Valid()
      ensures var rest := old(Remaining());
              if rest == [] then group == None && Remaining() == []
              else group == Some(rest[0]) && Remaining() == rest[1..]
      ensures group != None ==>
                && having(group.value)
                && exists a: nat, n: nat :: a <= |old(Unread())| && Block(fs, old(Unread())[a..], group.value, n)
                     && Unread() == old(Unread())[a..][n..]
    {
      hide Runs, Fold, AllWide, Block;
      ghost var all, a: nat := Unread(), 0;
      while nextRow != None
        invariant Valid() && Remaining() == old(Remaining())
        invariant a <= |all| && Unread() == all[a..]
        decreases |Unread()|
      {
        ghost var unread := Unread();
        var result, n := ReadGroup();
        HavingHead(having, Runs(fs, unread));
        if having(result) {
          return Some(result);
        }
        assert all[a..][n..] == all[a + n..];
        a := a + n;
      }
      RunsOfNone(fs);
      assert Unread() == [];
      group := None;
    }

    /** Reads all rows of one group. */
    method ReadGroup() returns (g: Group, ghost n: nat)
      requires Valid() && nextRow != None
      modifies this`nextRow, table
      ensures Valid() && |Unread()| < |old(Unread())| && Runs(fs, old(Unread())) == [g] + Runs(fs, Unread())
      ensures Block(fs, old(Unread()), g, n) && Unread() == old(Unread())[n..]
      ensures n <= |old(Unread())|
    {
      hide Runs, Fold, Update, AllWide, Block;
      ghost var all := Unread();
      var key := nextRow.value.key;
      var states := Start(fs);
      n := 0;
      NoRows(fs, all);
      while true
        invariant AtRow(all, n, states) && n < |all| && key == all[0].key
        invariant forall i | 0 <= i <= n :: all[i].key == key
        decreases |all| - n
      {
        states := AddRow(all, n, states);
        n := n + 1;
        if nextRow == None || nextRow.value.key != key {
          break;
        }
      }
      RunsHead(fs, all, n);
      BlockMeans(fs, all, n);
      g := Group(key, states);
    }

    /** The first n of the rows are in the states, the next one is read ahead. */
    ghost predicate AtRow(all: seq<Row>, n: nat, states: seq<AggValues>)
      reads this, table
    {
      && Valid() && AllWide(fs, all) && n <= |all| && Unread() == all[n..]
      && nextRow == (if n < |all| then Some(all[n]) else None) && states == Fold(fs, all[..n])
    }

    method AddRow(ghost all: seq<Row>, ghost n: nat, states: seq<AggValues>) returns (states': seq<AggValues>)
      requires AtRow(all, n, states) && n < |all|
      modifies this`nextRow, table
      ensures AtRow(all, n + 1, states')
    {
      hide Fold, Update;
      FoldOne(fs, all, n);
      states' := Update(fs, states, nextRow.value);
      Fetch();
    }
  }

  lemma RunsOfNone(fs: seq<GroupingFunction>)
    ensures Runs(fs, []) == []
  {
  }

  lemma NoRows(fs: seq<GroupingFunction>, rows: seq<Row>)
    ensures Fold(fs, rows[..0]) == Start(fs)
  {
  }

  lemma FoldOne(fs: seq<GroupingFunction>, rows: seq<Row>, n: nat)
    requires AllWide(fs, rows) && n < |rows|
    ensures Fold(fs, rows[..n + 1]) == Update(fs, Fold(fs, rows[..n]), rows[n])
  {
    assert rows[..n + 1][..n] == rows[..n];
  }

  lemma RunsHead(fs: seq<GroupingFunction>, rows: seq<Row>, n: nat)
    requires AllWide(fs, rows) && 0 < n <= |rows|
    requires (forall i | 0 <= i < n :: rows[i].key == rows[0].key) && (n < |rows| ==> rows[n].key != rows[0].key)
    ensures Runs(fs, rows) == [Group(rows[0].key, Fold(fs, rows[..n]))] + Runs(fs, rows[n..])
  {
    var m := RunLength(rows, rows[0].key);
    assert m == n;
  }

  lemma HavingHead(cond: Group -> bool, gs: seq<Group>)
    requires gs != []
    ensures Having(cond, gs) == (if cond(gs[0]) then [gs[0]] else []) + Having(cond, gs[1..])
  {
  }

  /** The group map of hash aggregation. */
  class HashAggregate {
    const fs: seq<GroupingFunction>
    var groups: map<Key, seq<AggValues>>

    constructor (fs: seq<GroupingFunction>)
      ensures this.fs == fs && groups == map[]
    {
      this.fs, groups := fs, map[];
    }

    /** Reads all rows and keeps the states of each group. */
    method Open(table: Source<Row>)
      requires AllWide(fs, table.rows) && groups == map[]
      modifies this, table
      ensures Hashed(fs, table.rows, groups)
      ensures forall k :: k in groups <==> exists i :: 0 <= i < |table.rows| && table.rows[i].key == k
      ensures forall k | k in groups :: exists ps: seq<nat> :: StatesOf(fs, table.rows, k, groups[k], ps)
    {
      hide Hashed, Fold, Update;
      HashedNone(fs, table.rows);
      table.Open();
      var row := table.GetNext();
      while row != None
        invariant table.Valid() && AllWide(fs, table.rows)
        invariant row != None ==> table.position > 0 && row.value == table.rows[table.position - 1]
        invariant row == None ==> table.position == |table.rows|
        invariant Hashed(fs, table.rows[..if row == None then table.position else table.position - 1], groups)
        decreases |table.rows| - table.position, row != None
      {
        var key := row.value.key;
        HashedWide(fs, table.rows, table.position - 1, groups);
        var states := if key in groups then groups[key] else Start(fs);
        HashedPush(fs, table.rows, table.position - 1, groups);
        states := Update(fs, states, row.value);
        groups := groups[key := states];
        row := table.GetNext();
      }
      assert table.rows[..|table.rows|] == table.rows;
      HashedMeans(fs, table.rows, groups);
    }
  }

  lemma {:induction false} HashedMeans(fs: seq<GroupingFunction>, rows: seq<Row>, groups: map<Key, seq<AggValues>>)
    requires AllWide(fs, rows) && Hashed(fs, rows, groups)
    ensures forall k :: k in groups <==> exists i :: 0 <= i < |rows| && rows[i].key == k
    ensures forall k | k in groups :: exists ps: seq<nat> :: StatesOf(fs, rows, k, groups[k], ps)
  {
    hide Fold, WithKey;
    forall k
      ensures k in groups <==> exists i :: 0 <= i < |rows| && rows[i].key == k
    {
      assert HasKey(rows, k) <==> k in groups;
    }
    forall k | k in groups
      ensures exists ps: seq<nat> :: StatesOf(fs, rows, k, groups[k], ps)
    {
      var ps := GroupMeans(fs, rows, k);
    }
  }

  lemma HashedNone(fs: seq<GroupingFunction>, rows: seq<Row>)
    ensures Hashed(fs, rows[..0], map[])
  {
  }

  lemma HashedWide(fs: seq<GroupingFunction>, rows: seq<Row>, n: nat, groups: map<Key, seq<AggValues>>)
    requires AllWide(fs, rows) && n < |rows| && Hashed(fs, rows[..n], groups)
    ensures forall k | k in groups :: |groups[k]| == |fs|
  {
  }

  lemma {:induction false} HashedPush(fs: seq<GroupingFunction>, rows: seq<Row>, n: nat,
      groups: map<Key, seq<AggValues>>)
    requires AllWide(fs, rows) && n < |rows| && Hashed(fs, rows[..n], groups)
    requires rows[n].key in groups ==> |groups[rows[n].key]| == |fs|
    ensures var k := rows[n].key;
            Hashed(fs, rows[..n + 1], groups[k := Update(fs, if k in groups then groups[k] else Start(fs), rows[n])])
  {
    hide Fold, Update, WithKey, HasKey;
    var k := rows[n].key;
    var before, after := rows[..n], rows[..n + 1];
    forall j ensures HasKey(after, j) <==> HasKey(before, j) || j == k { HasKeyPush(rows, n, j); }
    forall j
      ensures WithKey(after, j) == WithKey(before, j) + if j == k then [rows[n]] else []
    {
      WithKeyPush(rows, n, j);
    }
    WithKeyWide(fs, before, k);
    WithKeyWide(fs, after, k);
    FoldPush(fs, WithKey(before, k), rows[n]);
    if k !in groups {
      NoKey(before, k);
      EmptyFold(fs);
    }
    var groups' := groups[k := Update(fs, if k in groups then groups[k] else Start(fs), rows[n])];
    forall j | j in groups'
      ensures AllWide(fs, WithKey(after, j)) && groups'[j] == Fold(fs, WithKey(after, j))
    {
      WithKeyWide(fs, after, j);
      if j == k {
        assert WithKey(after, k) == WithKey(before, k) + [rows[n]];
      } else {
        assert WithKey(after, j) == WithKey(before, j) + [] == WithKey(before, j);
      }
    }
  }

  lemma EmptyFold(fs: seq<GroupingFunction>)
    ensures Fold(fs, []) == Start(fs)
  {
  }

  lemma HasKeyPush(rows: seq<Row>, n: nat, j: Key)
    requires n < |rows|
    ensures HasKey(rows[..n + 1], j) <==> HasKey(rows[..n], j) || j == rows[n].key
  {
    var before, after := rows[..n], rows[..n + 1];
    if HasKey(before, j) {
      var i :| 0 <= i < n && before[i].key == j;
      assert after[i].key == j;
    }
    if HasKey(after, j) {
      var i :| 0 <= i <= n && after[i].key == j;
      if i < n { assert before[i].key == j; }
    }
    assert after[n] == rows[n];
  }

  lemma WithKeyPush(rows: seq<Row>, n: nat, j: Key)
    requires n < |rows|
    ensures WithKey(rows[..n + 1], j) == WithKey(rows[..n], j) + if j == rows[n].key then [rows[n]] else []
  {
    assert rows[..n + 1][..n] == rows[..n];
  }

  lemma FoldPush(fs: seq<GroupingFunction>, rows: seq<Row>, r: Row)
    requires AllWide(fs, rows) && Wide(fs, r)
    ensures AllWide(fs, rows + [r]) && Fold(fs, rows + [r]) == Update(fs, Fold(fs, rows), r)
  {
    assert (rows + [r])[..|rows|] == rows;
  }

  lemma NoKey(rows: seq<Row>, k: Key)
    requires !HasKey(rows, k)
    ensures WithKey(rows, k) == []
  {
    assert forall i | 0 <= i < |rows| :: rows[i].key != k;
    WithKeyNone(rows, k);
  }
}
