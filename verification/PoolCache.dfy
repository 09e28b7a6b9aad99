/** The buffer pool refines a plain map of pages. */
module PoolCache {
  import opened Basics
  import opened PoolModel

  // ---------------------------------------------------------------- claiming a frame

  /** The invariant with frame `f` in neither list. */
  ghost predicate Claimed(s: Pool, f: nat) {
    && |s.frames| == |s.pageIds| == |s.dirty| == BUFFER_SIZE && Dense(s.disk) && f < BUFFER_SIZE
    && NoDuplicates(s.free) && NoDuplicates(s.lru)
    && (forall x | x in s.free || x in s.lru :: x < BUFFER_SIZE && x != f)
    && (forall x | 0 <= x < BUFFER_SIZE && x != f :: x in s.free || x in s.lru)
    && (forall x | x in s.free :: x !in s.lru)
    && (forall p | p in s.pageTable :: s.pageTable[p] in s.lru && s.pageIds[s.pageTable[p]] == p && p in s.disk.table)
    && (forall x | x in s.lru :: s.pageIds[x] in s.pageTable && s.pageTable[s.pageIds[x]] == x)
    && (forall x | x in s.free :: s.pageIds[x] == -1 && !s.dirty[x])
    && (forall p | p in s.pageTable && !s.dirty[s.pageTable[p]] ::
          s.frames[s.pageTable[p]] == s.disk.content[s.disk.table[p]])
  }

  /** Readers see the same content of every page. */
  ghost predicate SameContent(s: Pool, s': Pool) {
    && Dense(s.disk) && Dense(s'.disk) && s'.disk.table == s.disk.table
    && |s.frames| == |s'.frames| == BUFFER_SIZE
    && (forall p | p in s.pageTable :: s.pageTable[p] < BUFFER_SIZE)
    && (forall p | p in s'.pageTable :: s'.pageTable[p] < BUFFER_SIZE)
    && forall p | p in s.disk.table :: Logical(s', p) == Logical(s, p)
  }

  lemma {:induction false} WriteKnown(d: Disk, id: int, data: Page)
    requires Dense(d) && id in d.table
    ensures var d' := WriteDisk(d, id, data);
            && Dense(d') && d'.table == d.table && d'.content[d'.table[id]] == data
            && forall p | p in d.table && p != id :: d'.content[d'.table[p]] == d.content[d.table[p]]
  {
    forall p | p in d.table && p != id
      ensures d.table[p] != d.table[id]
    {
      assert d.table[p] == p * PAGE_SIZE && d.table[id] == id * PAGE_SIZE;
    }
  }

  /** Evicting the least recently used frame, or taking a free one, changes no page's content. */
  lemma {:induction false} ClaimKeeps(s: Pool)
    requires Inv(s)
    ensures var c := ClaimFrame(s); Claimed(c.pool, c.frame) && SameContent(s, c.pool)
  {
    var c := ClaimFrame(s);
    if s.free == [] {
      ClaimVictim(s);
    } else {
      DropLast(s.free);
    }
  }

  lemma {:induction false} DropLast(s: seq<nat>)
    requires NoDuplicates(s) && s != []
    ensures var n := |s| - 1; NoDuplicates(s[..n]) && forall x :: x in s[..n] <==> x in s && x != s[n]
  {
    var n := |s| - 1;
    forall x | x in s && x != s[n]
      ensures x in s[..n]
    {
      var i :| 0 <= i < |s| && s[i] == x;
      assert s[..n][i] == x;
    }
  }

  lemma {:induction false} ClaimVictim(s: Pool)
    requires Inv(s) && s.free == []
    ensures var c := ClaimFrame(s); Claimed(c.pool, c.frame) && SameContent(s, c.pool)
  {
    var c := ClaimFrame(s);
    var n := |s.lru| - 1;
    var f := s.lru[n];
    assert f in s.lru;
    var gone := s.pageIds[f];
    assert gone in s.pageTable && s.pageTable[gone] == f && gone in s.disk.table;
    WriteKnown(s.disk, gone, s.frames[f]);
    DropLast(s.lru);
    forall x | x in c.pool.lru
      ensures s.pageIds[x] != gone
    {
      assert x in s.lru && x != f;
    }
    forall p | p in c.pool.pageTable
      ensures s.pageTable[p] in c.pool.lru
    {
      assert p != gone && s.pageTable[p] != f;
    }
  }

  lemma {:induction false} TouchNoDuplicates(s: seq<nat>, x: nat)
    requires NoDuplicates(s)
    ensures NoDuplicates(Without(s, x)) && NoDuplicates(Touch(s, x))
    ensures forall y :: y in Touch(s, x) <==> y in s || y == x
  {
    if s != [] {
      assert forall y | y in s[1..] :: y != s[0];
      assert NoDuplicates(s[1..]);
      TouchNoDuplicates(s[1..], x);
      if s[0] != x { ConsNoDuplicates(s[0], Without(s[1..], x)); }
    }
    ConsNoDuplicates(x, Without(s, x));
  }

  lemma ConsNoDuplicates(x: nat, s: seq<nat>)
    requires NoDuplicates(s) && x !in s
    ensures NoDuplicates([x] + s)
  {
  }

  /** Reading an absent page into a claimed frame restores the invariant and changes no content. */
  lemma {:induction false} InstallKeeps(s: Pool, f: nat, p: int)
    requires Claimed(s, f) && p in s.disk.table && p !in s.pageTable
    ensures Inv(Install(s, f, p)) && SameContent(s, Install(s, f, p))
  {
    InstallLists(s, f, p);
    InstallTable(s, f, p);
    var s' := Install(s, f, p);
    hide Touch, Without;
    assert Inv(s');
  }

  lemma {:induction false} InstallLists(s: Pool, f: nat, p: int)
    requires Claimed(s, f)
    ensures var s' := Install(s, f, p);
            && WellFormed(s') && NoDuplicates(s'.lru) && (forall x :: x in s'.lru <==> x in s.lru || x == f)
            && s'.free == s.free
  {
    TouchNoDuplicates(s.lru, f);
    var s' := Install(s, f, p);
    assert f in s'.lru && s'.lru != [];
  }

  lemma {:induction false} InstallTable(s: Pool, f: nat, p: int)
    requires Claimed(s, f) && p in s.disk.table && p !in s.pageTable
    ensures var s' := Install(s, f, p);
            && (forall q | q in s'.pageTable :: s'.pageIds[s'.pageTable[q]] == q && q in s'.disk.table)
            && (forall q | q in s.pageTable :: s.pageTable[q] != f && s'.pageTable[q] == s.pageTable[q])
            && (forall x | x in s.lru :: s'.pageIds[x] in s'.pageTable && s'.pageTable[s'.pageIds[x]] == x)
  {
    hide Touch, Without;
    assert forall q | q in s.pageTable :: s.pageTable[q] != f;
    assert forall x | x in s.lru :: s.pageIds[x] != p;
  }

  // ---------------------------------------------------------------- operations

  /** A fetch keeps the invariant and every page's content, and leaves the page resident in a frame with
      that content, most recently used. */
  lemma {:induction false} FetchKeeps(s: Pool, p: int)
    requires Inv(s) && (p == -1 || p in s.disk.table)
    ensures Inv(Fetch(s, p)) && SameContent(s, Fetch(s, p))
    ensures p != -1 ==>
              var s' := Fetch(s, p);
              p in s'.pageTable && s'.frames[s'.pageTable[p]] == Logical(s, p) && s'.lru[0] == s'.pageTable[p]
  {
    if p != -1 {
      if p in s.pageTable {
        TouchNoDuplicates(s.lru, s.pageTable[p]);
      } else {
        ClaimKeeps(s);
        var c := ClaimFrame(s);
        InstallKeeps(c.pool, c.frame, p);
        assert Logical(Fetch(s, p), p) == Logical(s, p);
      }
    }
  }

  lemma {:induction false} AllocateKeeps(s: Pool, f: nat)
    requires Claimed(s, f)
    ensures var a := Allocate(s.disk);
            var s' := s.(disk := a.disk);
            && Claimed(s', f) && a.offset / PAGE_SIZE == |s.disk.table| + 1
            && a.disk.table.Keys == s.disk.table.Keys + {|s.disk.table| + 1}
            && |s.disk.table| + 1 !in s.disk.table && |s.disk.table| + 1 !in s.pageTable
            && Logical(s', |s.disk.table| + 1) == EmptyPage(|s.disk.table| + 1)
            && forall p | p in s.disk.table :: Logical(s', p) == Logical(s, p)
  {
    AllocateDense(s.disk);
    var a := Allocate(s.disk);
    forall p | p in s.disk.table
      ensures a.disk.content[a.disk.table[p]] == s.disk.content[s.disk.table[p]]
    {
      assert s.disk.table[p] == p * PAGE_SIZE && a.offset == (|s.disk.table| + 1) * PAGE_SIZE;
    }
  }

  /** A new page gets the next dense id and an empty image; all other pages keep their content. */
  lemma {:induction false} NewPageKeeps(s: Pool)
    requires Inv(s)
    ensures var (s', id) := NewPage(s);
            && Inv(s') && id == |s.disk.table| + 1 && s'.disk.table.Keys == s.disk.table.Keys + {id}
            && id !in s.disk.table && id in s'.pageTable && s'.lru[0] == s'.pageTable[id]
            && Logical(s', id) == EmptyPage(id)
            && forall p | p in s.disk.table :: Logical(s', p) == Logical(s, p)
  {
    ClaimKeeps(s);
    var c := ClaimFrame(s);
    AllocateKeeps(c.pool, c.frame);
    var a := Allocate(c.pool.disk);
    InstallKeeps(c.pool.(disk := a.disk), c.frame, a.offset / PAGE_SIZE);
  }

  /** Dropping a page from the pool changes no content. */
  lemma {:induction false} DeleteKeeps(s: Pool, p: int)
    requires Inv(s)
    ensures Inv(DeletePage(s, p)) && SameContent(s, DeletePage(s, p))
  {
    if p in s.pageTable {
      var f := s.pageTable[p];
      WriteKnown(s.disk, p, s.frames[f]);
      var d := if s.dirty[f] then WriteDisk(s.disk, p, s.frames[f]) else s.disk;
      assert d.content[d.table[p]] == s.frames[f];
      ReleaseKeeps(s, p, d);
    }
  }

  /** Moving `f` from the LRU order to the end of the free list keeps the two a partition of the frames. */
  lemma {:induction false} ReleasePartition(free: seq<nat>, lru: seq<nat>, f: nat)
    requires NoDuplicates(free) && NoDuplicates(lru) && f in lru
    requires forall x | x in free :: x !in lru
    ensures NoDuplicates(free + [f]) && NoDuplicates(Without(lru, f))
    ensures forall x :: x in free + [f] <==> x in free || x == f
    ensures forall x | x in free + [f] :: x !in Without(lru, f)
  {
    TouchNoDuplicates(lru, f);
    assert f !in free;
  }

  /** Releasing the frame of a page whose content is on disk. */
  lemma {:induction false} ReleaseKeeps(s: Pool, p: int, d: Disk)
    requires Inv(s) && p in s.pageTable && Dense(d) && d.table == s.disk.table
    requires d.content[d.table[p]] == s.frames[s.pageTable[p]]
    requires forall q | q in d.table && q != p :: d.content[d.table[q]] == s.disk.content[s.disk.table[q]]
    ensures var s' := Released(s, p, d); Inv(s') && SameContent(s, s')
  {
    var f := s.pageTable[p];
    var s' := Released(s, p, d);
    hide Dense, NoDuplicates, Without;
    ReleasePartition(s.free, s.lru, f);
    assert WellFormed(s');
    ReleaseTable(s, p, d);
    assert Inv(s');
    ReleaseContent(s, p, d);
  }

  lemma {:induction false} ReleaseContent(s: Pool, p: int, d: Disk)
    requires Inv(s) && p in s.pageTable && Dense(d) && d.table == s.disk.table
    requires d.content[d.table[p]] == s.frames[s.pageTable[p]]
    requires forall q | q in d.table && q != p :: d.content[d.table[q]] == s.disk.content[s.disk.table[q]]
    ensures SameContent(s, Released(s, p, d))
  {
  }

  ghost function Released(s: Pool, p: int, d: Disk): Pool
    requires Inv(s) && p in s.pageTable
  {
    var f := s.pageTable[p];
    s.(disk := d, pageTable := s.pageTable - {p}, pageIds := s.pageIds[f := -1],
       dirty := s.dirty[f := false], free := s.free + [f], lru := Without(s.lru, f))
  }

  lemma {:induction false} ReleaseTable(s: Pool, p: int, d: Disk)
    requires Inv(s) && p in s.pageTable && d.table == s.disk.table
    ensures var s' := Released(s, p, d);
            && (forall q | q in s'.pageTable :: s'.pageTable[q] in s'.lru && s'.pageTable[q] != s.pageTable[p]
                  && s'.pageTable[q] == s.pageTable[q] && s'.pageIds[s'.pageTable[q]] == q)
            && (forall x | x in s'.lru :: s'.pageIds[x] in s'.pageTable && s'.pageTable[s'.pageIds[x]] == x)
  {
    var s' := Released(s, p, d);
    forall q | q in s'.pageTable
      ensures s.pageTable[q] != s.pageTable[p]
    {
    }
    forall x | x in s'.lru
      ensures s'.pageIds[x] in s'.pageTable && s'.pageTable[s'.pageIds[x]] == x
    {
      assert x in s.lru && x != s.pageTable[p];
      assert s'.pageIds[x] == s.pageIds[x] && s.pageIds[x] != p;
    }
  }

  /** A write changes the content of its page and of no other. */
  lemma {:induction false} WriteKeeps(s: Pool, p: int, data: Page)
    requires Inv(s) && p in s.pageTable
    ensures var s' := Write(s, p, data);
            && Inv(s') && s'.disk == s.disk && Logical(s', p) == data
            && forall q | q in s.disk.table && q != p :: Logical(s', q) == Logical(s, q)
  {
    assert forall q | q in s.pageTable && q != p :: s.pageTable[q] != s.pageTable[p];
  }

  /** The plain map of pages is what the pool implements: every operation commutes with the abstraction. */
  lemma {:induction false} StepRefines(s: Pool, r: Request)
    requires Inv(s) && Allowed(s, r)
    ensures Inv(Step(s, r)) && Abstract(Step(s, r)) == AbstractStep(Abstract(s), r)
  {
    match r
    case FetchOp(p) =>
      FetchKeeps(s, p);
      SameAbstract(s, Fetch(s, p));
    case NewOp =>
      NewPageKeeps(s);
      NewAbstract(s, NewPage(s).0);
    case DeleteOp(p) =>
      DeleteKeeps(s, p);
      SameAbstract(s, DeletePage(s, p));
    case WriteOp(p, data) =>
      WriteKeeps(s, p, data);
  }

  lemma {:induction false} SameAbstract(s: Pool, s': Pool)
    requires Inv(s) && Inv(s') && SameContent(s, s')
    ensures Abstract(s') == Abstract(s)
  {
  }

  lemma {:induction false} NewAbstract(s: Pool, s': Pool)
    requires Inv(s) && Inv(s')
    requires var id := |s.disk.table| + 1;
             && id !in s.disk.table && s'.disk.table.Keys == s.disk.table.Keys + {id}
                && Logical(s', id) == EmptyPage(id)
             && forall p | p in s.disk.table :: Logical(s', p) == Logical(s, p)
    ensures Abstract(s') == AbstractStep(Abstract(s), NewOp)
  {
    assert Abstract(s).Keys == s.disk.table.Keys;
    assert |Abstract(s)| == |Abstract(s).Keys| && |s.disk.table| == |s.disk.table.Keys|;
  }

  // ---------------------------------------------------------------- runs

  ghost predicate AllowedRun(s: Pool, rs: seq<Request>)
    requires Inv(s)
    decreases rs
  {
    rs != [] ==> Allowed(s, rs[0]) && (StepRefines(s, rs[0]); AllowedRun(Step(s, rs[0]), rs[1..]))
  }

  ghost function Run(s: Pool, rs: seq<Request>): (s': Pool)
    requires Inv(s) && AllowedRun(s, rs)
    ensures Inv(s')
    decreases rs
  {
    if rs == [] then s
    else
      StepRefines(s, rs[0]);
      Run(Step(s, rs[0]), rs[1..])
  }

  ghost function AbstractRun(m: map<int, Page>, rs: seq<Request>): map<int, Page>
    decreases rs
  {
    if rs == [] then m else AbstractRun(AbstractStep(m, rs[0]), rs[1..])
  }

  /** Over any run, readers see exactly the plain map of pages. */
  lemma {:induction false} RunRefines(s: Pool, rs: seq<Request>)
    requires Inv(s) && AllowedRun(s, rs)
    ensures Abstract(Run(s, rs)) == AbstractRun(Abstract(s), rs)
    decreases rs
  {
    if rs != [] {
      StepRefines(s, rs[0]);
      RunRefines(Step(s, rs[0]), rs[1..]);
    }
  }

  /** The empty pool over an empty file. */
  ghost function Initial(): Pool {
    Pool(seq(BUFFER_SIZE, _ => []), map[], seq(BUFFER_SIZE, _ => -1), seq(BUFFER_SIZE, _ => false),
         seq(BUFFER_SIZE, i => i), [], Disk(map[], map[], [], 100))
  }

  lemma {:induction false} InitialInv()
    ensures Inv(Initial()) && Abstract(Initial()) == map[]
  {
    var s := Initial();
    forall f | 0 <= f < BUFFER_SIZE
      ensures f in s.free
    {
      assert s.free[f] == f;
    }
  }

  // ---------------------------------------------------------------- shutdown

  /** Frames from `i` on may still differ from the disk; the others do not. */
  ghost predicate FlushedUpTo(s: Pool, d: Disk, i: nat)
    requires Inv(s)
  {
    && Dense(d) && d.table == s.disk.table
    && forall p | p in s.disk.table ::
         d.content[d.table[p]]
         == (if p in s.pageTable && s.pageTable[p] >= i then s.disk.content[s.disk.table[p]] else Logical(s, p))
  }

  lemma {:induction false} FlushStep(s: Pool, d: Disk, i: nat)
    requires Inv(s) && i < BUFFER_SIZE && FlushedUpTo(s, d, i)
    ensures var d' := if s.dirty[i] && s.pageIds[i] != -1 then WriteDisk(d, s.pageIds[i], s.frames[i]) else d;
            FlushedUpTo(s, d', i + 1)
  {
    if s.dirty[i] && s.pageIds[i] != -1 {
      assert i in s.lru;
      var p := s.pageIds[i];
      assert p in s.pageTable && s.pageTable[p] == i && p in d.table;
      WriteKnown(d, p, s.frames[i]);
      assert forall q | q in s.pageTable && q != p :: s.pageTable[q] != i;
    } else {
      forall q | q in s.pageTable && s.pageTable[q] == i
        ensures s.frames[i] == s.disk.content[s.disk.table[q]]
      {
        assert q in s.disk.table && q != -1;
      }
    }
  }

  lemma {:induction false} FlushAll(s: Pool, d: Disk, i: nat)
    requires Inv(s) && i <= BUFFER_SIZE && FlushedUpTo(s, d, i)
    ensures FlushedUpTo(s, FlushFrom(s.(disk := d), i), BUFFER_SIZE)
    decreases BUFFER_SIZE - i
  {
    if i < BUFFER_SIZE {
      var d' := if s.dirty[i] && s.pageIds[i] != -1 then WriteDisk(d, s.pageIds[i], s.frames[i]) else d;
      FlushStep(s, d, i);
      FlushAll(s, d', i + 1);
      assert s.(disk := d).(disk := d') == s.(disk := d');
    }
  }

  /** After the final flush the disk holds what readers saw. */
  lemma {:induction false} ShutdownFlush(s: Pool)
    requires Inv(s)
    ensures var d := FlushFrom(s, 0);
            && Dense(d) && d.table == s.disk.table
            && forall p | p in s.disk.table :: d.content[d.table[p]] == Logical(s, p)
  {
    assert s.(disk := s.disk) == s;
    FlushAll(s, s.disk, 0);
  }
}
