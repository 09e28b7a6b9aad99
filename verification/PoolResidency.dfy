/** How long an unpinned page keeps its frame. */
module PoolResidency {
  import opened PoolModel
  import opened PoolCache

  // ---------------------------------------------------------------- positions in the LRU order

  /** The frames used more recently than `x`. */
  ghost function Before(s: seq<nat>, x: nat): (r: set<nat>)
    ensures x !in r
    ensures forall y | y in r :: y in s
  {
    if s == [] || s[0] == x then {} else {s[0]} + Before(s[1..], x)
  }

  lemma {:induction false} BeforeWithout(s: seq<nat>, x: nat, y: nat)
    requires x != y
    ensures Before(Without(s, y), x) == Before(s, x) - {y}
  {
    if s != [] {
      BeforeWithout(s[1..], x, y);
      var rest := Without(s[1..], y);
      if s[0] != y { assert ([s[0]] + rest)[1..] == rest; } else { assert [] + rest == rest; }
    }
  }

  lemma {:induction false} BeforeTouch(s: seq<nat>, x: nat, y: nat)
    ensures Before(Touch(s, y), x) == if x == y then {} else Before(s, x) + {y}
  {
    if x != y {
      BeforeWithout(s, x, y);
      assert Touch(s, y)[1..] == Without(s, y);
    }
  }

  lemma {:induction false} BeforeDropLast(s: seq<nat>, x: nat)
    requires s != [] && x in s[..|s| - 1]
    ensures Before(s[..|s| - 1], x) == Before(s, x)
  {
    var t := s[..|s| - 1];
    if s[0] != x {
      assert s[1..][..|s| - 2] == t[1..];
      BeforeDropLast(s[1..], x);
    }
  }

  lemma {:induction false} BeforeLast(s: seq<nat>)
    requires NoDuplicates(s) && s != []
    ensures |Before(s, s[|s| - 1])| == |s| - 1
  {
    if |s| > 1 {
      assert NoDuplicates(s[1..]);
      BeforeLast(s[1..]);
      assert s[0] !in s[1..];
    }
  }

  /** With no free frame every frame is in the LRU order. */
  lemma {:induction false} FullOrder(s: Pool)
    requires Inv(s) && s.free == []
    ensures |s.lru| == BUFFER_SIZE
  {
    forall f: nat | f < BUFFER_SIZE ensures f in s.lru { assert f in s.free || f in s.lru; }
    OrderOfAll(s.lru, BUFFER_SIZE);
  }

  ghost function UpTo(n: nat): (r: set<nat>)
    ensures |r| == n && forall x: nat :: x in r <==> x < n
  {
    if n == 0 then {} else UpTo(n - 1) + {n - 1}
  }

  ghost function Elements(s: seq<nat>): (r: set<nat>)
    ensures forall x :: x in r <==> x in s
  {
    if s == [] then {} else {s[0]} + Elements(s[1..])
  }

  lemma {:induction false} OrderOfAll(s: seq<nat>, n: nat)
    requires NoDuplicates(s) && forall x: nat :: x in s <==> x < n
    ensures |s| == n
  {
    ElementsSize(s);
    assert Elements(s) == UpTo(n);
  }

  lemma {:induction false} ElementsSize(s: seq<nat>)
    requires NoDuplicates(s)
    ensures |Elements(s)| == |s|
  {
    if s != [] {
      assert NoDuplicates(s[1..]);
      ElementsSize(s[1..]);
      assert forall i | 0 <= i < |s| - 1 :: s[1..][i] == s[i + 1];
      assert s[0] !in s[1..];
    }
  }

  lemma {:induction false} FewerThan(fs: set<nat>, f: nat, n: nat)
    requires f < n && f !in fs && forall x | x in fs :: x < n
    ensures |fs| < n
  {
    SubsetSize(fs, UpTo(n) - {f});
  }

  // ---------------------------------------------------------------- pages requested since

  /** The pages held by a set of frames. */
  ghost function Pages(ids: seq<int>, fs: set<nat>): set<int>
    requires forall x | x in fs :: x < |ids|
  {
    set x | x in fs :: ids[x]
  }

  /** The pages that were requested more recently than the one in frame `f`. */
  ghost function Newer(s: Pool, f: nat): set<int>
    requires Inv(s)
  {
    Pages(s.pageIds, Before(s.lru, f))
  }

  lemma {:induction false} NewerSize(s: Pool, f: nat)
    requires Inv(s)
    ensures |Newer(s, f)| == |Before(s.lru, f)|
  {
    assert forall x | x in s.lru :: s.pageTable[s.pageIds[x]] == x;
    ImageSize(s.pageIds, Before(s.lru, f));
  }

  lemma {:induction false} ImageSize(ids: seq<int>, fs: set<nat>)
    requires forall x | x in fs :: x < |ids|
    requires forall x, y | x in fs && y in fs && x != y :: ids[x] != ids[y]
    ensures |Pages(ids, fs)| == |fs|
    decreases |fs|
  {
    if fs != {} {
      var x :| x in fs;
      ImageSize(ids, fs - {x});
      assert Pages(ids, fs) == Pages(ids, fs - {x}) + {ids[x]};
    }
  }

  /** Putting page q, in frame g, before `f`. */
  lemma {:induction false} PagesGrow(ids: seq<int>, ids': seq<int>, fs: set<nat>, g: nat, q: int)
    requires |ids| == |ids'| && g < |ids| && ids'[g] == q
    requires forall x | x in fs :: x < |ids| && ids'[x] == ids[x]
    ensures Pages(ids', fs + {g}) == Pages(ids, fs) + {q}
  {
    forall y | y in Pages(ids, fs) + {q} ensures y in Pages(ids', fs + {g}) {
      if y == q {
        assert g in fs + {g};
      } else {
        var x :| x in fs && ids[x] == y;
        assert x in fs + {g} && ids'[x] == y;
      }
    }
  }

  /** The page a request asks for. */
  ghost function Asked(s: Pool, r: Request): set<int>
    requires WellFormed(s)
  {
    match r
    case FetchOp(p) => if p == -1 then {} else {p}
    case NewOp => {NewPage(s).1}
    case _ => {}
  }

  /** All the pages a run asks for. */
  ghost function AskedBy(s: Pool, rs: seq<Request>): set<int>
    requires Inv(s) && AllowedRun(s, rs)
    decreases rs
  {
    if rs == [] then {}
    else
      StepRefines(s, rs[0]);
      Asked(s, rs[0]) + AskedBy(Step(s, rs[0]), rs[1..])
  }

  ghost predicate Resident(s: Pool, p: int, f: nat) {
    p in s.pageTable && s.pageTable[p] == f
  }

  // ---------------------------------------------------------------- one step

  /** Taking a frame for a page that is not resident costs page p its frame only if p is the least
      recently used of BUFFER_SIZE pages. */
  lemma {:induction false} ClaimSpares(s: Pool, p: int, f: nat)
    requires Inv(s) && Resident(s, p, f)
    ensures var c := ClaimFrame(s);
            if Resident(c.pool, p, f) then Before(c.pool.lru, f) == Before(s.lru, f) && c.frame != f
            else c.frame == f && p !in c.pool.pageTable && |Newer(s, f)| == BUFFER_SIZE - 1
  {
    var c := ClaimFrame(s);
    if s.free == [] {
      assert s.lru[|s.lru| - 1] in s.lru;
      if s.lru[|s.lru| - 1] == f { LastOfAll(s, f); } else { BeforeDropLast(s.lru, f); }
    } else {
      assert s.free[|s.free| - 1] in s.free;
    }
  }

  lemma {:induction false} LastOfAll(s: Pool, f: nat)
    requires Inv(s) && s.free == [] && f == s.lru[|s.lru| - 1]
    ensures |Newer(s, f)| == BUFFER_SIZE - 1
  {
    FullOrder(s);
    BeforeLast(s.lru);
    NewerSize(s, f);
  }

  /** The frames before `f` hold the same pages after page q was put in frame g. */
  lemma {:induction false} NewerAfterInstall(s: Pool, c: Claim, p: int, f: nat, q: int, s': Pool)
    requires Inv(s) && Inv(s') && Resident(s, p, f) && c == ClaimFrame(s) && Resident(c.pool, p, f)
    requires q !in s.pageTable
    requires s'.lru == Touch(c.pool.lru, c.frame) && s'.pageIds == c.pool.pageIds[c.frame := q]
    requires s'.pageTable == c.pool.pageTable[q := c.frame]
    ensures Resident(s', p, f) && Newer(s', f) == Newer(s, f) + {q}
  {
    ClaimSpares(s, p, f);
    BeforeTouch(c.pool.lru, f, c.frame);
    ClaimKeeps(s);
    assert c.frame !in c.pool.lru;
    assert forall x | x in Before(s.lru, f) :: x != c.frame && s'.pageIds[x] == s.pageIds[x];
    PagesGrow(s.pageIds, s'.pageIds, Before(s.lru, f), c.frame, q);
  }

  /** A request for another page puts that page, and no other, in front of p; p loses its frame exactly
      when its frame is needed for a BUFFER_SIZE-th other page. */
  lemma {:induction false} RequestMoves(s: Pool, r: Request, p: int, f: nat)
    requires Inv(s) && Allowed(s, r) && Resident(s, p, f)
    requires r.FetchOp? || r.NewOp?
    requires p !in Asked(s, r)
    ensures Inv(Step(s, r))
    ensures var s' := Step(s, r);
            var newer := Newer(s, f) + Asked(s, r);
            if |newer| < BUFFER_SIZE then Resident(s', p, f) && Newer(s', f) == newer else p !in s'.pageTable
  {
    StepRefines(s, r);
    NewerSize(s, f);
    BeforeBound(s, f);
    match r
    case FetchOp(q) =>
      if q != -1 {
        if q in s.pageTable {
          FetchMoves(s, q, p, f);
        } else {
          MissMoves(s, q, p, f, Step(s, r));
        }
      }
    case NewOp =>
      NewPageKeeps(s);
      MissMoves(s, NewPage(s).1, p, f, Step(s, r));
  }

  lemma {:induction false} BeforeBound(s: Pool, f: nat)
    requires Inv(s) && f in s.lru
    ensures |Before(s.lru, f)| < BUFFER_SIZE
  {
    FewerThan(Before(s.lru, f), f, BUFFER_SIZE);
  }

  lemma {:induction false} SubsetSize<T>(a: set<T>, b: set<T>)
    requires a <= b
    ensures |a| <= |b|
  {
    assert b == a + (b - a);
  }

  lemma {:induction false} FetchMoves(s: Pool, q: int, p: int, f: nat)
    requires Inv(s) && Resident(s, p, f) && q in s.pageTable && q != p && q != -1 && Inv(Fetch(s, q))
    ensures Resident(Fetch(s, q), p, f) && Newer(Fetch(s, q), f) == Newer(s, f) + {q}
    ensures |Newer(s, f) + {q}| < BUFFER_SIZE
  {
    var g := s.pageTable[q];
    var s' := Fetch(s, q);
    BeforeTouch(s.lru, f, g);
    PagesGrow(s.pageIds, s'.pageIds, Before(s.lru, f), g, q);
    NewerSize(s', f);
    BeforeBound(s', f);
  }

  lemma {:induction false} MissMoves(s: Pool, q: int, p: int, f: nat, s': Pool)
    requires Inv(s) && Inv(s') && Resident(s, p, f) && q !in s.pageTable
    requires var c := ClaimFrame(s);
             && s'.lru == Touch(c.pool.lru, c.frame) && s'.pageIds == c.pool.pageIds[c.frame := q]
             && s'.pageTable == c.pool.pageTable[q := c.frame]
    ensures var newer := Newer(s, f) + {q};
            if |newer| < BUFFER_SIZE then Resident(s', p, f) && Newer(s', f) == newer else p !in s'.pageTable
  {
    var c := ClaimFrame(s);
    ClaimSpares(s, p, f);
    assert forall x | x in s.lru :: s.pageIds[x] in s.pageTable;
    assert q !in Newer(s, f);
    if Resident(c.pool, p, f) {
      NewerAfterInstall(s, c, p, f, q, s');
      NewerSize(s', f);
      BeforeBound(s', f);
    }
  }

  // ---------------------------------------------------------------- runs

  /** Re-requesting p moves it to the front; deleting another page or writing puts nothing in front of p. */
  lemma {:induction false} OtherStepsSpare(s: Pool, r: Request, p: int, f: nat)
    requires Inv(s) && Allowed(s, r) && Resident(s, p, f)
    requires r == FetchOp(p) || r == FetchOp(-1) || r.WriteOp? || (r.DeleteOp? && r.p != p)
    ensures Inv(Step(s, r)) && Resident(Step(s, r), p, f) && Newer(Step(s, r), f) <= Newer(s, f)
  {
    StepRefines(s, r);
    match r
    case FetchOp(q) => BeforeTouch(s.lru, f, f);
    case DeleteOp(q) =>
      if q in s.pageTable {
        var g := s.pageTable[q];
        BeforeWithout(s.lru, f, g);
        assert DeletePage(s, q).lru == Without(s.lru, g);
        assert forall x | x in Before(DeletePage(s, q).lru, f) :: DeletePage(s, q).pageIds[x] == s.pageIds[x];
      }
    case _ =>
  }

  /** One step of a run that keeps p's frame. */
  lemma {:induction false} KeepsFrameStep(s: Pool, r: Request, p: int, f: nat, seen: set<int>)
    requires Inv(s) && Allowed(s, r) && Resident(s, p, f) && Newer(s, f) <= seen && r != DeleteOp(p)
    requires |seen + (Asked(s, r) - {p})| < BUFFER_SIZE
    ensures Inv(Step(s, r)) && Resident(Step(s, r), p, f) && Newer(Step(s, r), f) <= seen + (Asked(s, r) - {p})
  {
    if (r.FetchOp? && r.p != p && r.p != -1) || r.NewOp? {
      NotAskedAgain(s, r, p);
      SubsetSize(Newer(s, f) + Asked(s, r), seen + (Asked(s, r) - {p}));
      RequestMoves(s, r, p, f);
    } else {
      OtherStepsSpare(s, r, p, f);
    }
  }

  lemma {:induction false} NotAskedAgain(s: Pool, r: Request, p: int)
    requires Inv(s) && p in s.pageTable && (r.NewOp? || (r.FetchOp? && r.p != p))
    ensures p !in Asked(s, r)
  {
    if r.NewOp? { NewPageKeeps(s); }
  }

  lemma {:induction false} RunUnfold(s: Pool, rs: seq<Request>)
    requires Inv(s) && AllowedRun(s, rs) && rs != []
    ensures Allowed(s, rs[0]) && Inv(Step(s, rs[0])) && AllowedRun(Step(s, rs[0]), rs[1..])
    ensures Run(s, rs) == Run(Step(s, rs[0]), rs[1..])
    ensures AskedBy(s, rs) == Asked(s, rs[0]) + AskedBy(Step(s, rs[0]), rs[1..])
  {
    StepRefines(s, rs[0]);
  }

  /** Until BUFFER_SIZE distinct other pages have been requested, p keeps its frame: the general form, with
      the pages in `seen` already requested. */
  lemma {:induction false} KeepsFrame(s: Pool, rs: seq<Request>, p: int, f: nat, seen: set<int>)
    requires Inv(s) && AllowedRun(s, rs) && Resident(s, p, f) && Newer(s, f) <= seen
    requires DeleteOp(p) !in rs
    requires |seen + (AskedBy(s, rs) - {p})| < BUFFER_SIZE
    ensures Resident(Run(s, rs), p, f)
    decreases rs
  {
    if rs != [] {
      KeepsFrameHead(s, rs, p, f, seen);
      KeepsFrame(Step(s, rs[0]), rs[1..], p, f, seen + (Asked(s, rs[0]) - {p}));
    }
  }

  lemma {:induction false} KeepsFrameHead(s: Pool, rs: seq<Request>, p: int, f: nat, seen: set<int>)
    requires Inv(s) && AllowedRun(s, rs) && Resident(s, p, f) && Newer(s, f) <= seen
    requires rs != [] && rs[0] != DeleteOp(p)
    requires |seen + (AskedBy(s, rs) - {p})| < BUFFER_SIZE
    ensures Allowed(s, rs[0]) && Inv(Step(s, rs[0])) && AllowedRun(Step(s, rs[0]), rs[1..])
    ensures var s' := Step(s, rs[0]);
            var seen' := seen + (Asked(s, rs[0]) - {p});
            && Resident(s', p, f) && Newer(s', f) <= seen'
            && |seen' + (AskedBy(s', rs[1..]) - {p})| < BUFFER_SIZE
            && Run(s, rs) == Run(s', rs[1..])
  {
    RunUnfold(s, rs);
    SetsAgree(seen, Asked(s, rs[0]), AskedBy(Step(s, rs[0]), rs[1..]), p);
    KeepsFrameStep(s, rs[0], p, f, seen);
  }

  lemma {:induction false} SetsAgree(seen: set<int>, one: set<int>, rest: set<int>, p: int)
    ensures seen + (one - {p}) + (rest - {p}) == seen + (one + rest - {p})
    ensures |seen + (one - {p})| <= |seen + (one + rest - {p})|
  {
    assert seen + (one - {p}) + (rest - {p}) == seen + (one + rest - {p});
    SubsetSize(seen + (one - {p}), seen + (one + rest - {p}));
  }

  /** A page just fetched or created keeps its frame over every run that does not delete it and asks for
      fewer than BUFFER_SIZE distinct other pages. */
  lemma {:induction false} ResidencyBound(s: Pool, rs: seq<Request>, p: int)
    requires Inv(s) && AllowedRun(s, rs) && p in s.pageTable && s.lru[0] == s.pageTable[p]
    requires DeleteOp(p) !in rs
    requires |AskedBy(s, rs) - {p}| < BUFFER_SIZE
    ensures Resident(Run(s, rs), p, s.pageTable[p])
  {
    assert {} + (AskedBy(s, rs) - {p}) == AskedBy(s, rs) - {p};
    KeepsFrame(s, rs, p, s.pageTable[p], {});
  }

  ghost predicate NoDeletes(rs: seq<Request>) {
    forall i | 0 <= i < |rs| :: !rs[i].DeleteOp?
  }

  /** A page that is out of the pool comes back only on request. */
  lemma {:induction false} StaysOut(s: Pool, rs: seq<Request>, p: int)
    requires Inv(s) && AllowedRun(s, rs) && p !in s.pageTable && p !in AskedBy(s, rs)
    ensures p !in Run(s, rs).pageTable
    decreases rs
  {
    if rs != [] {
      StepRefines(s, rs[0]);
      StaysOut(Step(s, rs[0]), rs[1..], p);
    }
  }

  /** One step of a run without deletes: the pages in front of p are exactly those asked for. */
  lemma {:induction false} ExactStep(s: Pool, r: Request, p: int, f: nat)
    requires Inv(s) && Allowed(s, r) && Resident(s, p, f) && !r.DeleteOp? && p !in Asked(s, r)
    ensures Inv(Step(s, r))
    ensures var newer := Newer(s, f) + Asked(s, r);
            if |newer| < BUFFER_SIZE then Resident(Step(s, r), p, f) && Newer(Step(s, r), f) == newer
            else p !in Step(s, r).pageTable
  {
    if (r.FetchOp? && r.p != -1) || r.NewOp? {
      RequestMoves(s, r, p, f);
    } else {
      OtherStepsSpare(s, r, p, f);
      NewerSize(s, f);
      BeforeBound(s, f);
      assert Asked(s, r) == {};
      assert Newer(s, f) + {} == Newer(s, f);
      assert Step(s, r).lru == s.lru && Step(s, r).pageIds == s.pageIds;
    }
  }

  lemma {:induction false} KeepsFrameExactly(s: Pool, rs: seq<Request>, p: int, f: nat)
    requires Inv(s) && AllowedRun(s, rs) && Resident(s, p, f) && NoDeletes(rs) && p !in AskedBy(s, rs)
    ensures p in Run(s, rs).pageTable <==> |Newer(s, f) + AskedBy(s, rs)| < BUFFER_SIZE
    decreases rs
  {
    if rs == [] {
      NewerBound(s, f);
    } else {
      ExactHead(s, rs, p, f);
      if |Newer(s, f) + Asked(s, rs[0])| < BUFFER_SIZE {
        KeepsFrameExactly(Step(s, rs[0]), rs[1..], p, f);
      } else {
        StaysOut(Step(s, rs[0]), rs[1..], p);
      }
    }
  }

  lemma {:induction false} NewerBound(s: Pool, f: nat)
    requires Inv(s) && f in s.lru
    ensures |Newer(s, f) + {}| < BUFFER_SIZE
  {
    NewerSize(s, f);
    BeforeBound(s, f);
    assert Newer(s, f) + {} == Newer(s, f);
  }

  lemma {:induction false} ExactHead(s: Pool, rs: seq<Request>, p: int, f: nat)
    requires Inv(s) && AllowedRun(s, rs) && Resident(s, p, f) && NoDeletes(rs) && p !in AskedBy(s, rs) && rs != []
    ensures Allowed(s, rs[0]) && Inv(Step(s, rs[0])) && AllowedRun(Step(s, rs[0]), rs[1..]) && NoDeletes(rs[1..])
    ensures var s' := Step(s, rs[0]);
            && Run(s, rs) == Run(s', rs[1..]) && p !in AskedBy(s', rs[1..])
            && if |Newer(s, f) + Asked(s, rs[0])| < BUFFER_SIZE
               then Resident(s', p, f) && Newer(s', f) + AskedBy(s', rs[1..]) == Newer(s, f) + AskedBy(s, rs)
               else p !in s'.pageTable && |Newer(s, f) + AskedBy(s, rs)| >= BUFFER_SIZE
  {
    RunUnfold(s, rs);
    ExactStep(s, rs[0], p, f);
    Regroup(Newer(s, f), Asked(s, rs[0]), AskedBy(Step(s, rs[0]), rs[1..]));
  }

  lemma {:induction false} Regroup(a: set<int>, b: set<int>, c: set<int>)
    ensures a + b + c == a + (b + c) && |a + b| <= |a + (b + c)|
  {
    assert a + b + c == a + (b + c);
    SubsetSize(a + b, a + (b + c));
  }

  /** Without deletes, and until it is asked for again, a page just fetched or created is resident exactly
      while fewer than BUFFER_SIZE distinct other pages have been requested. */
  lemma {:induction false} ResidencyExact(s: Pool, rs: seq<Request>, p: int)
    requires Inv(s) && AllowedRun(s, rs) && p in s.pageTable && s.lru[0] == s.pageTable[p]
    requires NoDeletes(rs) && p !in AskedBy(s, rs)
    ensures p in Run(s, rs).pageTable <==> |AskedBy(s, rs)| < BUFFER_SIZE
  {
    assert Newer(s, s.pageTable[p]) + AskedBy(s, rs) == AskedBy(s, rs);
    KeepsFrameExactly(s, rs, p, s.pageTable[p]);
  }
}
