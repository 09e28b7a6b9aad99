/**
 The buffer pool as a value: frames, page table, free list and LRU order over a disk directory.
 Every operation of the program is a function from state to state.
 */
module PoolModel {
  import opened Basics
  import opened ByteCodec

  const BUFFER_SIZE: nat := 100

  /** Page images are opaque here, but for the one that a new page is given. */
  type Page = Bytes

  /** The image of an empty slotted page: page id, next page -1, no tuples, free space up to the end. */
  function EmptyPage(id: nat): (p: Page)
    ensures |p| == PAGE_SIZE
  {
    var header := LittleEndian(id % 0x1_0000, 4) + EncodeInt32(-1) + LittleEndian(0, 2) + LittleEndian(0, 2)
                  + LittleEndian(PAGE_SIZE, 2);
    header + seq(PAGE_SIZE - |header|, _ => 0)
  }

  // ---------------------------------------------------------------- disk

  /** The directory from page ids to file offsets, the content at each offset, reusable offsets, and how
      many pages the file has room for. */
  datatype Disk = Disk(table: map<int, nat>, content: map<nat, Page>, deleted: seq<nat>, capacity: nat)

  datatype Allocation = Allocation(disk: Disk, offset: nat)

  /** Reuses a deleted offset, or appends a page with the next dense id. */
  function Allocate(d: Disk): Allocation {
    if d.deleted != [] then
      Allocation(d.(deleted := d.deleted[..|d.deleted| - 1]), d.deleted[|d.deleted| - 1])
    else
      var id := |d.table| + 1;
      var offset := id * PAGE_SIZE;
      Allocation(d.(capacity := if |d.table| + 1 >= d.capacity then 2 * d.capacity else d.capacity,
                    content := d.content[offset := EmptyPage(id)],
                    table := d.table[id := offset]), offset)
  }

  /** Writes a page; an id without an offset is given one first. */
  function WriteDisk(d: Disk, id: int, data: Page): Disk {
    if id in d.table then d.(content := d.content[d.table[id] := data])
    else
      var a := Allocate(d);
      a.disk.(content := a.disk.content[a.offset := data], table := a.disk.table[id := a.offset])
  }

  /** Reads a page over a buffer, which is left as it is when the id is unknown. */
  function ReadDisk(d: Disk, id: int, buffer: Page): Page {
    if id in d.table && d.table[id] in d.content then d.content[d.table[id]] else buffer
  }

  /** The page ids are 1..n, the i-th at offset i * PAGE_SIZE with some content, inside the file. */
  ghost predicate Dense(d: Disk) {
    && d.deleted == []
    && (forall id :: id in d.table <==> 1 <= id <= |d.table|)
    && (forall id | id in d.table :: d.table[id] == id * PAGE_SIZE && d.table[id] in d.content)
    && |d.table| < d.capacity
  }

  lemma AllocateDense(d: Disk)
    requires Dense(d)
    ensures var a := Allocate(d);
            && Dense(a.disk) && a.offset / PAGE_SIZE == |d.table| + 1
            && a.disk.table == d.table[|d.table| + 1 := a.offset]
            && a.disk.content == d.content[a.offset := EmptyPage(|d.table| + 1)]
            && |d.table| + 1 !in d.table && a.disk.table.Keys == d.table.Keys + {|d.table| + 1}
  {
    hide EmptyPage;
    var id := |d.table| + 1;
    KeysGrow(d.table, id, id * PAGE_SIZE);
    DenseGrows(d, id, Allocate(d).disk, EmptyPage(id));
  }

  lemma DenseGrows(d: Disk, id: nat, d': Disk, page: Page)
    requires Dense(d) && id == |d.table| + 1 && d'.table == d.table[id := id * PAGE_SIZE] && d'.deleted == []
    requires d'.table.Keys == d.table.Keys + {id} && |d'.table| == id && id < d'.capacity
    requires d'.content == d.content[id * PAGE_SIZE := page]
    ensures Dense(d')
  {
    forall q | q in d'.table
      ensures d'.table[q] == q * PAGE_SIZE && d'.table[q] in d'.content
    {
      if q != id { assert q in d.table; }
    }
    forall q ensures q in d'.table <==> 1 <= q <= |d'.table| {
      assert q in d'.table.Keys <==> q in d.table.Keys || q == id;
    }
  }

  lemma KeysGrow(table: map<int, nat>, id: int, offset: nat)
    requires id !in table
    ensures table[id := offset].Keys == table.Keys + {id} && |table[id := offset]| == |table| + 1
  {
    assert table[id := offset].Keys == table.Keys + {id};
    assert |table[id := offset]| == |table[id := offset].Keys| && |table| == |table.Keys|;
  }

  // ---------------------------------------------------------------- pool

  /** `lru` lists the frames in use, most recently used first. */
  datatype Pool = Pool(frames: seq<Page>, pageTable: map<int, nat>, pageIds: seq<int>, dirty: seq<bool>,
                       free: seq<nat>, lru: seq<nat>, disk: Disk)

  function Without(s: seq<nat>, x: nat): (r: seq<nat>)
    ensures x !in r
    ensures forall y :: y in r <==> y in s && y != x
    ensures |r| <= |s|
  {
    if s == [] then []
    else (if s[0] == x then [] else [s[0]]) + Without(s[1..], x)
  }

  /** `x` moved or added to the front. */
  function Touch(s: seq<nat>, x: nat): seq<nat> {
    [x] + Without(s, x)
  }

  ghost predicate NoDuplicates<T>(s: seq<T>) {
    forall i, j | 0 <= i < j < |s| :: s[i] != s[j]
  }

  /** A frame taken from the free list, or from its least recently used page, written back if dirty. */
  datatype Claim = Claim(pool: Pool, frame: nat)

  ghost predicate WellFormed(s: Pool) {
    && |s.frames| == |s.pageIds| == |s.dirty| == BUFFER_SIZE
    && (forall f | f in s.free :: f < BUFFER_SIZE)
    && (forall f | f in s.lru :: f < BUFFER_SIZE)
    && (s.free == [] ==> s.lru != [])
    && (forall p | p in s.pageTable :: s.pageTable[p] < BUFFER_SIZE)
  }

  ghost function ClaimFrame(s: Pool): (c: Claim)
    requires WellFormed(s)
    ensures c.frame < BUFFER_SIZE
  {
    if s.free == [] then
      var n := |s.lru| - 1;
      var f := s.lru[n];
      assert f in s.lru;
      var evicted := s.pageIds[f];
      var disk := if s.dirty[f] then WriteDisk(s.disk, evicted, s.frames[f]) else s.disk;
      Claim(s.(lru := s.lru[..n], pageTable := s.pageTable - {evicted}, disk := disk), f)
    else
      var n := |s.free| - 1;
      assert s.free[n] in s.free;
      Claim(s.(free := s.free[..n]), s.free[n])
  }

  /** A page read from disk into a claimed frame. */
  ghost function Install(s: Pool, f: nat, p: int): Pool
    requires f < |s.frames| == |s.pageIds| == |s.dirty|
  {
    s.(frames := s.frames[f := ReadDisk(s.disk, p, s.frames[f])], pageIds := s.pageIds[f := p],
       dirty := s.dirty[f := false], pageTable := s.pageTable[p := f], lru := Touch(s.lru, f))
  }

  ghost function Fetch(s: Pool, p: int): Pool
    requires WellFormed(s)
  {
    if p == -1 then s
    else if p in s.pageTable then s.(lru := if s.pageTable[p] in s.lru then Touch(s.lru, s.pageTable[p]) else s.lru)
    else
      var c := ClaimFrame(s);
      Install(c.pool, c.frame, p)
  }

  ghost function NewPage(s: Pool): (r: (Pool, int))
    requires WellFormed(s)
  {
    var c := ClaimFrame(s);
    var a := Allocate(c.pool.disk);
    var id := a.offset / PAGE_SIZE;
    (Install(c.pool.(disk := a.disk), c.frame, id), id)
  }

  ghost function DeletePage(s: Pool, p: int): Pool
    requires WellFormed(s)
  {
    if p !in s.pageTable then s
    else
      var f := s.pageTable[p];
      s.(disk := if s.dirty[f] then WriteDisk(s.disk, p, s.frames[f]) else s.disk,
         pageTable := s.pageTable - {p}, pageIds := s.pageIds[f := -1], dirty := s.dirty[f := false],
         free := s.free + [f], lru := Without(s.lru, f))
  }

  /** A resident page overwritten through its frame and marked dirty. */
  ghost function Write(s: Pool, p: int, data: Page): Pool
    requires WellFormed(s) && p in s.pageTable
  {
    var f := s.pageTable[p];
    s.(frames := s.frames[f := data], dirty := s.dirty[f := true])
  }

  /** The disk after all dirty frames from `i` on were written back. */
  ghost function FlushFrom(s: Pool, i: nat): Disk
    requires |s.frames| == |s.pageIds| == |s.dirty| == BUFFER_SIZE && i <= BUFFER_SIZE
    decreases BUFFER_SIZE - i
  {
    if i == BUFFER_SIZE then s.disk
    else
      var d := if s.dirty[i] && s.pageIds[i] != -1 then WriteDisk(s.disk, s.pageIds[i], s.frames[i]) else s.disk;
      FlushFrom(s.(disk := d), i + 1)
  }

  // ---------------------------------------------------------------- what every reachable pool satisfies

  ghost predicate Inv(s: Pool) {
    && WellFormed(s) && Dense(s.disk)
    // the free list and the LRU order partition the frames
    && NoDuplicates(s.free) && NoDuplicates(s.lru)
    && (forall f | 0 <= f < BUFFER_SIZE :: f in s.free || f in s.lru)
    && (forall f | f in s.free :: f !in s.lru)
    // the page table and the page ids of frames in use are inverse
    && (forall p | p in s.pageTable :: s.pageTable[p] in s.lru && s.pageIds[s.pageTable[p]] == p && p in s.disk.table)
    && (forall f | f in s.lru :: s.pageIds[f] in s.pageTable && s.pageTable[s.pageIds[f]] == f)
    && (forall f | f in s.free :: s.pageIds[f] == -1 && !s.dirty[f])
    // a clean frame has the content on disk
    && (forall p | p in s.pageTable && !s.dirty[s.pageTable[p]] ::
          s.frames[s.pageTable[p]] == s.disk.content[s.disk.table[p]])
  }

  /** What a reader sees of page p: its frame if it is resident, else the disk. */
  ghost function Logical(s: Pool, p: int): Page
    requires Dense(s.disk) && p in s.disk.table && (p in s.pageTable ==> s.pageTable[p] < |s.frames|)
  {
    if p in s.pageTable then s.frames[s.pageTable[p]] else s.disk.content[s.disk.table[p]]
  }

  /** All pages as readers see them. */
  ghost function Abstract(s: Pool): map<int, Page>
    requires Inv(s)
  {
    map p | p in s.disk.table :: Logical(s, p)
  }

  // ---------------------------------------------------------------- runs

  datatype Request = FetchOp(p: int) | NewOp | DeleteOp(p: int) | WriteOp(p: int, data: Page)

  /** Fetched ids were handed out before or are -1; writes go to resident pages. */
  ghost predicate Allowed(s: Pool, r: Request) {
    match r
    case FetchOp(p) => p == -1 || p in s.disk.table
    case NewOp => true
    case DeleteOp(_) => true
    case WriteOp(p, _) => p in s.pageTable
  }

  ghost function Step(s: Pool, r: Request): Pool
    requires WellFormed(s) && Allowed(s, r)
  {
    match r
    case FetchOp(p) => Fetch(s, p)
    case NewOp => NewPage(s).0
    case DeleteOp(p) => DeletePage(s, p)
    case WriteOp(p, data) => Write(s, p, data)
  }

  /** The same operation on a plain map of pages. */
  ghost function AbstractStep(m: map<int, Page>, r: Request): map<int, Page> {
    match r
    case NewOp => m[|m| + 1 := EmptyPage(|m| + 1)]
    case WriteOp(p, data) => m[p := data]
    case _ => m
  }
}
