/** The buffer pool manager over its arrays, page table, free list, LRU list and disk manager. */
module BufferPools {
  import opened Basics
  import opened ByteCodec
  import opened PoolModel
  import opened PoolCache
  import opened PoolResidency
  import opened LruList

  class DiskManager {
    var pagesTable: map<int, nat>
    var deletedSlots: seq<nat>
    var capacity: nat
    /** The database file: the page at each offset that was written. */
    var file: map<nat, Page>

    function State(): Disk
      reads this
    {
      Disk(pagesTable, file, deletedSlots, capacity)
    }

    constructor ()
      ensures State() == Disk(map[], map[], [], 100)
    {
      pagesTable, deletedSlots, capacity, file := map[], [], 100, map[];
    }

    method AllocatePage() returns (offset: nat)
      modifies this
      ensures Allocation(State(), offset) == Allocate(old(State()))
    {
      if deletedSlots != [] {
        offset := deletedSlots[|deletedSlots| - 1];
        deletedSlots := deletedSlots[..|deletedSlots| - 1];
        return;
      }
      if |pagesTable| + 1 >= capacity {
        ResizeFile();
      }
      var id := |pagesTable| + 1;
      offset := id * PAGE_SIZE;
      file := file[offset := EmptyPage(id)];
      pagesTable := pagesTable[id := offset];
    }

    method ResizeFile()
      modifies this`capacity
      ensures capacity == 2 * old(capacity)
    {
      capacity := capacity * 2;
    }

    method WritePage(id: int, data: Page)
      modifies this
      ensures State() == WriteDisk(old(State()), id, data)
    {
      var offset: nat;
      if id in pagesTable {
        offset := pagesTable[id];
      } else {
        offset := AllocatePage();
      }
      file := file[offset := data];
      pagesTable := pagesTable[id := offset];
    }

    /** The page read over the given buffer. */
    method ReadPage(id: int, buffer: Page) returns (data: Page)
      ensures data == ReadDisk(State(), id, buffer)
    {
      if id !in pagesTable {
        return buffer;
      }
      var offset := pagesTable[id];
      data := if offset in file then file[offset] else buffer;
    }
  }

  /** A claimed frame leaves room in the LRU order. */
  lemma {:induction false} RoomForClaimed(s: Pool, f: nat)
    requires Claimed(s, f)
    ensures |s.lru| < BUFFER_SIZE && f !in s.lru
  {
    ElementsSize(s.lru);
    FewerThan(Elements(s.lru), f, BUFFER_SIZE);
  }

  lemma InstallMaps(s: Pool, f: nat, p: int)
    requires f < |s.frames| == |s.pageIds| == |s.dirty|
    ensures Install(s, f, p).pageTable == s.pageTable[p := f]
  {
  }

  /** The frame of a fetched page shows its content. */
  lemma FetchShows(s: Pool, p: int)
    requires Inv(s) && (p == -1 || p in s.disk.table)
    ensures WellFormed(s) && Inv(Fetch(s, p)) && Dense(s.disk)
    ensures p == -1 ==> Fetch(s, p) == s
    ensures var t := Fetch(s, p);
            p != -1 ==> (p in s.pageTable ==> s.pageTable[p] < |s.frames|)
                        && p in t.pageTable && t.pageTable[p] < |t.frames| && t.frames[t.pageTable[p]] == Logical(s, p)
  {
    FetchKeeps(s, p);
  }

  /** One frame flushed. */
  lemma FlushOne(s: Pool, d: Disk, i: nat)
    requires |s.frames| == |s.pageIds| == |s.dirty| == BUFFER_SIZE && i < BUFFER_SIZE
    ensures var d' := if s.dirty[i] && s.pageIds[i] != -1 then WriteDisk(d, s.pageIds[i], s.frames[i]) else d;
            FlushFrom(s.(disk := d), i) == FlushFrom(s.(disk := d'), i + 1)
  {
    var d' := if s.dirty[i] && s.pageIds[i] != -1 then WriteDisk(d, s.pageIds[i], s.frames[i]) else d;
    assert s.(disk := d).(disk := d') == s.(disk := d');
  }

  lemma FlushEnd(s: Pool, d: Disk)
    requires |s.frames| == |s.pageIds| == |s.dirty| == BUFFER_SIZE
    ensures FlushFrom(s.(disk := d), BUFFER_SIZE) == d && s.(disk := s.disk) == s
  {
  }

  class BufferPool {
    const frames: array<Page>
    const isDirty: array<bool>
    const pageIds: array<int>
    var pageTable: map<int, nat>
    var freeFrames: seq<nat>
    const lru: Lru
    const disk: DiskManager

    ghost function State(): Pool
      reads this, frames, isDirty, pageIds, lru, disk
    {
      Pool(frames[..], pageTable, pageIds[..], isDirty[..], freeFrames, lru.keys, disk.State())
    }

    /** The parts are in place; the state may be that of a pool between two steps. */
    ghost predicate Assembled()
      reads this, frames, isDirty, pageIds, lru, lru.repr, disk
    {
      && lru.Valid() && lru.capacity == BUFFER_SIZE
      && frames.Length == isDirty.Length == pageIds.Length == BUFFER_SIZE
    }

    ghost predicate Valid()
      reads this, frames, isDirty, pageIds, lru, lru.repr, disk
    {
      Assembled() && Inv(State())
    }

    constructor (disk: DiskManager)
      requires disk.State() == Disk(map[], map[], [], 100)
      ensures Valid() && State() == Initial() && this.disk == disk
      ensures fresh(frames) && fresh(isDirty) && fresh(pageIds) && fresh(lru) && fresh(lru.repr)
    {
      this.disk := disk;
      lru := new Lru(BUFFER_SIZE);
      frames := new Page[BUFFER_SIZE](_ => []);
      isDirty := new bool[BUFFER_SIZE](_ => false);
      pageIds := new int[BUFFER_SIZE](_ => -1);
      pageTable := map[];
      freeFrames := seq(BUFFER_SIZE, i => i);
      new;
      assert State() == Initial();
      InitialInv();
    }

    /** A frame to use: a free one, or that of the least recently used page. */
    method TakeFrame() returns (f: nat)
      requires Assembled() && WellFormed(State())
      modifies this, lru, lru.repr, disk
      ensures Assembled() && lru.repr == old(lru.repr)
      ensures PoolModel.Claim(State(), f) == ClaimFrame(old(State()))
    {
      if freeFrames == [] {
        f := EvictVictim();
      } else {
        assert freeFrames[|freeFrames| - 1] in freeFrames;
        f := freeFrames[|freeFrames| - 1];
        freeFrames := freeFrames[..|freeFrames| - 1];
      }
    }

    method EvictVictim() returns (f: nat)
      requires Assembled() && WellFormed(State()) && freeFrames == []
      modifies this, lru, lru.repr, disk
      ensures Assembled() && lru.repr == old(lru.repr)
      ensures PoolModel.Claim(State(), f) == ClaimFrame(old(State()))
    {
      assert lru.keys[|lru.keys| - 1] in lru.keys;
      f := lru.EvictFrame();
      WriteBack(f);
    }

    /** Saves the content of frame f, if dirty, and forgets its page. */
    method WriteBack(f: nat)
      requires f < frames.Length == isDirty.Length == pageIds.Length
      modifies this`pageTable, disk
      ensures State() == old(State()).(
                disk := if isDirty[f] then WriteDisk(old(disk.State()), pageIds[f], frames[f]) else old(disk.State()),
                pageTable := old(pageTable) - {pageIds[f]})
    {
      var evicted := pageIds[f];
      if isDirty[f] {
        disk.WritePage(evicted, frames[f]);
      }
      pageTable := pageTable - {evicted};
    }

    /** Reads page p into a claimed frame. */
    method Load(f: nat, p: int)
      requires Assembled() && Claimed(State(), f)
      modifies this, frames, isDirty, pageIds, lru, lru.repr
      ensures Assembled() && fresh(lru.repr - old(lru.repr)) && State() == Install(old(State()), f, p)
    {
      RoomForClaimed(State(), f);
      Fill(f, p);
      lru.PutFrame(f);
    }

    method Fill(f: nat, p: int)
      requires f < frames.Length == isDirty.Length == pageIds.Length
      modifies this`pageTable, frames, isDirty, pageIds
      ensures State() == old(State()).(
                frames := old(frames[..])[f := ReadDisk(disk.State(), p, old(frames[f]))],
                pageIds := old(pageIds[..])[f := p], dirty := old(isDirty[..])[f := false],
                pageTable := old(pageTable)[p := f])
    {
      frames[f] := disk.ReadPage(p, frames[f]);
      pageIds[f] := p;
      isDirty[f] := false;
      pageTable := pageTable[p := f];
    }

    /** The frame that holds page p, or nothing for id -1. */
    method FetchPage(p: int) returns (frame: Option<nat>)
      requires Valid() && (p == -1 || p in State().disk.table)
      modifies this, frames, isDirty, pageIds, lru, lru.repr, disk
      ensures Valid() && fresh(lru.repr - old(lru.repr)) && State() == Fetch(old(State()), p)
      ensures p == -1 ==> frame == None
      ensures p != -1 ==> p in pageTable && frame == Some(pageTable[p])
                          && frames[pageTable[p]] == Logical(old(State()), p)
    {
      hide Inv, Fetch, Logical, Claimed, ClaimFrame, WellFormed, Dense;
      FetchShows(State(), p);
      if p == -1 {
        return None;
      }
      if p in pageTable {
        frame := FetchResident(p);
      } else {
        ClaimKeeps(State());
        frame := FetchAbsent(p);
      }
    }

    method FetchResident(p: int) returns (frame: Option<nat>)
      requires Assembled() && WellFormed(State()) && p != -1 && p in pageTable
      modifies lru, lru.repr
      ensures Assembled() && lru.repr == old(lru.repr) && State() == Fetch(old(State()), p)
      ensures frame == Some(pageTable[p])
    {
      var f := pageTable[p];
      var dummy := lru.GetFrame(f);
      frame := Some(f);
    }

    method FetchAbsent(p: int) returns (frame: Option<nat>)
      requires Assembled() && WellFormed(State()) && Claimed(ClaimFrame(State()).pool, ClaimFrame(State()).frame)
      requires p != -1 && p !in pageTable
      modifies this, frames, isDirty, pageIds, lru, lru.repr, disk
      ensures Assembled() && fresh(lru.repr - old(lru.repr)) && State() == Fetch(old(State()), p)
      ensures p in pageTable && frame == Some(pageTable[p])
    {
      hide Claimed, ClaimFrame, Install;
      var f := TakeFrame();
      InstallMaps(State(), f, p);
      Load(f, p);
      frame := Some(f);
    }

    /** A new page in the pool. */
    method NewPage() returns (id: int)
      requires Valid()
      modifies this, frames, isDirty, pageIds, lru, lru.repr, disk
      ensures Valid() && fresh(lru.repr - old(lru.repr)) && (State(), id) == PoolModel.NewPage(old(State()))
      ensures id == |old(disk.pagesTable)| + 1 && id in pageTable && Logical(State(), id) == EmptyPage(id)
    {
      NewPageKeeps(State());
      ClaimKeeps(State());
      id := AddPage();
    }

    method AddPage() returns (id: int)
      requires Assembled() && WellFormed(State()) && Claimed(ClaimFrame(State()).pool, ClaimFrame(State()).frame)
      modifies this, frames, isDirty, pageIds, lru, lru.repr, disk
      ensures Assembled() && fresh(lru.repr - old(lru.repr)) && (State(), id) == PoolModel.NewPage(old(State()))
    {
      hide Claimed, ClaimFrame, Install, Allocate;
      var f := TakeFrame();
      id := LoadNew(f);
    }

    /** A newly allocated page in a claimed frame. */
    method LoadNew(f: nat) returns (id: int)
      requires Assembled() && Claimed(State(), f)
      modifies this, frames, isDirty, pageIds, lru, lru.repr, disk
      ensures Assembled() && fresh(lru.repr - old(lru.repr))
      ensures var a := Allocate(old(disk.State()));
              id == a.offset / PAGE_SIZE && State() == Install(old(State()).(disk := a.disk), f, id)
    {
      hide Claimed, Allocate, Install;
      AllocateKeeps(State(), f);
      var offset := disk.AllocatePage();
      id := offset / PAGE_SIZE;
      Load(f, id);
    }

    /** Takes a page out of the pool, written back if dirty. */
    method DeletePage(p: int)
      requires Valid()
      modifies this, isDirty, pageIds, lru, lru.repr, disk
      ensures Valid() && lru.repr == old(lru.repr) && State() == PoolModel.DeletePage(old(State()), p)
    {
      DeleteKeeps(State(), p);
      if p in pageTable {
        Listed(lru.chain, lru.keys, lru.framesMap, pageTable[p]);
        Release(p);
      }
    }

    method Release(p: int)
      requires Assembled() && WellFormed(State()) && p in pageTable && pageTable[p] in lru.framesMap
      modifies this, isDirty, pageIds, lru, lru.repr, disk
      ensures Assembled() && lru.repr == old(lru.repr) && State() == PoolModel.DeletePage(old(State()), p)
    {
      var f := pageTable[p];
      Vacate(p, f);
      lru.RemoveFrame(f);
    }

    method Vacate(p: int, f: nat)
      requires f < frames.Length == isDirty.Length == pageIds.Length
      modifies this, isDirty, pageIds, disk
      ensures State() == old(State()).(
                disk := if old(isDirty[f]) then WriteDisk(old(disk.State()), p, frames[f]) else old(disk.State()),
                pageTable := old(pageTable) - {p}, pageIds := old(pageIds[..])[f := -1],
                dirty := old(isDirty[..])[f := false], free := old(freeFrames) + [f])
    {
      if isDirty[f] {
        disk.WritePage(p, frames[f]);
      }
      pageTable := pageTable - {p};
      pageIds[f] := -1;
      isDirty[f] := false;
      freeFrames := freeFrames + [f];
    }

    /** What a caller does with a fetched page: writes its frame and marks it dirty. */
    method WriteFrame(p: int, data: Page)
      requires Valid() && p in pageTable
      modifies frames, isDirty
      ensures Valid() && State() == Write(old(State()), p, data)
    {
      WriteKeeps(State(), p, data);
      var f := pageTable[p];
      frames[f] := data;
      MarkAsDirty(p);
    }

    method MarkAsDirty(p: int)
      requires Assembled() && p in pageTable && pageTable[p] < BUFFER_SIZE
      modifies isDirty
      ensures isDirty[..] == old(isDirty[..])[pageTable[p] := true]
    {
      var f := pageTable[p];
      isDirty[f] := true;
    }

    /** Writes every dirty page back; afterwards the file holds what readers saw. */
    method Shutdown()
      requires Valid()
      modifies disk
      ensures disk.State() == FlushFrom(old(State()), 0)
      ensures Dense(disk.State()) && disk.pagesTable == old(disk.pagesTable)
      ensures forall p | p in disk.pagesTable :: disk.file[disk.pagesTable[p]] == Logical(old(State()), p)
    {
      hide FlushFrom, Inv, Logical, WriteDisk, Dense;
      ghost var s := State();
      ShutdownFlush(s);
      FlushEnd(s, disk.State());
      for i := 0 to BUFFER_SIZE
        invariant State() == s.(disk := disk.State())
        invariant FlushFrom(s.(disk := disk.State()), i) == FlushFrom(s, 0)
      {
        FlushOne(s, disk.State(), i);
        FlushFrame(i);
      }
      FlushEnd(s, disk.State());
    }

    method FlushFrame(i: nat)
      requires Assembled() && i < BUFFER_SIZE
      modifies disk
      ensures disk.State() == if isDirty[i] && pageIds[i] != -1 then WriteDisk(old(disk.State()), pageIds[i], frames[i])
                              else old(disk.State())
    {
      var p := pageIds[i];
      if isDirty[i] && p != -1 {
        disk.WritePage(p, frames[i]);
      }
    }
  }
}
