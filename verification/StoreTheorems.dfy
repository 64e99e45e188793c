/** The main results on the region store, over every run of operations. */
module StoreTheorems {
  import opened Wrappers
  import opened RegionModel
  import opened RegionLaws
  import opened RegionStore
  import opened RegionReopen
  import opened FolderModel
  import opened FolderLaws

  lemma FreshOk(disk: Disk, codec: Codec, region: RegionPos, pos: ChunkPos)
    requires SoundDisk(disk) && RegionOf(pos) == region
    ensures region in disk.files ==> Open(disk.files[region], disk.side).Ok?
    ensures Inv(Fresh(disk, region)) && Synced(Fresh(disk, region))
    ensures DiskGet(disk, codec, pos) == Get(Fresh(disk, region), codec, pos)
    ensures Fresh(disk, region).side == disk.side
  {
    if region in disk.files {
      OpenWithSide(disk.files[region], disk.side);
    } else {
      CreateOk([], disk.side);
    }
  }

  lemma FreshReads(disk: Disk, codec: Codec, region: RegionPos)
    requires SoundDisk(disk)
    requires region in disk.files ==> Open(disk.files[region], disk.side).Ok?
    ensures forall q :: RegionOf(q) == region ==> DiskGet(disk, codec, q) == Get(Fresh(disk, region), codec, q)
  {
    forall q | RegionOf(q) == region
      ensures DiskGet(disk, codec, q) == Get(Fresh(disk, region), codec, q)
    {
      FreshOk(disk, codec, region, q);
    }
  }

  lemma WrittenSound(disk: Disk, region: RegionPos, r: RegionState)
    requires SoundDisk(disk) && Inv(r) && Synced(r)
    ensures SoundDisk(Written(region, r, disk))
  {
    SyncedIsFaithful(Written(region, r, disk), region, r);
  }

  // ---- One operation, seen from any position ----

  /** Writing a region back shows, at every position, what the region reads in memory, and leaves
      the positions of other regions alone. */
  lemma WrittenReads(disk: Disk, codec: Codec, region: RegionPos, r: RegionState, q: ChunkPos)
    requires SoundDisk(disk) && Inv(r) && Synced(r)
    requires RegionOf(q) != region ==> SideFile(r.side, q) == SideFile(disk.side, q)
    ensures DiskGet(Written(region, r, disk), codec, q) ==
            if RegionOf(q) == region then Get(r, codec, q) else DiskGet(disk, codec, q)
  {
    if RegionOf(q) == region {
      SameRegion(disk, codec, region, r, q);
    } else {
      OtherRegion(disk, codec, region, r, q);
    }
  }

  lemma DeleteSteps(disk: Disk, codec: Codec, pos: ChunkPos, r: RegionState, after: RegionState)
    requires RegionOf(pos) in disk.files && Open(disk.files[RegionOf(pos)], disk.side) == Ok(r)
    requires after == Delete(r, pos).1
    ensures DiskStep(disk, codec, DeleteChunk(pos)) ==
            (Deleted(Ok(Present(r, pos))), Written(RegionOf(pos), after, disk))
  {
  }

  lemma DeleteTouchesOwnSide(r: RegionState, pos: ChunkPos, q: ChunkPos)
    requires q != pos
    ensures SideFile(Delete(r, pos).1.side, q) == SideFile(r.side, q)
  {
  }

  lemma DeleteWrites(disk: Disk, codec: Codec, pos: ChunkPos) returns (r: RegionState, after: RegionState)
    requires SoundDisk(disk) && RegionOf(pos) in disk.files
    ensures Inv(r) && Inv(after) && Synced(after)
    ensures after == Delete(r, pos).1
    ensures forall q :: RegionOf(q) == RegionOf(pos) ==> DiskGet(disk, codec, q) == Get(r, codec, q)
    ensures forall q :: q != pos ==> SideFile(after.side, q) == SideFile(disk.side, q)
    ensures DiskStep(disk, codec, DeleteChunk(pos)) ==
            (Deleted(Ok(Present(r, pos))), Written(RegionOf(pos), after, disk))
  {
    FreshOk(disk, codec, RegionOf(pos), pos);
    r := Fresh(disk, RegionOf(pos));
    FreshReads(disk, codec, RegionOf(pos));
    DeleteKeepsInv(r, pos);
    after := Delete(r, pos).1;
    DeleteSteps(disk, codec, pos, r, after);
    forall q | q != pos
      ensures SideFile(after.side, q) == SideFile(disk.side, q)
    {
      DeleteTouchesOwnSide(r, pos, q);
    }
  }

  /** After a delete, the deleted position reads as absent and every other one as before. */
  lemma DeleteReads(disk: Disk, codec: Codec, pos: ChunkPos, q: ChunkPos)
    requires SoundDisk(disk) && RegionOf(pos) in disk.files
    ensures DiskGet(DiskStep(disk, codec, DeleteChunk(pos)).1, codec, q) ==
            if q == pos then Ok(None) else DiskGet(disk, codec, q)
  {
    var r, after := DeleteWrites(disk, codec, pos);
    WrittenReads(disk, codec, RegionOf(pos), after, q);
    if RegionOf(q) == RegionOf(pos) {
      DeleteThenGet(r, codec, pos, q);
    }
  }

  lemma DeleteAnswers(disk: Disk, codec: Codec, pos: ChunkPos)
    requires SoundDisk(disk)
    ensures var (answer, after) := DiskStep(disk, codec, DeleteChunk(pos));
      answer == Deleted(Ok(DiskGet(disk, codec, pos) != Ok(None))) && SoundDisk(after)
  {
    if RegionOf(pos) in disk.files {
      var r, after := DeleteWrites(disk, codec, pos);
      PresentIsNotNone(r, codec, pos);
      WrittenSound(disk, RegionOf(pos), after);
    }
  }

  /** One position changes; the map changes there and nowhere else. */
  lemma HoldsAfter(disk: Disk, after: Disk, codec: Codec, m: Content, n: Content, pos: ChunkPos)
    requires Holds(disk, codec, m)
    requires forall q :: q != pos ==> DiskGet(after, codec, q) == DiskGet(disk, codec, q)
    requires DiskGet(after, codec, pos) == Ok(if pos in n then Some(n[pos]) else None)
    requires forall q :: q != pos ==> (q in n <==> q in m) && (q in n ==> n[q] == m[q])
    ensures Holds(after, codec, n)
  {
    forall q
      ensures DiskGet(after, codec, q) == Ok(if q in n then Some(n[q]) else None)
    {
      assert DiskGet(disk, codec, q) == Ok(if q in m then Some(m[q]) else None);
    }
  }

  lemma DeleteReadsAll(disk: Disk, codec: Codec, pos: ChunkPos, after: Disk)
    requires SoundDisk(disk) && RegionOf(pos) in disk.files
    requires after == DiskStep(disk, codec, DeleteChunk(pos)).1
    ensures DiskGet(after, codec, pos) == Ok(None)
    ensures forall q :: q != pos ==> DiskGet(after, codec, q) == DiskGet(disk, codec, q)
  {
    DeleteReads(disk, codec, pos, pos);
    forall q | q != pos
      ensures DiskGet(after, codec, q) == DiskGet(disk, codec, q)
    {
      DeleteReads(disk, codec, pos, q);
    }
  }

  lemma DeleteHolds(disk: Disk, codec: Codec, m: Content, pos: ChunkPos, after: Disk)
    requires SoundDisk(disk) && Holds(disk, codec, m) && RegionOf(pos) in disk.files
    requires after == DiskStep(disk, codec, DeleteChunk(pos)).1
    ensures Holds(after, codec, m - {pos})
  {
    DeleteReadsAll(disk, codec, pos, after);
    HoldsAfter(disk, after, codec, m, m - {pos}, pos);
  }

  lemma DeleteIsMap(disk: Disk, codec: Codec, m: Content, pos: ChunkPos)
    requires SoundDisk(disk) && Holds(disk, codec, m)
    ensures var (answer, after) := DiskStep(disk, codec, DeleteChunk(pos));
      var (expected, n) := MapStep(m, codec, DeleteChunk(pos));
      answer == expected && SoundDisk(after) && Holds(after, codec, n)
  {
    DeleteAnswers(disk, codec, pos);
    assert DiskGet(disk, codec, pos) == Ok(if pos in m then Some(m[pos]) else None);
    if RegionOf(pos) in disk.files {
      DeleteHolds(disk, codec, m, pos, DiskStep(disk, codec, DeleteChunk(pos)).1);
    } else {
      NothingRemoved(m, pos);
    }
  }

  lemma NothingRemoved(m: Content, pos: ChunkPos)
    requires pos !in m
    ensures m - {pos} == m
  {
  }

  lemma SetTouchesOwnSide(r: RegionState, codec: Codec, op: Operation, q: ChunkPos)
    requires op.SetChunk? && q != op.pos
    ensures SideFile(Set(r, codec, op.options, op.pos, op.chunk, op.now).1.side, q) == SideFile(r.side, q)
  {
  }

  lemma SetOutcome(r: RegionState, codec: Codec, op: Operation)
    requires op.SetChunk?
    ensures Set(r, codec, op.options, op.pos, op.chunk, op.now).0 ==
            match Prepare(codec, op.options, op.chunk) case Ok(_) => Ok(()) case Err(e) => Err(e)
  {
  }

  lemma SetReadsInRegion(r: RegionState, codec: Codec, op: Operation, q: ChunkPos)
    requires Inv(r) && op.SetChunk? && codec.RoundTrips() && RegionOf(q) == RegionOf(op.pos)
    requires Prepare(codec, op.options, op.chunk).Ok? || Get(r, codec, op.pos) == Ok(None)
    ensures Get(Set(r, codec, op.options, op.pos, op.chunk, op.now).1, codec, q) ==
            if q == op.pos && Prepare(codec, op.options, op.chunk).Ok? then Ok(Some(RawChunk(op.chunk, op.now)))
            else Get(r, codec, q)
  {
    if q != op.pos {
      SetThenGetOther(r, codec, op.options, op.pos, op.chunk, op.now, q);
    } else if Prepare(codec, op.options, op.chunk).Ok? {
      SetThenGet(r, codec, op.options, op.pos, op.chunk, op.now);
    } else {
      FailedSetThenGet(r, codec, op.options, op.pos, op.chunk, op.now);
    }
  }

  lemma SetReadsFrom(disk: Disk, codec: Codec, r: RegionState, op: Operation, q: ChunkPos)
    requires SoundDisk(disk) && codec.RoundTrips()
    requires op.SetChunk? && Harmless(disk, codec, op)
    requires Inv(r) && Synced(r) && r.side == disk.side
    requires forall p :: RegionOf(p) == RegionOf(op.pos) ==> DiskGet(disk, codec, p) == Get(r, codec, p)
    ensures var after := Set(r, codec, op.options, op.pos, op.chunk, op.now).1;
      DiskGet(Written(RegionOf(op.pos), after, disk), codec, q) ==
      if q == op.pos && Prepare(codec, op.options, op.chunk).Ok? then Ok(Some(RawChunk(op.chunk, op.now)))
      else DiskGet(disk, codec, q)
  {
    var after := Set(r, codec, op.options, op.pos, op.chunk, op.now).1;
    HarmlessKeeps(disk, codec, op, r);
    if q != op.pos {
      SetTouchesOwnSide(r, codec, op, q);
    }
    WrittenReads(disk, codec, RegionOf(op.pos), after, q);
    if RegionOf(q) == RegionOf(op.pos) {
      SetReadsInRegion(r, codec, op, q);
    }
  }

  /** After a set that does no damage: what every position reads. */
  lemma SetReads(disk: Disk, codec: Codec, op: Operation, q: ChunkPos)
    requires SoundDisk(disk) && codec.RoundTrips()
    requires op.SetChunk? && Harmless(disk, codec, op)
    ensures DiskGet(DiskStep(disk, codec, op).1, codec, q) ==
            if q == op.pos && Prepare(codec, op.options, op.chunk).Ok? then Ok(Some(RawChunk(op.chunk, op.now)))
            else DiskGet(disk, codec, q)
  {
    FreshOk(disk, codec, RegionOf(op.pos), op.pos);
    var r := Fresh(disk, RegionOf(op.pos));
    SetWrites(disk, codec, op, r);
    FreshReads(disk, codec, RegionOf(op.pos));
    SetReadsFrom(disk, codec, r, op, q);
  }

  lemma SetAnswers(disk: Disk, codec: Codec, op: Operation)
    requires SoundDisk(disk)
    requires op.SetChunk? && Harmless(disk, codec, op)
    ensures var (answer, after) := DiskStep(disk, codec, op);
      && SoundDisk(after)
      && answer == WasSet(match Prepare(codec, op.options, op.chunk) case Ok(_) => Ok(()) case Err(e) => Err(e))
  {
    var region := RegionOf(op.pos);
    FreshOk(disk, codec, region, op.pos);
    var r := Fresh(disk, region);
    SetWrites(disk, codec, op, r);
    SetOutcome(r, codec, op);
    SetSound(disk, codec, op, r);
  }

  lemma SetSound(disk: Disk, codec: Codec, op: Operation, r: RegionState)
    requires SoundDisk(disk) && op.SetChunk? && Harmless(disk, codec, op)
    requires Inv(r) && Synced(r) && Get(r, codec, op.pos) == DiskGet(disk, codec, op.pos)
    ensures SoundDisk(Written(RegionOf(op.pos), Set(r, codec, op.options, op.pos, op.chunk, op.now).1, disk))
  {
    HarmlessKeeps(disk, codec, op, r);
    WrittenSound(disk, RegionOf(op.pos), Set(r, codec, op.options, op.pos, op.chunk, op.now).1);
  }

  lemma SetKeepsOthers(disk: Disk, codec: Codec, op: Operation)
    requires SoundDisk(disk) && codec.RoundTrips()
    requires op.SetChunk? && Harmless(disk, codec, op)
    ensures forall q :: q != op.pos ==> DiskGet(DiskStep(disk, codec, op).1, codec, q) == DiskGet(disk, codec, q)
  {
    forall q | q != op.pos
      ensures DiskGet(DiskStep(disk, codec, op).1, codec, q) == DiskGet(disk, codec, q)
    {
      SetReads(disk, codec, op, q);
    }
  }

  lemma SetHolds(disk: Disk, codec: Codec, m: Content, op: Operation)
    requires SoundDisk(disk) && Holds(disk, codec, m) && codec.RoundTrips()
    requires op.SetChunk? && Harmless(disk, codec, op)
    ensures Holds(DiskStep(disk, codec, op).1, codec, MapStep(m, codec, op).1)
  {
    SetKeepsOthers(disk, codec, op);
    SetReads(disk, codec, op, op.pos);
    SetHoldsAfter(disk, DiskStep(disk, codec, op).1, codec, m, op);
  }

  lemma SetHoldsAfter(disk: Disk, after: Disk, codec: Codec, m: Content, op: Operation)
    requires op.SetChunk? && Holds(disk, codec, m)
    requires forall q :: q != op.pos ==> DiskGet(after, codec, q) == DiskGet(disk, codec, q)
    requires DiskGet(after, codec, op.pos) ==
             if Prepare(codec, op.options, op.chunk).Ok? then Ok(Some(RawChunk(op.chunk, op.now)))
             else DiskGet(disk, codec, op.pos)
    ensures Holds(after, codec, MapStep(m, codec, op).1)
  {
    assert DiskGet(disk, codec, op.pos) == Ok(if op.pos in m then Some(m[op.pos]) else None);
    RefusalIsPrepare(codec, op.options, op.chunk);
    HoldsAfter(disk, after, codec, m, MapStep(m, codec, op).1, op.pos);
  }

  lemma SetIsMap(disk: Disk, codec: Codec, m: Content, op: Operation)
    requires SoundDisk(disk) && Holds(disk, codec, m) && codec.RoundTrips()
    requires op.SetChunk? && Clean(m, codec, op)
    ensures var (answer, after) := DiskStep(disk, codec, op);
      var (expected, n) := MapStep(m, codec, op);
      answer == expected && SoundDisk(after) && Holds(after, codec, n)
  {
    assert DiskGet(disk, codec, op.pos) == Ok(if op.pos in m then Some(m[op.pos]) else None);
    RefusalIsPrepare(codec, op.options, op.chunk);
    SetAnswers(disk, codec, op);
    SetHolds(disk, codec, m, op);
  }

  // ---- Runs ----

  lemma StepIsMap(f: Folder, codec: Codec, m: Content, op: Operation)
    requires Consistent(f) && Holds(f.disk, codec, m) && codec.RoundTrips() && Clean(m, codec, op)
    ensures var (answer, g) := Step(f, codec, op);
      var (expected, n) := MapStep(m, codec, op);
      answer == expected && Consistent(g) && Holds(g.disk, codec, n)
  {
    CacheTransparent(f, codec, op);
    match op
    case GetChunk(pos) => GetTransparent(f, codec, pos);
    case DeleteChunk(pos) => DeleteIsMap(f.disk, codec, m, pos);
    case SetChunk(_, _, _, _) => SetIsMap(f.disk, codec, m, op);
  }

  /** A run that never has a set refused at a position holding a chunk is answered as the map
      answers it, and the files end up holding the map. The cache capacity does not matter. */
  lemma {:induction false} StoreIsMap(f: Folder, codec: Codec, m: Content, ops: seq<Operation>)
    requires Consistent(f) && Holds(f.disk, codec, m) && codec.RoundTrips() && CleanRun(m, codec, ops)
    ensures var (answers, g) := Run(f, codec, ops);
      var (expected, n) := MapRun(m, codec, ops);
      answers == expected && Consistent(g) && Holds(g.disk, codec, n)
    decreases |ops|
  {
    if ops != [] {
      StepIsMap(f, codec, m, ops[0]);
      StoreIsMap(Step(f, codec, ops[0]).1, codec, MapStep(m, codec, ops[0]).1, ops[1..]);
    }
  }

  /** A directory without region files is the empty map, whatever side files lie about. */
  lemma EmptyStore(codec: Codec, side: SideFiles, capacity: nat)
    ensures Consistent(Folder(Disk(map[], side), [], capacity))
    ensures Holds(Disk(map[], side), codec, map[])
  {
  }

  /** Two folders over the same files, however different their caches and capacities, give the same
      answers and leave the same bytes in every file. */
  lemma {:induction false} CachesAgree(a: Folder, b: Folder, codec: Codec, m: Content, ops: seq<Operation>)
    requires Consistent(a) && Consistent(b) && a.disk == b.disk
    requires Holds(a.disk, codec, m) && codec.RoundTrips() && CleanRun(m, codec, ops)
    ensures Run(a, codec, ops).0 == Run(b, codec, ops).0
    ensures Run(a, codec, ops).1.disk == Run(b, codec, ops).1.disk
    decreases |ops|
  {
    if ops != [] {
      var op := ops[0];
      CacheTransparent(a, codec, op);
      CacheTransparent(b, codec, op);
      StepIsMap(a, codec, m, op);
      StepIsMap(b, codec, m, op);
      CachesAgree(Step(a, codec, op).1, Step(b, codec, op).1, codec, MapStep(m, codec, op).1, ops[1..]);
    }
  }

  // ---- Where the promise ends ----

  lemma LookupPut(cache: Cache, capacity: nat, region: RegionPos, entry: Entry)
    requires capacity >= 1
    ensures Lookup(Put(cache, capacity, region, entry), region) == Some(entry)
  {
  }

  /** What the cached folder reads right after a set is what the region reads in memory. */
  lemma ReadThroughCache(f: Folder, codec: Codec, region: RegionPos, r: RegionState, pos: ChunkPos)
    requires f.capacity >= 1 && RegionOf(pos) == region
    ensures Step(Commit(f, region, r), codec, GetChunk(pos)).0 == Got(Get(r, codec, pos))
    ensures Step(Commit(f, region, r).(cache := []), codec, GetChunk(pos)).0 ==
            Got(DiskGet(Written(region, r, f.disk), codec, pos))
  {
    LookupPut(f.cache, f.capacity, region, EntryOf(r));
  }

  /** After a set, reading the position through the cache and reading it after the region was
      evicted agree exactly when the set went through or the position was empty. */
  lemma EvictionInvisibleIff(f: Folder, codec: Codec, op: Operation)
    requires Consistent(f) && f.capacity >= 1
    requires op.SetChunk?
    ensures var g := Step(f, codec, op).1;
      Step(g, codec, GetChunk(op.pos)).0 == Step(g.(cache := []), codec, GetChunk(op.pos)).0
      <==> Prepare(codec, op.options, op.chunk).Ok? || DiskGet(f.disk, codec, op.pos) == Ok(None)
  {
    var region := RegionOf(op.pos);
    var (fetched, h) := Fetch(f, region);
    FetchOk(f, region);
    if region !in f.disk.files {
      CreateOk([], f.disk.side);
    } else {
      GetAlike(fetched.value.value, Open(f.disk.files[region], f.disk.side).value, codec, op.pos);
    }
    var r := if fetched.value.Some? then fetched.value.value else Create([], f.disk.side);
    var after := Set(r, codec, op.options, op.pos, op.chunk, op.now).1;
    PresentIsNotNone(r, codec, op.pos);
    SetInStepIff(r, codec, op.options, op.pos, op.chunk, op.now);
    ReadThroughCache(h, codec, region, after, op.pos);
  }
}
