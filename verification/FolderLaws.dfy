/** The cached folder answers every run as the plain map does, whatever its capacity. */
module FolderLaws {
  import opened Wrappers
  import opened Bytes
  import opened RegionModel
  import opened RegionLaws
  import opened RegionStore
  import opened RegionReopen
  import opened FolderModel

  // ---- Sound directories and consistent caches ----

  ghost predicate SoundFile(file: seq<byte>) {
    Open(file, map[]).Ok? && Inv(Open(file, map[]).value)
  }

  ghost predicate SoundDisk(disk: Disk) {
    forall region :: region in disk.files ==> SoundFile(disk.files[region])
  }

  /** A remembered region is what its file says, up to trailing free bits of the bitmap. */
  ghost predicate Faithful(disk: Disk, region: RegionPos, entry: Entry) {
    if entry.Vacant? then region !in disk.files
    else
      && region in disk.files
      && SoundFile(disk.files[region])
      && Alike(StateOf(disk, region, entry).(side := map[]), Open(disk.files[region], map[]).value)
  }

  ghost predicate FaithfulCache(disk: Disk, cache: Cache) {
    forall k :: 0 <= k < |cache| ==> Faithful(disk, cache[k].0, cache[k].1)
  }

  ghost predicate Consistent(f: Folder) {
    SoundDisk(f.disk) && FaithfulCache(f.disk, f.cache)
  }

  lemma {:induction false} LookupFaithful(disk: Disk, cache: Cache, region: RegionPos)
    requires FaithfulCache(disk, cache)
    ensures Lookup(cache, region).Some? ==> Faithful(disk, region, Lookup(cache, region).value)
  {
    if cache != [] {
      assert Faithful(disk, cache[0].0, cache[0].1);
      LookupFaithful(disk, cache[1..], region);
    }
  }

  lemma {:induction false} WithoutFaithful(disk: Disk, cache: Cache, region: RegionPos)
    requires FaithfulCache(disk, cache)
    ensures FaithfulCache(disk, Without(cache, region))
  {
    if cache != [] {
      assert Faithful(disk, cache[0].0, cache[0].1);
      WithoutFaithful(disk, cache[1..], region);
    }
  }

  lemma {:induction false} WithoutOmits<V>(cache: Lru<V>, region: RegionPos)
    ensures forall k :: 0 <= k < |Without(cache, region)| ==> Without(cache, region)[k].0 != region
  {
    if cache != [] {
      WithoutOmits(cache[1..], region);
    }
  }

  lemma RememberOk(f: Folder, region: RegionPos, entry: Entry)
    requires Consistent(f) && Faithful(f.disk, region, entry)
    ensures Consistent(Remember(f, region, entry))
  {
    WithoutFaithful(f.disk, f.cache, region);
  }

  // ---- Opening, side files aside ----

  /** Side files play no part in the tables, the bitmap or the invariant. */
  lemma OpenWithSide(file: seq<byte>, side: SideFiles)
    requires SoundFile(file)
    ensures Open(file, side) == Ok(Open(file, map[]).value.(side := side))
    ensures Inv(Open(file, side).value) && Synced(Open(file, side).value)
  {
  }

  lemma AlikeSound(a: RegionState, b: RegionState)
    requires Alike(a, b) && Inv(b) && Synced(b)
    ensures Inv(a) && Synced(a)
  {
  }

  /** A region that memory and disk agree on can be closed and remembered from its file alone. */
  lemma SyncedIsFaithful(disk: Disk, region: RegionPos, r: RegionState)
    requires Inv(r) && Synced(r)
    requires region in disk.files && disk.files[region] == r.file
    ensures SoundFile(r.file)
    ensures Faithful(disk, region, EntryOf(r))
  {
    var bare := r.(side := map[]);
    assert Inv(bare) && Synced(bare);
    OpenRestores(bare);
    AlikeSound(Open(r.file, map[]).value, bare);
  }

  lemma FetchOk(f: Folder, region: RegionPos)
    requires Consistent(f)
    ensures var (fetched, g) := Fetch(f, region);
      && Consistent(g) && g.disk == f.disk
      && fetched.Ok?
      && (fetched.value.Some? <==> region in f.disk.files)
      && (fetched.value.Some? ==>
            var r := fetched.value.value;
            && Inv(r) && Synced(r)
            && r.side == f.disk.side
            && Open(f.disk.files[region], f.disk.side).Ok?
            && Alike(r, Open(f.disk.files[region], f.disk.side).value))
  {
    LookupFaithful(f.disk, f.cache, region);
    match Lookup(f.cache, region)
    case Some(entry) =>
      RememberOk(f, region, entry);
      if entry.Occupied? {
        OpenWithSide(f.disk.files[region], f.disk.side);
        AlikeSound(StateOf(f.disk, region, entry), Open(f.disk.files[region], f.disk.side).value);
      }
    case None =>
      if region !in f.disk.files {
        RememberOk(f, region, Vacant);
      } else {
        OpenWithSide(f.disk.files[region], f.disk.side);
        RememberOk(f, region, EntryOf(Open(f.disk.files[region], f.disk.side).value));
      }
  }

  lemma OthersFaithful(disk: Disk, region: RegionPos, r: RegionState, other: RegionPos, entry: Entry)
    requires other != region && Faithful(disk, other, entry)
    ensures Faithful(Written(region, r, disk), other, entry)
  {
  }

  lemma CommitOk(f: Folder, region: RegionPos, r: RegionState)
    requires Consistent(f)
    requires Inv(r) && Synced(r)
    ensures Consistent(Commit(f, region, r))
  {
    var disk := Written(region, r, f.disk);
    SyncedIsFaithful(disk, region, r);
    // An older entry of this region may be stale now, but it is the one being replaced.
    WithoutOmits(f.cache, region);
    WithoutFaithful(f.disk, f.cache, region);
    forall k | 0 <= k < |Without(f.cache, region)|
      ensures Faithful(disk, Without(f.cache, region)[k].0, Without(f.cache, region)[k].1)
    {
      OthersFaithful(f.disk, region, r, Without(f.cache, region)[k].0, Without(f.cache, region)[k].1);
    }
  }

  // ---- The cache is transparent ----

  /** The chunk stored at `pos` according to the files alone. */
  function DiskGet(disk: Disk, codec: Codec, pos: ChunkPos): Result<Option<RawChunk>, RegionError> {
    if RegionOf(pos) !in disk.files then Ok(None)
    else
      match Open(disk.files[RegionOf(pos)], disk.side)
      case Err(e) => Err(e)
      case Ok(r) => Get(r, codec, pos)
  }

  /** Not a set that is refused at a position holding a chunk. */
  ghost predicate Harmless(disk: Disk, codec: Codec, op: Operation) {
    op.SetChunk? ==>
      Prepare(codec, op.options, op.chunk).Ok? || DiskGet(disk, codec, op.pos) == Ok(None)
  }

  lemma GetTransparent(f: Folder, codec: Codec, pos: ChunkPos)
    requires Consistent(f)
    ensures var (answer, g) := Step(f, codec, GetChunk(pos));
      answer == DiskStep(f.disk, codec, GetChunk(pos)).0 == Got(DiskGet(f.disk, codec, pos))
      && g.disk == f.disk && Consistent(g)
  {
    var region := RegionOf(pos);
    var (fetched, g) := Fetch(f, region);
    FetchOk(f, region);
    if region in f.disk.files {
      GetAlike(fetched.value.value, Open(f.disk.files[region], f.disk.side).value, codec, pos);
    }
  }

  lemma DeleteTransparent(f: Folder, codec: Codec, pos: ChunkPos)
    requires Consistent(f)
    ensures var (answer, g) := Step(f, codec, DeleteChunk(pos));
      (answer, g.disk) == DiskStep(f.disk, codec, DeleteChunk(pos)) && Consistent(g)
  {
    var region := RegionOf(pos);
    var (fetched, g) := Fetch(f, region);
    FetchOk(f, region);
    if region in f.disk.files {
      var r := fetched.value.value;
      DeleteAlike(r, Open(f.disk.files[region], f.disk.side).value, pos);
      DeleteKeepsInv(r, pos);
      CommitOk(g, region, Delete(r, pos).1);
    }
  }

  /** The region an operation works on when every region is opened afresh. */
  function Fresh(disk: Disk, region: RegionPos): RegionState
    requires region in disk.files ==> Open(disk.files[region], disk.side).Ok?
  {
    if region in disk.files then Open(disk.files[region], disk.side).value else Create([], disk.side)
  }

  lemma SetWrites(disk: Disk, codec: Codec, op: Operation, r: RegionState)
    requires op.SetChunk?
    requires var region := RegionOf(op.pos); region in disk.files ==> Open(disk.files[region], disk.side).Ok?
    requires r == Fresh(disk, RegionOf(op.pos))
    ensures var (done, after) := Set(r, codec, op.options, op.pos, op.chunk, op.now);
      DiskStep(disk, codec, op) == (WasSet(done), Written(RegionOf(op.pos), after, disk))
  {
  }

  /** The set itself, on the fetched region and on the freshly opened one. */
  lemma SetAnswersAlike(disk: Disk, codec: Codec, op: Operation, r: RegionState)
    requires op.SetChunk?
    requires var region := RegionOf(op.pos);
      && (region in disk.files ==> Open(disk.files[region], disk.side).Ok?)
      && Alike(r, Fresh(disk, region))
    ensures var (done, after) := Set(r, codec, op.options, op.pos, op.chunk, op.now);
      DiskStep(disk, codec, op) == (WasSet(done), Written(RegionOf(op.pos), after, disk))
  {
    var region := RegionOf(op.pos);
    var anew := Fresh(disk, region);
    SetWrites(disk, codec, op, anew);
    SetAlike(r, anew, codec, op.options, op.pos, op.chunk, op.now);
  }

  lemma HarmlessKeeps(disk: Disk, codec: Codec, op: Operation, r: RegionState)
    requires op.SetChunk? && Harmless(disk, codec, op)
    requires Inv(r) && Synced(r)
    requires Get(r, codec, op.pos) == DiskGet(disk, codec, op.pos)
    ensures var after := Set(r, codec, op.options, op.pos, op.chunk, op.now).1; Inv(after) && Synced(after)
  {
    PresentIsNotNone(r, codec, op.pos);
    SetKeepsInv(r, codec, op.options, op.pos, op.chunk, op.now);
    SetInStepIff(r, codec, op.options, op.pos, op.chunk, op.now);
  }

  lemma SetTransparent(f: Folder, codec: Codec, op: Operation)
    requires Consistent(f)
    requires op.SetChunk?
    ensures var (answer, g) := Step(f, codec, op);
      (answer, g.disk) == DiskStep(f.disk, codec, op) && (Harmless(f.disk, codec, op) ==> Consistent(g))
  {
    var region := RegionOf(op.pos);
    var (fetched, g) := Fetch(f, region);
    FetchOk(f, region);
    var r := if fetched.value.Some? then fetched.value.value else Create([], f.disk.side);
    SetAnswersAlike(f.disk, codec, op, r);
    if Harmless(f.disk, codec, op) {
      if region in f.disk.files {
        GetAlike(r, Open(f.disk.files[region], f.disk.side).value, codec, op.pos);
      } else {
        CreateOk([], f.disk.side);
      }
      HarmlessKeeps(f.disk, codec, op, r);
      CommitOk(g, region, Set(r, codec, op.options, op.pos, op.chunk, op.now).1);
    }
  }

  /** Whatever the cache holds and however small it is, an operation answers and writes what it
      would with every region opened afresh; and the cache stays faithful unless a set was refused
      at a position holding a chunk. */
  lemma CacheTransparent(f: Folder, codec: Codec, op: Operation)
    requires Consistent(f)
    ensures var (answer, g) := Step(f, codec, op);
      (answer, g.disk) == DiskStep(f.disk, codec, op) && (Harmless(f.disk, codec, op) ==> Consistent(g))
  {
    match op
    case GetChunk(pos) => GetTransparent(f, codec, pos);
    case DeleteChunk(pos) => DeleteTransparent(f, codec, pos);
    case SetChunk(_, _, _, _) => SetTransparent(f, codec, op);
  }

  // ---- The store is a map ----

  /** The files hold exactly the chunks of `m`. */
  ghost predicate Holds(disk: Disk, codec: Codec, m: Content) {
    forall pos :: DiskGet(disk, codec, pos) == Ok(if pos in m then Some(m[pos]) else None)
  }

  /** A region's operation does not disturb positions of other regions. */
  lemma OtherRegion(disk: Disk, codec: Codec, region: RegionPos, r: RegionState, q: ChunkPos)
    requires SoundDisk(disk)
    requires RegionOf(q) != region
    requires SideFile(r.side, q) == SideFile(disk.side, q)
    ensures DiskGet(Written(region, r, disk), codec, q) == DiskGet(disk, codec, q)
  {
    if RegionOf(q) in disk.files {
      var file := disk.files[RegionOf(q)];
      OpenWithSide(file, disk.side);
      OpenWithSide(file, r.side);
      ReadsAlike(Open(file, disk.side).value, Open(file, r.side).value, codec, q);
    }
  }

  /** What a changed and still synced region puts on disk is what it reads in memory. */
  lemma SameRegion(disk: Disk, codec: Codec, region: RegionPos, r: RegionState, q: ChunkPos)
    requires RegionOf(q) == region
    requires Inv(r) && Synced(r)
    ensures DiskGet(Written(region, r, disk), codec, q) == Get(r, codec, q)
  {
    OpenRestores(r);
    GetAlike(Open(r.file, r.side).value, r, codec, q);
  }
}
