/** A directory of region files behind a bounded least-recently-used cache of open regions. */
module FolderModel {
  import opened Wrappers
  import opened Bytes
  import opened RegionModel

  // ---- The directory ----

  datatype Disk = Disk(files: map<RegionPos, seq<byte>>, side: SideFiles)

  function FileOf(disk: Disk, region: RegionPos): seq<byte> {
    if region in disk.files then disk.files[region] else []
  }

  function Written(region: RegionPos, r: RegionState, disk: Disk): Disk {
    Disk(disk.files[region := r.file], r.side)
  }

  datatype Operation =
    | GetChunk(pos: ChunkPos)
    | DeleteChunk(pos: ChunkPos)
    | SetChunk(pos: ChunkPos, chunk: Compound, options: WriteOptions, now: u32)

  /** Absence of a region file is `None`; every other outcome is what the region answers. */
  datatype Answer =
    | Got(chunk: Result<Option<RawChunk>, RegionError>)
    | Deleted(existed: Result<bool, RegionError>)
    | WasSet(done: Result<(), RegionError>)

  // ---- The store without a cache: every operation opens its region file afresh ----

  function DiskStep(disk: Disk, codec: Codec, op: Operation): (Answer, Disk) {
    var region := RegionOf(op.pos);
    var found := if region in disk.files then Open(disk.files[region], disk.side)
                  else Ok(Create([], disk.side));
    match op
    case GetChunk(pos) =>
      if region !in disk.files then (Got(Ok(None)), disk)
      else if found.Err? then (Got(Err(found.error)), disk)
      else (Got(Get(found.value, codec, pos)), disk)
    case DeleteChunk(pos) =>
      if region !in disk.files then (Deleted(Ok(false)), disk)
      else if found.Err? then (Deleted(Err(found.error)), disk)
      else
        var (existed, r) := Delete(found.value, pos);
        (Deleted(Ok(existed)), Written(region, r, disk))
    case SetChunk(pos, chunk, options, now) =>
      if found.Err? then (WasSet(Err(found.error)), disk)
      else
        var (done, r) := Set(found.value, codec, options, pos, chunk, now);
        (WasSet(done), Written(region, r, disk))
  }

  // ---- The cache ----

  /** What the program remembers of a region: its tables and bitmap, or that it has no file. */
  datatype Entry =
    | Occupied(locations: Locations, timestamps: Timestamps, used: seq<bool>)
    | Vacant

  function EntryOf(r: RegionState): Entry {
    Occupied(r.locations, r.timestamps, r.used)
  }

  /** Most recently used first. */
  type Lru<V> = seq<(RegionPos, V)>

  type Cache = Lru<Entry>

  function Lookup<V>(cache: Lru<V>, region: RegionPos): Option<V> {
    if cache == [] then None
    else if cache[0].0 == region then Some(cache[0].1)
    else Lookup(cache[1..], region)
  }

  function Without<V>(cache: Lru<V>, region: RegionPos): Lru<V> {
    if cache == [] then []
    else if cache[0].0 == region then Without(cache[1..], region)
    else [cache[0]] + Without(cache[1..], region)
  }

  /** Insert or replace, promote to most recent, and evict the least recent beyond the capacity. */
  function Put<V>(cache: Lru<V>, capacity: nat, region: RegionPos, entry: V): Lru<V> {
    var all := [(region, entry)] + Without(cache, region);
    if |all| > capacity then all[..capacity] else all
  }

  datatype Folder = Folder(disk: Disk, cache: Cache, capacity: nat)

  function StateOf(disk: Disk, region: RegionPos, entry: Entry): RegionState
    requires entry.Occupied?
  {
    RegionState(FileOf(disk, region), entry.locations, entry.timestamps, entry.used, disk.side)
  }

  function Remember(f: Folder, region: RegionPos, entry: Entry): Folder {
    f.(cache := Put(f.cache, f.capacity, region, entry))
  }

  /** The open region, from the cache or else from its file; `None` when it has no file. */
  function Fetch(f: Folder, region: RegionPos): (Result<Option<RegionState>, RegionError>, Folder) {
    match Lookup(f.cache, region)
    case Some(entry) =>
      (Ok(if entry.Vacant? then None else Some(StateOf(f.disk, region, entry))), Remember(f, region, entry))
    case None =>
      if region !in f.disk.files then (Ok(None), Remember(f, region, Vacant))
      else
        match Open(f.disk.files[region], f.disk.side)
        case Err(e) => (Err(e), f)
        case Ok(r) => (Ok(Some(r)), Remember(f, region, EntryOf(r)))
  }

  /** The folder once region `r` has changed its tables, its file and the side files. */
  function Commit(f: Folder, region: RegionPos, r: RegionState): Folder {
    Remember(f.(disk := Written(region, r, f.disk)), region, EntryOf(r))
  }

  function Step(f: Folder, codec: Codec, op: Operation): (Answer, Folder) {
    var region := RegionOf(op.pos);
    var (fetched, g) := Fetch(f, region);
    match op
    case GetChunk(pos) =>
      (match fetched
       case Err(e) => (Got(Err(e)), g)
       case Ok(None) => (Got(Ok(None)), g)
       case Ok(Some(r)) => (Got(Get(r, codec, pos)), g))
    case DeleteChunk(pos) =>
      (match fetched
       case Err(e) => (Deleted(Err(e)), g)
       case Ok(None) => (Deleted(Ok(false)), g)
       case Ok(Some(r)) =>
         var (existed, after) := Delete(r, pos);
         (Deleted(Ok(existed)), Commit(g, region, after)))
    case SetChunk(pos, chunk, options, now) =>
      (match fetched
       case Err(e) => (WasSet(Err(e)), g)
       case Ok(found) =>
         var r := if found.Some? then found.value else Create(FileOf(g.disk, region), g.disk.side);
         var (done, after) := Set(r, codec, options, pos, chunk, now);
         (WasSet(done), Commit(g, region, after)))
  }

  function Run(f: Folder, codec: Codec, ops: seq<Operation>): (seq<Answer>, Folder)
    decreases |ops|
  {
    if ops == [] then ([], f)
    else
      var (answer, g) := Step(f, codec, ops[0]);
      var (answers, h) := Run(g, codec, ops[1..]);
      ([answer] + answers, h)
  }

  // ---- The map that the store is meant to be ----

  type Content = map<ChunkPos, RawChunk>

  /** Why a set is refused, if it is: because the chunk cannot be encoded, or because its payload has more than
      1044475 bytes and such chunks are to be skipped. */
  function Refusal(codec: Codec, options: WriteOptions, chunk: Compound): Option<RegionError> {
    match codec.encode(options.compression, chunk)
    case Err(e) => Some(e)
    case Ok(payload) => if |payload| > 1044475 && options.skipOversizedChunks then Some(OversizedChunk) else None
  }

  lemma RefusalIsPrepare(codec: Codec, options: WriteOptions, chunk: Compound)
    ensures Prepare(codec, options, chunk) ==
      match Refusal(codec, options, chunk)
      case None => Ok(codec.encode(options.compression, chunk).value)
      case Some(e) => Err(e)
  {
  }

  /** A set may be refused; the map then stays as it is. */
  function MapStep(m: Content, codec: Codec, op: Operation): (Answer, Content) {
    match op
    case GetChunk(pos) => (Got(Ok(if pos in m then Some(m[pos]) else None)), m)
    case DeleteChunk(pos) => (Deleted(Ok(pos in m)), m - {pos})
    case SetChunk(pos, chunk, options, now) =>
      match Refusal(codec, options, chunk)
      case Some(e) => (WasSet(Err(e)), m)
      case None => (WasSet(Ok(())), m[pos := RawChunk(chunk, now)])
  }

  function MapRun(m: Content, codec: Codec, ops: seq<Operation>): (seq<Answer>, Content)
    decreases |ops|
  {
    if ops == [] then ([], m)
    else
      var (answer, n) := MapStep(m, codec, ops[0]);
      var (answers, last) := MapRun(n, codec, ops[1..]);
      ([answer] + answers, last)
  }

  /** No set is refused at a position that holds a chunk. A caller can check this beforehand. */
  predicate Clean(m: Content, codec: Codec, op: Operation) {
    op.SetChunk? ==> Refusal(codec, op.options, op.chunk).None? || op.pos !in m
  }

  predicate CleanRun(m: Content, codec: Codec, ops: seq<Operation>)
    decreases |ops|
  {
    ops != [] ==> Clean(m, codec, ops[0]) && CleanRun(MapStep(m, codec, ops[0]).1, codec, ops[1..])
  }
}
