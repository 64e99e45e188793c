/** The store as long as nothing is evicted, refused sets included. What the program then answers comes from
    memory, and a refused set has dropped its position there: the store is a map in which a refused set
    removes its position. */
module StoreMemory {
  import opened Wrappers
  import opened Bytes
  import opened RegionModel
  import opened RegionLaws
  import opened RegionStore
  import opened RegionReopen
  import opened FolderModel
  import opened FolderLaws
  import opened StoreTheorems

  // ---- The map ----

  /** A set that is refused leaves nothing at its position. */
  function ForgetfulStep(m: Content, codec: Codec, op: Operation): (Answer, Content) {
    var (answer, n) := MapStep(m, codec, op);
    (answer, if op.SetChunk? && Refusal(codec, op.options, op.chunk).Some? then m - {op.pos} else n)
  }

  function Find(m: Content, pos: ChunkPos): Option<RawChunk> {
    if pos in m then Some(m[pos]) else None
  }

  function ForgetfulRun(m: Content, codec: Codec, ops: seq<Operation>): (seq<Answer>, Content)
    decreases |ops|
  {
    if ops == [] then ([], m)
    else
      var (answer, n) := ForgetfulStep(m, codec, ops[0]);
      var (answers, last) := ForgetfulRun(n, codec, ops[1..]);
      ([answer] + answers, last)
  }

  // ---- What the folder has in memory, or would open ----

  function RegionIn(f: Folder, region: RegionPos): Option<RegionState> {
    match Lookup(f.cache, region)
    case Some(entry) => if entry.Vacant? then None else Some(StateOf(f.disk, region, entry))
    case None =>
      if region in f.disk.files && Open(f.disk.files[region], f.disk.side).Ok?
      then Some(Open(f.disk.files[region], f.disk.side).value)
      else None
  }

  function FolderGet(f: Folder, codec: Codec, pos: ChunkPos): Result<Option<RawChunk>, RegionError> {
    match RegionIn(f, RegionOf(pos))
    case None => Ok(None)
    case Some(r) => Get(r, codec, pos)
  }

  /** Every region file is known or can be opened, and its allocator and records are sound. The header may be
      ahead of memory. */
  ghost predicate Sane(f: Folder) {
    forall region ::
      && (region in f.disk.files <==> RegionIn(f, region).Some?)
      && (RegionIn(f, region).Some? ==> Inv(RegionIn(f, region).value))
  }

  /** The folder answers with exactly the chunks of `m`. */
  ghost predicate Answers(f: Folder, codec: Codec, m: Content) {
    forall pos :: FolderGet(f, codec, pos) == Ok(Find(m, pos))
  }

  // ---- Remembering without evicting ----

  predicate HasRoom(f: Folder, region: RegionPos) {
    |Without(f.cache, region)| < f.capacity
  }

  lemma {:induction false} LookupWithout<V>(cache: Lru<V>, region: RegionPos, other: RegionPos)
    requires other != region
    ensures Lookup(Without(cache, region), other) == Lookup(cache, other)
  {
    if cache != [] {
      LookupWithout(cache[1..], region, other);
      if cache[0].0 != region {
        assert Without(cache, region)[1..] == Without(cache[1..], region);
      }
    }
  }

  lemma RememberFinds(f: Folder, region: RegionPos, entry: Entry, other: RegionPos)
    requires HasRoom(f, region)
    ensures Lookup(Remember(f, region, entry).cache, other) ==
            if other == region then Some(entry) else Lookup(f.cache, other)
  {
    var all := [(region, entry)] + Without(f.cache, region);
    assert Put(f.cache, f.capacity, region, entry) == all && all[1..] == Without(f.cache, region);
    if other != region {
      LookupWithout(f.cache, region, other);
    }
  }

  /** Fetching a region gives what the folder has, and changes nothing that could be read. */
  lemma FetchIn(f: Folder, region: RegionPos, other: RegionPos)
    requires Sane(f) && HasRoom(f, region)
    ensures var (fetched, g) := Fetch(f, region);
      fetched == Ok(RegionIn(f, region)) && g.disk == f.disk && RegionIn(g, other) == RegionIn(f, other)
  {
    match Lookup(f.cache, region)
    case Some(entry) => RememberFinds(f, region, entry, other);
    case None =>
      if region !in f.disk.files {
        RememberFinds(f, region, Vacant, other);
      } else {
        var r := Open(f.disk.files[region], f.disk.side).value;
        RememberFinds(f, region, EntryOf(r), other);
        assert StateOf(f.disk, region, EntryOf(r)) == r;
      }
  }

  function WithSide(r: Option<RegionState>, side: SideFiles): Option<RegionState> {
    match r
    case None => None
    case Some(state) => Some(state.(side := side))
  }

  /** Committing a region replaces what the folder has of it; of the others, only the side files. */
  lemma CommitIn(g: Folder, region: RegionPos, r: RegionState, other: RegionPos)
    requires HasRoom(g, region)
    ensures RegionIn(Commit(g, region, r), other) ==
            if other == region then Some(r) else WithSide(RegionIn(g, other), r.side)
  {
    var h := g.(disk := Written(region, r, g.disk));
    RememberFinds(h, region, EntryOf(r), other);
    if other == region {
      assert StateOf(h.disk, region, EntryOf(r)) == r;
    } else if Lookup(g.cache, other).None? && other in g.disk.files {
      OpenSide(g.disk.files[other], g.disk.side, r.side);
    }
  }

  lemma OpenSide(file: seq<byte>, side: SideFiles, more: SideFiles)
    ensures Open(file, side).Ok? <==> Open(file, more).Ok?
    ensures Open(file, side).Ok? ==> Open(file, more).value == Open(file, side).value.(side := more)
  {
  }

  /** What the other regions read is not affected, if side files change at positions of this one only. */
  lemma CommitReads(g: Folder, codec: Codec, region: RegionPos, r: RegionState, q: ChunkPos)
    requires HasRoom(g, region)
    requires RegionOf(q) != region ==> SideFile(r.side, q) == SideFile(g.disk.side, q)
    ensures FolderGet(Commit(g, region, r), codec, q) ==
            if RegionOf(q) == region then Get(r, codec, q) else FolderGet(g, codec, q)
  {
    CommitIn(g, region, r, RegionOf(q));
    if RegionOf(q) != region && RegionIn(g, RegionOf(q)).Some? {
      var state := RegionIn(g, RegionOf(q)).value;
      assert state.side == g.disk.side;
      ReadsAlike(state, state.(side := r.side), codec, q);
    }
  }

  lemma CommitSane(g: Folder, region: RegionPos, r: RegionState)
    requires Sane(g) && HasRoom(g, region) && Inv(r)
    ensures Sane(Commit(g, region, r))
  {
    var h := Commit(g, region, r);
    forall other
      ensures other in h.disk.files <==> RegionIn(h, other).Some?
      ensures RegionIn(h, other).Some? ==> Inv(RegionIn(h, other).value)
    {
      CommitIn(g, region, r, other);
      if other != region && RegionIn(g, other).Some? {
        var state := RegionIn(g, other).value;
        assert Inv(state.(side := r.side));
      }
    }
  }

  // ---- Room for all regions of a run ----

  ghost predicate Keyed(cache: Cache, regions: set<RegionPos>) {
    && (forall k :: 0 <= k < |cache| ==> cache[k].0 in regions)
    && (forall j, k :: 0 <= j < k < |cache| ==> cache[j].0 != cache[k].0)
  }

  lemma {:induction false} WithoutKeyed(cache: Cache, regions: set<RegionPos>, region: RegionPos)
    requires Keyed(cache, regions)
    ensures Keyed(Without(cache, region), regions - {region})
  {
    if cache != [] {
      WithoutKeyed(cache[1..], regions - {cache[0].0}, region);
      var rest := Without(cache[1..], region);
      assert forall k :: 0 <= k < |rest| ==> rest[k].0 != cache[0].0 && rest[k].0 in regions - {region};
    }
  }

  lemma {:induction false} KeyedSize(cache: Cache, regions: set<RegionPos>)
    requires Keyed(cache, regions)
    ensures |cache| <= |regions|
  {
    if cache != [] {
      assert Keyed(cache[1..], regions - {cache[0].0});
      KeyedSize(cache[1..], regions - {cache[0].0});
    }
  }

  /** A cache that can hold all regions of a run never evicts one. */
  ghost predicate Roomy(f: Folder, regions: set<RegionPos>) {
    Keyed(f.cache, regions) && |regions| <= f.capacity
  }

  lemma RoomyHasRoom(f: Folder, regions: set<RegionPos>, region: RegionPos)
    requires Roomy(f, regions) && region in regions
    ensures HasRoom(f, region)
  {
    WithoutKeyed(f.cache, regions, region);
    KeyedSize(Without(f.cache, region), regions - {region});
  }

  lemma RememberRoomy(f: Folder, regions: set<RegionPos>, region: RegionPos, entry: Entry)
    requires Roomy(f, regions) && region in regions
    ensures Roomy(Remember(f, region, entry), regions)
  {
    WithoutKeyed(f.cache, regions, region);
  }

  lemma FetchRoomy(f: Folder, regions: set<RegionPos>, region: RegionPos)
    requires Roomy(f, regions) && region in regions
    ensures Roomy(Fetch(f, region).1, regions)
  {
    match Lookup(f.cache, region)
    case Some(entry) => RememberRoomy(f, regions, region, entry);
    case None =>
      RememberRoomy(f, regions, region, Vacant);
      if region in f.disk.files && Open(f.disk.files[region], f.disk.side).Ok? {
        RememberRoomy(f, regions, region, EntryOf(Open(f.disk.files[region], f.disk.side).value));
      }
  }

  lemma CommitRoomy(g: Folder, regions: set<RegionPos>, region: RegionPos, r: RegionState)
    requires Roomy(g, regions) && region in regions
    ensures Roomy(Commit(g, region, r), regions)
  {
    RememberRoomy(g.(disk := Written(region, r, g.disk)), regions, region, EntryOf(r));
  }

  // ---- One operation ----

  /** The folder is sound, has room, and answers with `m`. */
  ghost predicate Serves(f: Folder, codec: Codec, m: Content, regions: set<RegionPos>) {
    Sane(f) && Roomy(f, regions) && Answers(f, codec, m)
  }

  lemma FetchServes(f: Folder, codec: Codec, m: Content, regions: set<RegionPos>, region: RegionPos)
    requires Serves(f, codec, m, regions) && region in regions
    ensures var (fetched, g) := Fetch(f, region);
      && fetched == Ok(RegionIn(f, region)) && Serves(g, codec, m, regions)
      && g.disk == f.disk && RegionIn(g, region) == RegionIn(f, region)
  {
    var g := Fetch(f, region).1;
    RoomyHasRoom(f, regions, region);
    FetchRoomy(f, regions, region);
    forall other
      ensures RegionIn(g, other) == RegionIn(f, other) && g.disk == f.disk
    {
      FetchIn(f, region, other);
    }
    FetchIn(f, region, region);
    forall pos
      ensures FolderGet(g, codec, pos) == Ok(Find(m, pos))
    {
      assert FolderGet(g, codec, pos) == FolderGet(f, codec, pos);
    }
  }

  /** One region is replaced by one that reads as `n` in its positions, where `n` is `m` elsewhere. */
  lemma CommitServes(g: Folder, codec: Codec, m: Content, n: Content, regions: set<RegionPos>, region: RegionPos,
                     r: RegionState)
    requires Serves(g, codec, m, regions) && region in regions && Inv(r)
    requires forall q :: RegionOf(q) != region ==> SideFile(r.side, q) == SideFile(g.disk.side, q)
    requires forall q :: RegionOf(q) == region ==> Get(r, codec, q) == Ok(Find(n, q))
    requires forall q :: RegionOf(q) != region ==> (q in n <==> q in m) && (q in n ==> n[q] == m[q])
    ensures Serves(Commit(g, region, r), codec, n, regions)
  {
    RoomyHasRoom(g, regions, region);
    CommitSane(g, region, r);
    CommitRoomy(g, regions, region, r);
    forall q
      ensures FolderGet(Commit(g, region, r), codec, q) == Ok(Find(n, q))
    {
      CommitReads(g, codec, region, r, q);
      assert FolderGet(g, codec, q) == Ok(Find(m, q));
    }
  }

  /** The region that an operation on `pos` works on reads as `m` does. */
  ghost predicate Reads(r: RegionState, codec: Codec, m: Content, region: RegionPos) {
    forall q :: RegionOf(q) == region ==> Get(r, codec, q) == Ok(Find(m, q))
  }

  lemma InReads(f: Folder, codec: Codec, m: Content, region: RegionPos)
    requires Sane(f) && Answers(f, codec, m) && RegionIn(f, region).Some?
    ensures Inv(RegionIn(f, region).value) && RegionIn(f, region).value.side == f.disk.side
    ensures Reads(RegionIn(f, region).value, codec, m, region)
  {
    forall q | RegionOf(q) == region
      ensures Get(RegionIn(f, region).value, codec, q) == Ok(Find(m, q))
    {
      assert FolderGet(f, codec, q) == Ok(Find(m, q));
    }
  }

  lemma CreatedReads(f: Folder, codec: Codec, m: Content, region: RegionPos)
    requires Sane(f) && Answers(f, codec, m) && RegionIn(f, region).None?
    ensures FileOf(f.disk, region) == []
    ensures Inv(Create([], f.disk.side)) && Reads(Create([], f.disk.side), codec, m, region)
  {
    CreateOk([], f.disk.side);
    forall q | RegionOf(q) == region
      ensures Get(Create([], f.disk.side), codec, q) == Ok(Find(m, q))
    {
      assert FolderGet(f, codec, q) == Ok(Find(m, q));
    }
  }

  lemma GetServes(f: Folder, codec: Codec, m: Content, regions: set<RegionPos>, pos: ChunkPos)
    requires Serves(f, codec, m, regions) && RegionOf(pos) in regions
    ensures var (answer, g) := Step(f, codec, GetChunk(pos));
      answer == Got(Ok(Find(m, pos))) && Serves(g, codec, m, regions)
  {
    FetchServes(f, codec, m, regions, RegionOf(pos));
    assert FolderGet(f, codec, pos) == Ok(Find(m, pos));
  }

  lemma DeletedReads(r: RegionState, codec: Codec, m: Content, pos: ChunkPos)
    requires Inv(r) && Reads(r, codec, m, RegionOf(pos))
    ensures Delete(r, pos).0 <==> pos in m
    ensures Inv(Delete(r, pos).1) && Reads(Delete(r, pos).1, codec, m - {pos}, RegionOf(pos))
    ensures forall q :: q != pos ==> SideFile(Delete(r, pos).1.side, q) == SideFile(r.side, q)
  {
    DeleteKeepsInv(r, pos);
    PresentIsNotNone(r, codec, pos);
    assert Get(r, codec, pos) == Ok(Find(m, pos));
    forall q | RegionOf(q) == RegionOf(pos)
      ensures Get(Delete(r, pos).1, codec, q) == Ok(Find(m - {pos}, q))
    {
      DeleteThenGet(r, codec, pos, q);
    }
  }

  lemma DeleteStep(f: Folder, codec: Codec, pos: ChunkPos, g: Folder)
    requires Fetch(f, RegionOf(pos)) == (Ok(RegionIn(g, RegionOf(pos))), g)
    ensures Step(f, codec, DeleteChunk(pos)) ==
      match RegionIn(g, RegionOf(pos))
      case None => (Deleted(Ok(false)), g)
      case Some(r) => (Deleted(Ok(Delete(r, pos).0)), Commit(g, RegionOf(pos), Delete(r, pos).1))
  {
  }

  lemma DeleteServes(f: Folder, codec: Codec, m: Content, regions: set<RegionPos>, pos: ChunkPos)
    requires Serves(f, codec, m, regions) && RegionOf(pos) in regions
    ensures var (answer, g) := Step(f, codec, DeleteChunk(pos));
      answer == Deleted(Ok(pos in m)) && Serves(g, codec, m - {pos}, regions)
  {
    var region := RegionOf(pos);
    var g := Fetch(f, region).1;
    FetchServes(f, codec, m, regions, region);
    DeleteStep(f, codec, pos, g);
    match RegionIn(g, region)
    case None =>
      assert FolderGet(g, codec, pos) == Ok(Find(m, pos));
      assert m - {pos} == m;
    case Some(r) =>
      InReads(g, codec, m, region);
      DeletedReads(r, codec, m, pos);
      CommitServes(g, codec, m, m - {pos}, regions, region, Delete(r, pos).1);
  }

  lemma ForgetfulFinds(m: Content, codec: Codec, op: Operation, q: ChunkPos)
    requires op.SetChunk?
    ensures Find(ForgetfulStep(m, codec, op).1, q) ==
            if q != op.pos then Find(m, q)
            else if Prepare(codec, op.options, op.chunk).Ok? then Some(RawChunk(op.chunk, op.now))
            else None
    ensures ForgetfulStep(m, codec, op).0 ==
            WasSet(match Prepare(codec, op.options, op.chunk) case Ok(_) => Ok(()) case Err(e) => Err(e))
  {
    RefusalIsPrepare(codec, op.options, op.chunk);
  }

  lemma SetReadsAt(r: RegionState, codec: Codec, op: Operation, q: ChunkPos)
    requires op.SetChunk? && codec.RoundTrips() && Inv(r) && RegionOf(q) == RegionOf(op.pos)
    ensures Get(Set(r, codec, op.options, op.pos, op.chunk, op.now).1, codec, q) ==
            if q != op.pos then Get(r, codec, q)
            else if Prepare(codec, op.options, op.chunk).Ok? then Ok(Some(RawChunk(op.chunk, op.now)))
            else Ok(None)
  {
    if q != op.pos {
      SetThenGetOther(r, codec, op.options, op.pos, op.chunk, op.now, q);
    } else if Prepare(codec, op.options, op.chunk).Ok? {
      SetThenGet(r, codec, op.options, op.pos, op.chunk, op.now);
    } else {
      FailedSetThenGet(r, codec, op.options, op.pos, op.chunk, op.now);
    }
  }

  lemma SetReadsAs(r: RegionState, codec: Codec, m: Content, op: Operation, after: RegionState, n: Content)
    requires op.SetChunk? && codec.RoundTrips() && Inv(r) && Reads(r, codec, m, RegionOf(op.pos))
    requires after == Set(r, codec, op.options, op.pos, op.chunk, op.now).1 && n == ForgetfulStep(m, codec, op).1
    ensures Inv(after) && Reads(after, codec, n, RegionOf(op.pos))
  {
    SetKeepsInv(r, codec, op.options, op.pos, op.chunk, op.now);
    forall q | RegionOf(q) == RegionOf(op.pos)
      ensures Get(after, codec, q) == Ok(Find(n, q))
    {
      SetReadsAt(r, codec, op, q);
      ForgetfulFinds(m, codec, op, q);
    }
  }

  lemma SetStep(f: Folder, codec: Codec, op: Operation, g: Folder, r: RegionState)
    requires op.SetChunk? && Fetch(f, RegionOf(op.pos)) == (Ok(RegionIn(g, RegionOf(op.pos))), g)
    requires match RegionIn(g, RegionOf(op.pos))
      case None => r == Create(FileOf(g.disk, RegionOf(op.pos)), g.disk.side)
      case Some(found) => r == found
    ensures var (done, after) := Set(r, codec, op.options, op.pos, op.chunk, op.now);
      Step(f, codec, op) == (WasSet(done), Commit(g, RegionOf(op.pos), after))
  {
  }

  lemma SetServes(f: Folder, codec: Codec, m: Content, regions: set<RegionPos>, op: Operation)
    requires Serves(f, codec, m, regions) && RegionOf(op.pos) in regions
    requires op.SetChunk? && codec.RoundTrips()
    ensures var (answer, g) := Step(f, codec, op); var (expected, n) := ForgetfulStep(m, codec, op);
      answer == expected && Serves(g, codec, n, regions)
  {
    var region := RegionOf(op.pos);
    var g := Fetch(f, region).1;
    FetchServes(f, codec, m, regions, region);
    var r: RegionState;
    match RegionIn(g, region) {
      case None =>
        CreatedReads(g, codec, m, region);
        r := Create([], g.disk.side);
      case Some(found) =>
        InReads(g, codec, m, region);
        r := found;
    }
    SetStep(f, codec, op, g, r);
    var after, n := Set(r, codec, op.options, op.pos, op.chunk, op.now).1, ForgetfulStep(m, codec, op).1;
    SetOutcome(r, codec, op);
    ForgetfulFinds(m, codec, op, op.pos);
    SetReadsAs(r, codec, m, op, after, n);
    forall q | RegionOf(q) != region
      ensures SideFile(after.side, q) == SideFile(g.disk.side, q)
    {
      SetTouchesOwnSide(r, codec, op, q);
    }
    CommitServes(g, codec, m, n, regions, region, after);
  }

  // ---- Runs ----

  /** Over every run that the cache has room for, refused sets included, the folder answers as the map does in
      which a refused set removes its position. */
  lemma {:induction false} RefusalsForget(f: Folder, codec: Codec, m: Content, regions: set<RegionPos>,
                                          ops: seq<Operation>)
    requires Serves(f, codec, m, regions) && codec.RoundTrips()
    requires forall k :: 0 <= k < |ops| ==> RegionOf(ops[k].pos) in regions
    ensures var (answers, g) := Run(f, codec, ops); var (expected, n) := ForgetfulRun(m, codec, ops);
      answers == expected && Serves(g, codec, n, regions)
    decreases |ops|
  {
    if ops != [] {
      var op := ops[0];
      match op {
        case GetChunk(pos) => GetServes(f, codec, m, regions, pos);
        case DeleteChunk(pos) => DeleteServes(f, codec, m, regions, pos);
        case SetChunk(_, _, _, _) => SetServes(f, codec, m, regions, op);
      }
      RefusalsForget(Step(f, codec, op).1, codec, ForgetfulStep(m, codec, op).1, regions, ops[1..]);
    }
  }

  /** A folder whose files hold `m` can start such a run, with nothing in its cache. */
  lemma FreshFolderServes(disk: Disk, codec: Codec, m: Content, capacity: nat, regions: set<RegionPos>)
    requires SoundDisk(disk) && Holds(disk, codec, m) && |regions| <= capacity
    ensures Serves(Folder(disk, [], capacity), codec, m, regions)
  {
    var f := Folder(disk, [], capacity);
    forall region
      ensures region in f.disk.files <==> RegionIn(f, region).Some?
      ensures RegionIn(f, region).Some? ==> Inv(RegionIn(f, region).value)
    {
      if region in disk.files {
        OpenWithSide(disk.files[region], disk.side);
      }
    }
    forall pos
      ensures FolderGet(f, codec, pos) == Ok(Find(m, pos))
    {
      if RegionOf(pos) in disk.files {
        OpenWithSide(disk.files[RegionOf(pos)], disk.side);
      }
      assert DiskGet(disk, codec, pos) == Ok(Find(m, pos));
    }
  }
}
