/** The folder of regions as the program keeps it: open regions behind a bounded
    least-recently-used cache, specified by `FolderModel.Step`. */
module RegionFolder {
  import opened Wrappers
  import opened Bytes
  import opened RegionModel
  import opened Region
  import F = FolderModel

  const LRU_CACHE_SIZE := 256

  datatype RegionEntry = Occupied(region: Region) | Vacant

  type Regions = F.Lru<RegionEntry>

  // ---- The cached objects and their abstraction ----

  /** The objects an entry owns. */
  ghost function Owned(entry: RegionEntry): set<object> {
    if entry.Vacant? then {} else {entry.region, entry.region.locations, entry.region.timestamps}
  }

  ghost function Footprint(regions: Regions): set<object> {
    if regions == [] then {} else Owned(regions[0].1) + Footprint(regions[1..])
  }

  ghost predicate ValidEntry(dir: Directory, key: RegionPos, entry: RegionEntry)
    reads Owned(entry)
  {
    entry.Occupied? ==> entry.region.dir == dir && entry.region.path == key && entry.region.Shaped()
  }

  /** Each open region works on its own file, with tables of its own, and is entered once. */
  ghost predicate ValidEntries(dir: Directory, regions: Regions)
    reads Footprint(regions)
  {
    regions != [] ==>
      && ValidEntry(dir, regions[0].0, regions[0].1)
      && Owned(regions[0].1) !! Footprint(regions[1..])
      && dir !in Owned(regions[0].1)
      && F.Without(regions[1..], regions[0].0) == regions[1..]
      && ValidEntries(dir, regions[1..])
  }

  ghost function EntryValue(dir: Directory, key: RegionPos, entry: RegionEntry): F.Entry
    requires ValidEntry(dir, key, entry)
    reads Owned(entry)
  {
    match entry
    case Vacant => F.Vacant
    case Occupied(region) => region.Tables()
  }

  ghost function Entries(dir: Directory, regions: Regions): F.Cache
    requires ValidEntries(dir, regions)
    reads Footprint(regions)
  {
    if regions == [] then []
    else [(regions[0].0, EntryValue(dir, regions[0].0, regions[0].1))] + Entries(dir, regions[1..])
  }

  ghost predicate HaveFiles(dir: Directory, regions: Regions)
    reads dir
  {
    forall k :: 0 <= k < |regions| && regions[k].1.Occupied? ==> regions[k].0 in dir.files
  }

  // ---- The cache operations act alike on objects and on their abstraction ----

  lemma {:induction false} WithoutCommutes(dir: Directory, regions: Regions, key: RegionPos)
    requires ValidEntries(dir, regions)
    ensures Footprint(F.Without(regions, key)) <= Footprint(regions)
    ensures F.Without(F.Without(regions, key), key) == F.Without(regions, key)
    ensures ValidEntries(dir, F.Without(regions, key))
    ensures Entries(dir, F.Without(regions, key)) == F.Without(Entries(dir, regions), key)
  {
    if regions != [] {
      var first, rest := regions[0], regions[1..];
      WithoutCommutes(dir, rest, key);
      WithoutSwap(rest, first.0, key);
    }
  }

  lemma {:induction false} WithoutSwap(regions: Regions, a: RegionPos, b: RegionPos)
    ensures F.Without(F.Without(regions, a), b) == F.Without(F.Without(regions, b), a)
  {
    if regions != [] {
      WithoutSwap(regions[1..], a, b);
    }
  }

  lemma {:induction false} LookupCommutes(dir: Directory, regions: Regions, key: RegionPos)
    requires ValidEntries(dir, regions)
    ensures F.Lookup(regions, key).Some? <==> F.Lookup(Entries(dir, regions), key).Some?
    ensures F.Lookup(regions, key).Some? ==>
      var entry := F.Lookup(regions, key).value;
      && ValidEntry(dir, key, entry)
      && F.Lookup(Entries(dir, regions), key).value == EntryValue(dir, key, entry)
      && Owned(entry) <= Footprint(regions)
      && Owned(entry) !! Footprint(F.Without(regions, key))
      && dir !in Owned(entry)
      && (key, entry) in regions
  {
    if regions != [] {
      LookupCommutes(dir, regions[1..], key);
    }
  }

  lemma {:induction false} WithoutTake(regions: Regions, key: RegionPos, n: nat)
    requires n <= |regions| && F.Without(regions, key) == regions
    ensures F.Without(regions[..n], key) == regions[..n]
  {
    if n > 0 {
      WithoutShrinks(regions[1..], key);
      WithoutTake(regions[1..], key, n - 1);
      assert regions[..n][1..] == regions[1..][..n - 1];
    }
  }

  lemma {:induction false} WithoutShrinks(regions: Regions, key: RegionPos)
    ensures |F.Without(regions, key)| <= |regions|
  {
    if regions != [] {
      WithoutShrinks(regions[1..], key);
    }
  }

  lemma {:induction false} TakeCommutes(dir: Directory, regions: Regions, n: nat)
    requires ValidEntries(dir, regions) && n <= |regions|
    ensures Footprint(regions[..n]) <= Footprint(regions)
    ensures |Entries(dir, regions)| == |regions|
    ensures ValidEntries(dir, regions[..n])
    ensures Entries(dir, regions[..n]) == Entries(dir, regions)[..n]
  {
    if regions != [] {
      if n > 0 {
        TakeCommutes(dir, regions[1..], n - 1);
        assert regions[..n][1..] == regions[1..][..n - 1];
        WithoutTake(regions[1..], regions[0].0, n - 1);
      } else {
        TakeCommutes(dir, regions[1..], 0);
      }
    }
  }

  /** Putting an entry with objects of its own at the front of the cache. */
  lemma PutCommutes(dir: Directory, regions: Regions, key: RegionPos, entry: RegionEntry)
    requires ValidEntries(dir, regions) && ValidEntry(dir, key, entry)
    requires dir !in Owned(entry) && Owned(entry) !! Footprint(F.Without(regions, key))
    ensures var after := F.Put(regions, LRU_CACHE_SIZE, key, entry);
      && ValidEntries(dir, after)
      && after[0] == (key, entry)
      && |after| <= LRU_CACHE_SIZE
      && Footprint(after) <= Footprint(regions) + Owned(entry)
      && Entries(dir, after) == F.Put(Entries(dir, regions), LRU_CACHE_SIZE, key, EntryValue(dir, key, entry))
  {
    var rest := F.Without(regions, key);
    WithoutCommutes(dir, regions, key);
    var all := [(key, entry)] + rest;
    assert all[1..] == rest;
    assert Entries(dir, all) == [(key, EntryValue(dir, key, entry))] + Entries(dir, rest);
    TakeCommutes(dir, all, 0);
    if |all| > LRU_CACHE_SIZE {
      TakeCommutes(dir, all, LRU_CACHE_SIZE);
    }
  }

  lemma {:induction false} PutFiles(dir: Directory, regions: Regions, key: RegionPos, entry: RegionEntry)
    requires HaveFiles(dir, regions)
    requires entry.Occupied? ==> key in dir.files
    ensures HaveFiles(dir, F.Put(regions, LRU_CACHE_SIZE, key, entry))
  {
    WithoutFiles(dir, regions, key);
  }

  lemma {:induction false} WithoutFiles(dir: Directory, regions: Regions, key: RegionPos)
    requires HaveFiles(dir, regions)
    ensures HaveFiles(dir, F.Without(regions, key))
  {
    if regions != [] {
      var rest := regions[1..];
      assert forall k :: 0 <= k < |rest| ==> rest[k] == regions[k + 1];
      WithoutFiles(dir, rest, key);
    }
  }

  lemma {:induction false} NotOwned(dir: Directory, regions: Regions)
    requires ValidEntries(dir, regions)
    ensures dir !in Footprint(regions)
  {
    if regions != [] {
      NotOwned(dir, regions[1..]);
    }
  }

  /** Putting at the key that is already in front replaces the front value and nothing else. */
  lemma PutFront(dir: Directory, regions: Regions, value: F.Entry)
    requires ValidEntries(dir, regions) && 0 < |regions| <= LRU_CACHE_SIZE
    ensures F.Put(Entries(dir, regions), LRU_CACHE_SIZE, regions[0].0, value) ==
            [(regions[0].0, value)] + Entries(dir, regions[1..])
  {
    WithoutCommutes(dir, regions[1..], regions[0].0);
    TakeCommutes(dir, regions[1..], 0);
  }

  /** A region just put in front and then changed was put once, with the changed value. */
  lemma PutTwice(cache: F.Cache, key: RegionPos, first: F.Entry, second: F.Entry)
    ensures F.Put(F.Put(cache, LRU_CACHE_SIZE, key, first), LRU_CACHE_SIZE, key, second) ==
            F.Put(cache, LRU_CACHE_SIZE, key, second)
  {
    var rest := F.Without(cache, key);
    var kept := if |rest| > LRU_CACHE_SIZE - 1 then rest[..LRU_CACHE_SIZE - 1] else rest;
    assert F.Put(cache, LRU_CACHE_SIZE, key, first) == [(key, first)] + kept;
    assert F.Put(cache, LRU_CACHE_SIZE, key, second) == [(key, second)] + kept;
    assert kept == rest[..|kept|];
    WithoutIdempotent(cache, key, |kept|);
    assert ([(key, first)] + kept)[1..] == kept;
  }

  lemma {:induction false} WithoutIdempotent(cache: F.Cache, key: RegionPos, n: nat)
    requires n <= |F.Without(cache, key)|
    ensures F.Without(F.Without(cache, key)[..n], key) == F.Without(cache, key)[..n]
  {
    if n > 0 {
      if cache[0].0 == key {
        WithoutIdempotent(cache[1..], key, n);
      } else {
        WithoutIdempotent(cache[1..], key, n - 1);
        assert F.Without(cache, key)[..n][1..] == F.Without(cache[1..], key)[..n - 1];
      }
    }
  }

  lemma CommitTwice(f: F.Folder, key: RegionPos, first: RegionState, second: RegionState)
    requires f.capacity == LRU_CACHE_SIZE
    ensures F.Commit(F.Commit(f, key, first), key, second) == F.Commit(f, key, second)
  {
    PutTwice(f.cache, key, F.EntryOf(first), F.EntryOf(second));
  }

  // ---- The folder ----

  class RegionFolder {
    const dir: Directory
    var regions: Regions
    /** The open regions and their tables. */
    ghost var Repr: set<object>

    ghost predicate Valid()
      reads this, dir, Repr
    {
      && Repr == Footprint(regions) && this !in Repr
      && |regions| <= LRU_CACHE_SIZE
      && ValidEntries(dir, regions)
      && HaveFiles(dir, regions)
    }

    ghost function Folder(): F.Folder
      requires Valid()
      reads this, dir, Repr
    {
      F.Folder(dir.Disk(), Entries(dir, regions), LRU_CACHE_SIZE)
    }

    constructor (dir: Directory)
      ensures Valid() && this.dir == dir
      ensures Folder() == F.Folder(dir.Disk(), [], 256)
    {
      this.dir := dir;
      regions := [];
      Repr := {};
    }

    /** `LruCache::put`, also the promotion of a hit. */
    method Remember(key: RegionPos, entry: RegionEntry)
      requires Valid() && ValidEntry(dir, key, entry)
      requires this !in Owned(entry) && dir !in Owned(entry)
      requires Owned(entry) !! Footprint(F.Without(regions, key))
      requires entry.Occupied? ==> key in dir.files
      modifies this`regions, this`Repr
      ensures Valid()
      ensures regions == F.Put(old(regions), LRU_CACHE_SIZE, key, entry) && regions[0] == (key, entry)
      ensures Repr <= old(Repr) + Owned(entry)
      ensures Folder() == F.Remember(old(Folder()), key, old(EntryValue(dir, key, entry)))
    {
      PutCommutes(dir, regions, key, entry);
      PutFiles(dir, regions, key, entry);
      regions := F.Put(regions, LRU_CACHE_SIZE, key, entry);
      Repr := Footprint(regions);
    }

    /** Remember a region whose tables the cache does not have yet. */
    method RememberNew(key: RegionPos, region: Region)
      requires Valid() && ValidEntry(dir, key, Occupied(region)) && key in dir.files
      requires Owned(Occupied(region)) !! Repr + {this, dir}
      modifies this`regions, this`Repr
      ensures Valid() && |regions| > 0 && regions[0] == (key, Occupied(region))
      ensures Repr <= old(Repr) + Owned(Occupied(region))
      ensures Folder() == F.Remember(old(Folder()), key, old(region.Tables()))
    {
      WithoutCommutes(dir, regions, key);
      Remember(key, Occupied(region));
    }

    /** A cache miss: open the region file now; a missing file is remembered too. */
    method Load(key: RegionPos) returns (r: Result<Option<Region>, RegionError>)
      requires Valid() && F.Lookup(Folder().cache, key).None?
      modifies this`regions, this`Repr
      ensures Valid() && fresh(Repr - old(Repr))
      ensures Folder() == F.Fetch(old(Folder()), key).1
      ensures Fetched(key, r, F.Fetch(old(Folder()), key).0)
    {
      if key !in dir.files {
        Remember(key, Vacant);
        return Ok(None);
      }
      var region := Region.Open(dir, key);
      if region.Err? {
        return Err(region.error);
      }
      RememberNew(key, region.value);
      return Ok(Some(region.value));
    }

    /** What a search for a region returned: the same as expected, the object being in front. */
    ghost predicate Fetched(key: RegionPos, r: Result<Option<Region>, RegionError>,
                            expected: Result<Option<RegionState>, RegionError>)
      reads this, dir, Repr, if r.Ok? && r.value.Some? then Owned(Occupied(r.value.value)) + {r.value.value.dir} else {}
    {
      match expected
      case Err(e) => r == Err(e)
      case Ok(None) => r == Ok(None)
      case Ok(Some(state)) =>
        && r.Ok? && r.value.Some? && |regions| > 0 && regions[0] == (key, Occupied(r.value.value))
        && r.value.value.Valid() && r.value.value.State() == state
    }

    /** The open region at `key`, from the cache or else from its file. */
    method FindRegion(key: RegionPos) returns (r: Result<Option<Region>, RegionError>)
      requires Valid()
      modifies this`regions, this`Repr
      ensures Valid() && fresh(Repr - old(Repr))
      ensures Folder() == F.Fetch(old(Folder()), key).1
      ensures Fetched(key, r, F.Fetch(old(Folder()), key).0)
    {
      LookupCommutes(dir, regions, key);
      var cached := F.Lookup(regions, key);
      if cached.None? {
        r := Load(key);
        return;
      }
      Remember(key, cached.value);
      match cached.value {
        case Occupied(region) => return Ok(Some(region));
        case Vacant => return Ok(None);
      }
    }

    /** A new region file, put in front of the cache. */
    method CreateRegion(key: RegionPos) returns (region: Region)
      requires Valid()
      modifies this`regions, this`Repr, dir
      ensures Valid() && fresh(Repr - old(Repr))
      ensures |regions| > 0 && regions[0] == (key, Occupied(region)) && region.Valid()
      ensures region.State() == RegionModel.Create(F.FileOf(old(dir.Disk()), key), old(dir.side))
      ensures Folder() == F.Commit(old(Folder()), key, region.State())
    {
      NotOwned(dir, regions);
      region := new Region.Create(dir, key);
      RememberNew(key, region);
    }

    method GetChunk(codec: Codec, pos: ChunkPos) returns (r: Result<Option<RawChunk>, RegionError>)
      requires Valid()
      modifies this`regions, this`Repr
      ensures Valid() && fresh(Repr - old(Repr))
      ensures (F.Got(r), Folder()) == F.Step(old(Folder()), codec, F.GetChunk(pos))
    {
      var found := FindRegion(RegionOf(pos));
      if found.Err? {
        return Err(found.error);
      }
      if found.value.None? {
        return Ok(None);
      }
      r := found.value.value.GetChunk(codec, pos);
    }

    /** Delete within the region in front of the cache. */
    method DeleteIn(region: Region, pos: ChunkPos) returns (existed: bool)
      requires Valid() && |regions| > 0 && regions[0] == (RegionOf(pos), Occupied(region)) && region.Valid()
      modifies Repr, dir
      ensures Valid() && Repr == old(Repr) && region.Valid()
      ensures existed == Delete(old(region.State()), pos).0
      ensures Folder() == F.Commit(old(Folder()), RegionOf(pos), Delete(old(region.State()), pos).1)
    {
      NotOwned(dir, regions);
      PutFront(dir, regions, F.EntryOf(Delete(region.State(), pos).1));
      existed := region.DeleteChunk(pos, true);
    }

    /** Set within the region in front of the cache. */
    method SetIn(region: Region, codec: Codec, options: WriteOptions, pos: ChunkPos, chunk: Compound, now: u32)
      returns (r: Result<(), RegionError>)
      requires Valid() && |regions| > 0 && regions[0] == (RegionOf(pos), Occupied(region)) && region.Valid()
      modifies Repr, dir
      ensures Valid() && Repr == old(Repr) && region.Valid()
      ensures r == Set(old(region.State()), codec, options, pos, chunk, now).0
      ensures Folder() ==
        F.Commit(old(Folder()), RegionOf(pos), Set(old(region.State()), codec, options, pos, chunk, now).1)
    {
      NotOwned(dir, regions);
      PutFront(dir, regions, F.EntryOf(Set(region.State(), codec, options, pos, chunk, now).1));
      r := region.SetChunk(codec, options, pos, chunk, now);
    }

    method DeleteChunk(ghost codec: Codec, pos: ChunkPos) returns (r: Result<bool, RegionError>)
      requires Valid()
      modifies this, dir, Repr
      ensures Valid() && fresh(Repr - old(Repr))
      ensures (F.Deleted(r), Folder()) == F.Step(old(Folder()), codec, F.DeleteChunk(pos))
    {
      var found := FindRegion(RegionOf(pos));
      if found.Err? {
        return Err(found.error);
      }
      if found.value.None? {
        return Ok(false);
      }
      var existed := DeleteIn(found.value.value, pos);
      return Ok(existed);
    }

    method SetChunk(codec: Codec, options: WriteOptions, pos: ChunkPos, chunk: Compound, now: u32)
      returns (r: Result<(), RegionError>)
      requires Valid()
      modifies this, dir, Repr
      ensures Valid() && fresh(Repr - old(Repr))
      ensures (F.WasSet(r), Folder()) == F.Step(old(Folder()), codec, F.SetChunk(pos, chunk, options, now))
    {
      var key := RegionOf(pos);
      var found := FindRegion(key);
      if found.Err? {
        return Err(found.error);
      }
      var region: Region;
      if found.value.Some? {
        region := found.value.value;
      } else {
        ghost var before := Folder();
        region := CreateRegion(key);
        CommitTwice(before, key, region.State(), Set(region.State(), codec, options, pos, chunk, now).1);
      }
      r := SetIn(region, codec, options, pos, chunk, now);
    }
  }
}
