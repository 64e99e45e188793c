/** Closing a region and opening its file again: the tables come back, and the bitmap up to
    trailing free bits, exactly when no set failed on a stored chunk. */
module RegionReopen {
  import opened Wrappers
  import opened Bytes
  import opened Sectors
  import opened RegionModel
  import opened RegionLaws
  import opened RegionStore

  // ---- States that no operation can tell apart ----

  ghost predicate Alike(a: RegionState, b: RegionState) {
    && a.file == b.file && a.side == b.side
    && a.locations == b.locations && a.timestamps == b.timestamps
    && SameUse(a.used, b.used)
  }

  lemma ForgetAlike(a: RegionState, b: RegionState, i: nat)
    requires i < ENTRIES && Alike(a, b)
    ensures Alike(Forget(a, i), Forget(b, i))
  {
    var start, end := a.locations[i].offset, a.locations[i].offset as int + a.locations[i].count;
    ClearedMeans(a.used, start, end);
    ClearedMeans(b.used, start, end);
  }

  lemma StoreAlike(a: RegionState, b: RegionState, i: nat, record: seq<byte>, n: nat, now: u32)
    requires i < ENTRIES && Alike(a, b)
    ensures Alike(Store(a, i, record, n, now), Store(b, i, record, n, now))
  {
    FirstFitIgnoresTrailing(a.used, b.used, n);
    ReservedMeans(a.used, FirstFit(a.used, n), n);
    ReservedMeans(b.used, FirstFit(a.used, n), n);
  }

  lemma GetAlike(a: RegionState, b: RegionState, codec: Codec, pos: ChunkPos)
    requires Alike(a, b)
    ensures Get(a, codec, pos) == Get(b, codec, pos)
  {
    ReadsAlike(a, b, codec, pos);
  }

  lemma DeleteAlike(a: RegionState, b: RegionState, pos: ChunkPos)
    requires Alike(a, b)
    ensures Delete(a, pos).0 == Delete(b, pos).0 && Alike(Delete(a, pos).1, Delete(b, pos).1)
  {
    ForgetAlike(a, b, ChunkIdx(pos));
  }

  lemma SetAlike(a: RegionState, b: RegionState, codec: Codec, options: WriteOptions,
                 pos: ChunkPos, chunk: Compound, now: u32)
    requires Alike(a, b)
    ensures Set(a, codec, options, pos, chunk, now).0 == Set(b, codec, options, pos, chunk, now).0
    ensures Alike(Set(a, codec, options, pos, chunk, now).1, Set(b, codec, options, pos, chunk, now).1)
  {
    var i := ChunkIdx(pos);
    ForgetAlike(a, b, i);
    if Prepare(codec, options, chunk).Ok? {
      var payload := Prepare(codec, options, chunk).value;
      var side := if Oversized(payload) then a.side[pos := payload] else a.side - {pos};
      StoreAlike(Forget(a, i).(side := side), Forget(b, i).(side := side), i,
                 Record(options.compression, payload), RecordSectors(payload), now);
    }
  }

  // ---- What opening a file rebuilds ----

  /** For any file: exactly the header sectors and the honoured entries' sectors are used. */
  lemma {:induction false} OpenedUsedMeans(locations: Locations, fileLength: nat, n: nat, s: nat)
    requires n <= ENTRIES
    ensures !FreeAt(OpenedUsed(locations, fileLength, n), s) <==>
            s < 2 || exists i :: 0 <= i < n && Plausible(locations[i], fileLength) && locations[i].Holds(s)
  {
    if n > 0 {
      OpenedUsedMeans(locations, fileLength, n - 1, s);
      ReservedMeans(OpenedUsed(locations, fileLength, n - 1), locations[n - 1].offset, locations[n - 1].count);
    }
  }

  lemma ZeroEntry(file: seq<byte>, i: nat)
    requires i < ENTRIES && |file| >= 2 * SECTOR_SIZE
    requires forall k :: 0 <= k < 2 * SECTOR_SIZE ==> file[k] == 0
    ensures LocationAt(file, i) == NO_LOCATION && TimestampAt(file, i) == 0
  {
    var zero: seq<byte> := [0, 0, 0, 0];
    assert file[i * 4..i * 4 + 4] == zero;
    assert file[i * 4 + SECTOR_SIZE..i * 4 + SECTOR_SIZE + 4] == zero;
    assert FromBe32(zero) == 0 == NO_LOCATION.Pack();
  }

  lemma CreateOk(file: seq<byte>, side: SideFiles)
    ensures Inv(Create(file, side)) && Synced(Create(file, side))
  {
    var r := Create(file, side);
    forall i | 0 <= i < ENTRIES
      ensures LocationAt(r.file, i) == NO_LOCATION && TimestampAt(r.file, i) == 0
    {
      ZeroEntry(r.file, i);
    }
  }

  lemma OpenRestores(r: RegionState)
    requires Inv(r) && Synced(r)
    ensures Open(r.file, r.side).Ok? && Alike(Open(r.file, r.side).value, r)
  {
    var o := Open(r.file, r.side).value;
    assert o.locations == r.locations;
    assert o.timestamps == r.timestamps;
    forall s: nat
      ensures FreeAt(o.used, s) <==> FreeAt(r.used, s)
    {
      OpenedUsedMeans(r.locations, |r.file|, ENTRIES, s);
      forall i | 0 <= i < ENTRIES && r.locations[i].Holds(s)
        ensures Plausible(r.locations[i], |r.file|)
      {
        assert Fits(r.file, r.locations[i]);
      }
    }
  }

  // ---- Which sets keep the header in step ----

  lemma SetOkSynced(r: RegionState, codec: Codec, options: WriteOptions, pos: ChunkPos, chunk: Compound, now: u32)
    requires Inv(r) && Synced(r)
    requires Prepare(codec, options, chunk).Ok?
    ensures Synced(Set(r, codec, options, pos, chunk, now).1)
  {
    SetOk(r, codec, options, pos, chunk, now);
  }

  /** A stored chunk never reads as absent. */
  lemma PresentIsNotNone(r: RegionState, codec: Codec, pos: ChunkPos)
    ensures Get(r, codec, pos) == Ok(None) <==> !Present(r, pos)
  {
  }

  /** Whether the header, and a fresh opening of the file, say what memory says. */
  ghost predicate InStep(r: RegionState, codec: Codec, pos: ChunkPos, inStep: bool) {
    && (Synced(r) <==> inStep)
    && Open(r.file, r.side).Ok?
    && (Alike(Open(r.file, r.side).value, r) <==> inStep)
    && (Get(Open(r.file, r.side).value, codec, pos) == Get(r, codec, pos) <==> inStep)
  }

  lemma SyncedInStep(r: RegionState, codec: Codec, pos: ChunkPos)
    requires Inv(r) && Synced(r)
    ensures InStep(r, codec, pos, true)
  {
    OpenRestores(r);
    GetAlike(Open(r.file, r.side).value, r, codec, pos);
  }

  /** Dropping a stored entry from memory alone leaves the two sides disagreeing about it. */
  lemma ForgottenOutOfStep(r: RegionState, codec: Codec, pos: ChunkPos)
    requires Inv(r) && Synced(r) && Present(r, pos)
    ensures InStep(Forget(r, ChunkIdx(pos)), codec, pos, false)
  {
    var after, i := Forget(r, ChunkIdx(pos)), ChunkIdx(pos);
    ForgetKeeps(r, i);
    SyncedInStep(r, codec, pos);
    PresentIsNotNone(after, codec, pos);
    PresentIsNotNone(r, codec, pos);
    assert LocationAt(after.file, i) == r.locations[i] != after.locations[i];
  }

  /** A set that fails has already dropped the entry from memory, while header and side file still
      hold it. So memory and disk agree after a set exactly when it succeeded or the position was
      empty; otherwise the two disagree about this very position. */
  lemma SetInStepIff(r: RegionState, codec: Codec, options: WriteOptions, pos: ChunkPos, chunk: Compound, now: u32)
    requires Inv(r) && Synced(r)
    ensures InStep(Set(r, codec, options, pos, chunk, now).1, codec, pos,
                   Prepare(codec, options, chunk).Ok? || !Present(r, pos))
  {
    var after := Set(r, codec, options, pos, chunk, now).1;
    if Prepare(codec, options, chunk).Ok? {
      SetKeepsInv(r, codec, options, pos, chunk, now);
      SetOkSynced(r, codec, options, pos, chunk, now);
      SyncedInStep(after, codec, pos);
    } else if Present(r, pos) {
      ForgottenOutOfStep(r, codec, pos);
    } else {
      SyncedInStep(r, codec, pos);
    }
  }
}
