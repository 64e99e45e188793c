/** The region store is a map: what set, delete and reopening do to every later read. */
module RegionStore {
  import opened Wrappers
  import opened Bytes
  import opened Sectors
  import opened RegionModel
  import opened RegionLaws
  import opened RegionMap

  // ---- Set ----

  /** The whole effect of a set that succeeds. */
  ghost predicate SetEffect(r: RegionState, after: RegionState, k: Compression, payload: seq<byte>,
                            pos: ChunkPos, now: u32)
    requires |r.file| >= 2 * SECTOR_SIZE
  {
    var i := ChunkIdx(pos);
    var loc, record := after.locations[i], Record(k, payload);
    && AllocationInv(after)
    && loc.offset >= 2 && loc.count == RecordSectors(payload)
    && after.locations == r.locations[i := loc]
    && after.timestamps == r.timestamps[i := now]
    && after.side == (if Oversized(payload) then r.side[pos := payload] else r.side - {pos})
    && KeptOutside(r.file, after.file, loc.offset * SECTOR_SIZE, |record|)
    && HeaderEntered(r.file, after.file, i, loc, now)
    && HoldsRecord(after.file, loc, record)
  }

  lemma RecordLength(k: Compression, payload: seq<byte>)
    ensures var n, record := RecordSectors(payload), Record(k, payload);
      (n - 1) * SECTOR_SIZE < |record| <= n * SECTOR_SIZE
  {
  }

  /** In memory: the entry points to the first gap that takes the record. */
  lemma SetInMemory(r: RegionState, codec: Codec, options: WriteOptions, pos: ChunkPos, chunk: Compound, now: u32)
    returns (payload: seq<byte>, loc: Location)
    requires AllocationInv(r)
    requires Prepare(codec, options, chunk).Ok?
    ensures payload == Prepare(codec, options, chunk).value
    ensures loc.offset >= 2 && loc.count == RecordSectors(payload)
    ensures var (result, after) := Set(r, codec, options, pos, chunk, now); var i := ChunkIdx(pos);
      && result.Ok?
      && AllocationInv(after)
      && after.locations == r.locations[i := loc]
      && after.timestamps == r.timestamps[i := now]
      && after.side == (if Oversized(payload) then r.side[pos := payload] else r.side - {pos})
      && after.file == Stored(r.file, i, loc, Record(options.compression, payload), now)
  {
    var i := ChunkIdx(pos);
    payload := Prepare(codec, options, chunk).value;
    var forgotten, n := Forget(r, i), RecordSectors(payload);
    ForgetKeeps(r, i);
    EnterKeeps(forgotten, i, n);
    StartBound(forgotten, i, n);
    loc := Location(n, FirstFit(forgotten.used, n));
    var entered := forgotten.(locations := forgotten.locations[i := loc],
                              used := Reserved(forgotten.used, loc.offset, n));
    var after := Set(r, codec, options, pos, chunk, now).1;
    assert after.locations == entered.locations && after.used == entered.used;
  }

  lemma SetOk(r: RegionState, codec: Codec, options: WriteOptions, pos: ChunkPos, chunk: Compound, now: u32)
    requires Inv(r)
    requires Prepare(codec, options, chunk).Ok?
    ensures var (result, after) := Set(r, codec, options, pos, chunk, now);
      result.Ok? && SetEffect(r, after, options.compression, Prepare(codec, options, chunk).value, pos, now)
  {
    var payload, loc := SetInMemory(r, codec, options, pos, chunk, now);
    RecordLength(options.compression, payload);
    StoredTables(r.file, ChunkIdx(pos), loc, Record(options.compression, payload), now);
    StoredKeeps(r.file, ChunkIdx(pos), loc, Record(options.compression, payload), now);
    StoredRecord(r.file, ChunkIdx(pos), loc, Record(options.compression, payload), now);
  }

  /** Another live entry's record is where it was. */
  lemma OtherRecord(r: RegionState, after: RegionState, k: Compression, payload: seq<byte>,
                    pos: ChunkPos, now: u32, j: nat, side: Option<seq<byte>>)
    requires Inv(r) && SetEffect(r, after, k, payload, pos, now)
    requires j < ENTRIES && j != ChunkIdx(pos) && !r.locations[j].IsNone()
    ensures after.locations[j] == r.locations[j]
    ensures Fits(after.file, r.locations[j])
    ensures ReadRecord(after.file, r.locations[j], side) == ReadRecord(r.file, r.locations[j], side)
  {
    var i := ChunkIdx(pos);
    var loc, own := after.locations[i], after.locations[j];
    assert own == r.locations[j];
    assert loc.Before(own) || own.Before(loc);
    RecordLength(k, payload);
    OtherKept(r.file, after.file, loc, own, |Record(k, payload)|, side);
  }

  /** Writing a record into the sectors of one location leaves what another location reads. */
  lemma OtherKept(before: seq<byte>, after: seq<byte>, loc: Location, own: Location, length: nat,
                  side: Option<seq<byte>>)
    requires own.offset >= 2 && Fits(before, own)
    requires loc.Before(own) || own.Before(loc)
    requires length <= loc.count * SECTOR_SIZE
    requires KeptOutside(before, after, loc.offset * SECTOR_SIZE, length)
    ensures Fits(after, own)
    ensures ReadRecord(after, own, side) == ReadRecord(before, own, side)
  {
    var lo, hi := own.offset * SECTOR_SIZE, (own.offset as int + own.count) * SECTOR_SIZE;
    assert after[lo..hi] == before[lo..hi];
    ReadFrame(before, after, own, side);
  }

  lemma OwnRecord(r: RegionState, after: RegionState, k: Compression, payload: seq<byte>, pos: ChunkPos, now: u32)
    requires Inv(r) && SetEffect(r, after, k, payload, pos, now)
    ensures Fits(after.file, after.locations[ChunkIdx(pos)])
    ensures ReadRecord(after.file, after.locations[ChunkIdx(pos)], SideFile(after.side, pos)) ==
            Ok((k.Number(), payload))
  {
    ReadOwnRecord(after.file, after.locations[ChunkIdx(pos)], k, payload, SideFile(after.side, pos));
  }

  lemma DistinctIdx(p: ChunkPos, q: ChunkPos)
    requires RegionOf(p) == RegionOf(q) && p != q
    ensures ChunkIdx(p) != ChunkIdx(q)
  {
    ChunkIdxInverse(p, RegionOf(p), ChunkIdx(p));
    ChunkIdxInverse(q, RegionOf(p), ChunkIdx(p));
  }

  /** Every set, failing or not, keeps the invariant of the allocator and of the records. */
  lemma SetKeepsInv(r: RegionState, codec: Codec, options: WriteOptions, pos: ChunkPos, chunk: Compound, now: u32)
    requires Inv(r)
    ensures Inv(Set(r, codec, options, pos, chunk, now).1)
  {
    var (result, after) := Set(r, codec, options, pos, chunk, now);
    var i := ChunkIdx(pos);
    ForgetKeeps(r, i);
    if Prepare(codec, options, chunk).Ok? {
      var payload := Prepare(codec, options, chunk).value;
      SetOk(r, codec, options, pos, chunk, now);
      forall j | 0 <= j < ENTRIES && !after.locations[j].IsNone()
        ensures Fits(after.file, after.locations[j])
      {
        if j == i {
          OwnRecord(r, after, options.compression, payload, pos, now);
        } else {
          OtherRecord(r, after, options.compression, payload, pos, now, j, None);
        }
      }
    }
  }

  /** After a successful set, the position reads back as the chunk and its timestamp. */
  lemma SetThenGet(r: RegionState, codec: Codec, options: WriteOptions, pos: ChunkPos, chunk: Compound, now: u32)
    requires Inv(r) && codec.RoundTrips()
    requires Set(r, codec, options, pos, chunk, now).0.Ok?
    ensures Get(Set(r, codec, options, pos, chunk, now).1, codec, pos) == Ok(Some(RawChunk(chunk, now)))
  {
    var after := Set(r, codec, options, pos, chunk, now).1;
    var payload := Prepare(codec, options, chunk).value;
    SetOk(r, codec, options, pos, chunk, now);
    OwnRecord(r, after, options.compression, payload, pos, now);
    assert CompressionFromNumber(options.compression.Number()) == Some(options.compression);
  }

  /** A read looks at its own table entry, record and side file only. */
  lemma ReadsAlike(r: RegionState, after: RegionState, codec: Codec, pos: ChunkPos)
    requires var i := ChunkIdx(pos);
      && after.locations[i] == r.locations[i]
      && (!r.locations[i].IsNone() ==>
            && after.timestamps[i] == r.timestamps[i]
            && ReadRecord(after.file, r.locations[i], SideFile(after.side, pos)) ==
               ReadRecord(r.file, r.locations[i], SideFile(r.side, pos)))
    ensures Get(after, codec, pos) == Get(r, codec, pos)
  {
  }

  /** A set, failing or not, leaves every other position of the region reading as it did. */
  lemma SetThenGetOther(r: RegionState, codec: Codec, options: WriteOptions, pos: ChunkPos, chunk: Compound,
                        now: u32, other: ChunkPos)
    requires Inv(r)
    requires RegionOf(other) == RegionOf(pos) && other != pos
    ensures Get(Set(r, codec, options, pos, chunk, now).1, codec, other) == Get(r, codec, other)
  {
    var after, j := Set(r, codec, options, pos, chunk, now).1, ChunkIdx(other);
    DistinctIdx(pos, other);
    if Prepare(codec, options, chunk).Ok? {
      var payload := Prepare(codec, options, chunk).value;
      SetOk(r, codec, options, pos, chunk, now);
      assert SideFile(after.side, other) == SideFile(r.side, other);
      if !r.locations[j].IsNone() {
        OtherRecord(r, after, options.compression, payload, pos, now, j, SideFile(r.side, other));
      }
    } else {
      ForgetKeeps(r, ChunkIdx(pos));
    }
    ReadsAlike(r, after, codec, other);
  }

  /** The position a failed set was aimed at is gone from memory, whatever stood there. */
  lemma FailedSetThenGet(r: RegionState, codec: Codec, options: WriteOptions, pos: ChunkPos, chunk: Compound, now: u32)
    requires AllocationInv(r)
    requires Set(r, codec, options, pos, chunk, now).0.Err?
    ensures Get(Set(r, codec, options, pos, chunk, now).1, codec, pos) == Ok(None)
  {
    ForgetKeeps(r, ChunkIdx(pos));
  }

  // ---- Delete ----

  lemma HeaderLocationWritten(file: seq<byte>, i: nat, loc: Location, j: nat)
    requires i < ENTRIES && j < ENTRIES && |file| >= 2 * SECTOR_SIZE
    ensures |WriteAt(file, i * 4, Be32(loc.Pack()))| == |file|
    ensures LocationAt(WriteAt(file, i * 4, Be32(loc.Pack())), j) == if i == j then loc else LocationAt(file, j)
  {
    HeaderWordFrame(file, i * 4, loc.Pack(), j * 4);
  }

  lemma DeletedHeader(file: seq<byte>, i: nat, j: nat)
    requires i < ENTRIES && j < ENTRIES && |file| >= 2 * SECTOR_SIZE
    ensures |WriteAt(file, i * 4, Be32(0))| == |file|
    ensures LocationAt(WriteAt(file, i * 4, Be32(0)), j) == if i == j then NO_LOCATION else LocationAt(file, j)
  {
    HeaderLocationWritten(file, i, NO_LOCATION, j);
  }

  lemma DeletedTimestamps(file: seq<byte>, i: nat, j: nat)
    requires i < ENTRIES && j < ENTRIES && |file| >= 2 * SECTOR_SIZE
    ensures |WriteAt(file, i * 4, Be32(0))| == |file|
    ensures TimestampAt(WriteAt(file, i * 4, Be32(0)), j) == TimestampAt(file, j)
  {
    HeaderWordFrame(file, i * 4, 0, j * 4 + SECTOR_SIZE);
  }

  lemma DeletedRecord(file: seq<byte>, i: nat, loc: Location, side: Option<seq<byte>>)
    requires i < ENTRIES && |file| >= 2 * SECTOR_SIZE
    requires loc.offset >= 2 && Fits(file, loc)
    ensures Fits(WriteAt(file, i * 4, Be32(0)), loc)
    ensures ReadRecord(WriteAt(file, i * 4, Be32(0)), loc, side) == ReadRecord(file, loc, side)
  {
    var lo, hi := loc.offset * SECTOR_SIZE, (loc.offset as int + loc.count) * SECTOR_SIZE;
    WriteAtFrame(file, i * 4, Be32(0), lo, hi);
    ReadFrame(file, WriteAt(file, i * 4, Be32(0)), loc, side);
  }

  /** A delete keeps the invariant and the header's agreement, and says whether the chunk was there. */
  lemma DeleteKeepsInv(r: RegionState, pos: ChunkPos)
    requires Inv(r)
    ensures Inv(Delete(r, pos).1)
    ensures Synced(r) ==> Synced(Delete(r, pos).1)
    ensures Delete(r, pos).0 <==> Present(r, pos)
    ensures !Present(Delete(r, pos).1, pos)
  {
    var i, after := ChunkIdx(pos), Delete(r, pos).1;
    ForgetKeeps(r, i);
    if Present(r, pos) {
      assert AllocationInv(after) by {
        assert after.locations == Forget(r, i).locations && after.used == Forget(r, i).used;
      }
      forall j | 0 <= j < ENTRIES
        ensures LocationAt(after.file, j) == if i == j then NO_LOCATION else LocationAt(r.file, j)
        ensures TimestampAt(after.file, j) == TimestampAt(r.file, j)
        ensures !after.locations[j].IsNone() ==> Fits(after.file, after.locations[j])
      {
        DeletedHeader(r.file, i, j);
        DeletedTimestamps(r.file, i, j);
        if !after.locations[j].IsNone() {
          DeletedRecord(r.file, i, r.locations[j], None);
        }
      }
    }
  }

  /** After a delete the position reads as absent and every other position as before. */
  lemma DeleteThenGet(r: RegionState, codec: Codec, pos: ChunkPos, q: ChunkPos)
    requires Inv(r)
    requires RegionOf(q) == RegionOf(pos)
    ensures Get(Delete(r, pos).1, codec, q) == if q == pos then Ok(None) else Get(r, codec, q)
  {
    var i, j := ChunkIdx(pos), ChunkIdx(q);
    if q != pos {
      DistinctIdx(pos, q);
    }
    ForgetKeeps(r, i);
    if Present(r, pos) && j != i && !r.locations[j].IsNone() {
      DeletedRecord(r.file, i, r.locations[j], SideFile(r.side, q));
    }
  }
}
