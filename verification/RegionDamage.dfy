/** What refused sets can destroy. The sectors of a stale entry are free in memory, so another record may
    be written over them while the header still claims them; the harm shows once the file is reopened. */
module RegionDamage {
  import opened Wrappers
  import opened Bytes
  import opened Sectors
  import opened RegionModel
  import opened RegionLaws
  import opened RegionMap
  import opened RegionStore
  import opened RegionReopen
  import opened RegionRuns
  import opened RegionStale

  // ---- Two entries on one sector ----

  /** Deleting one of two entries that share a sector frees the sector under the other. */
  lemma SharedFrees(o: RegionState, stale: ChunkPos, i: nat, s: nat)
    requires i < ENTRIES && i != ChunkIdx(stale)
    requires o.locations[i].Holds(s) && o.locations[ChunkIdx(stale)].Holds(s)
    requires o.locations[ChunkIdx(stale)].offset >= 2
    ensures var d := Delete(o, stale).1;
      FreeAt(d.used, s) && d.locations[i] == o.locations[i] && d.locations[i].Holds(s)
  {
    var loc := o.locations[ChunkIdx(stale)];
    ClearedMeans(o.used, loc.offset, loc.offset as int + loc.count);
  }

  // ---- A record over a stale entry ----

  /** The other chunk was written where a stale entry starts that claims at least as many sectors. */
  ghost predicate Reuses(r: RegionState, after: RegionState, pos: ChunkPos, stale: ChunkPos)
    requires |r.file| >= 2 * SECTOR_SIZE
  {
    var claimed, loc := LocationAt(r.file, ChunkIdx(stale)), after.locations[ChunkIdx(pos)];
    claimed.offset == loc.offset && claimed.count >= loc.count
  }

  /** The header of `o` has `pos` and `stale` start at one sector, where the record of `pos` stands. */
  ghost predicate Overlaid(o: RegionState, pos: ChunkPos, stale: ChunkPos, k: Compression, payload: seq<byte>) {
    var mine, other := o.locations[ChunkIdx(pos)], o.locations[ChunkIdx(stale)];
    && ChunkIdx(pos) != ChunkIdx(stale)
    && mine.offset == other.offset >= 2
    && RecordSectors(payload) == mine.count <= other.count
    && HoldsRecord(o.file, mine, Record(k, payload))
  }

  lemma ReusedOpens(r: RegionState, codec: Codec, options: WriteOptions, pos: ChunkPos, chunk: Compound, now: u32,
                    stale: ChunkPos)
    requires HeaderInv(r) && Prepare(codec, options, chunk).Ok?
    requires RegionOf(stale) == RegionOf(pos) && stale != pos && Stale(r, ChunkIdx(stale))
    requires Reuses(r, Set(r, codec, options, pos, chunk, now).1, pos, stale)
    ensures var after := Set(r, codec, options, pos, chunk, now).1;
      && Open(after.file, after.side).Ok?
      && var o := Open(after.file, after.side).value;
         && Overlaid(o, pos, stale, options.compression, Prepare(codec, options, chunk).value)
         && o.timestamps[ChunkIdx(pos)] == now
         && o.timestamps[ChunkIdx(stale)] == r.timestamps[ChunkIdx(stale)]
         && o.locations[ChunkIdx(stale)] == LocationAt(r.file, ChunkIdx(stale))
  {
    DistinctIdx(pos, stale);
    SetOk(r, codec, options, pos, chunk, now);
  }

  /** A location that claims more sectors reads the same record. */
  lemma LongerClaim(file: seq<byte>, loc: Location, claimed: Location, k: Compression, payload: seq<byte>,
                    side: Option<seq<byte>>)
    requires claimed.offset == loc.offset && claimed.count >= loc.count
    requires ReadRecord(file, loc, side) == Ok((k.Number(), payload))
    ensures ReadRecord(file, claimed, side) == Ok((k.Number(), payload))
  {
  }

  /** A location at which a record stands reads as the record's chunk, also when it claims more. */
  lemma ReadsRecord(o: RegionState, codec: Codec, loc: Location, k: Compression, chunk: Compound, pos: ChunkPos)
    requires codec.RoundTrips() && codec.encode(k, chunk).Ok?
    requires var payload := codec.encode(k, chunk).value;
      && !Oversized(payload) && loc.offset >= 2 && loc.count == RecordSectors(payload)
      && HoldsRecord(o.file, loc, Record(k, payload))
    requires o.locations[ChunkIdx(pos)].offset == loc.offset && o.locations[ChunkIdx(pos)].count >= loc.count
    ensures Get(o, codec, pos) == Ok(Some(RawChunk(chunk, o.timestamps[ChunkIdx(pos)])))
  {
    var payload, side := codec.encode(k, chunk).value, SideFile(o.side, pos);
    ReadOwnRecord(o.file, loc, k, payload, side);
    LongerClaim(o.file, loc, o.locations[ChunkIdx(pos)], k, payload, side);
    assert CompressionFromNumber(k.Number()) == Some(k);
  }

  /** What the two positions read, and what deleting the stale one leaves: the whole range of the other
      counts as free, while its entry still holds it. */
  ghost predicate Damaged(o: RegionState, codec: Codec, chunk: Compound, pos: ChunkPos, stale: ChunkPos) {
    var i, d := ChunkIdx(pos), Delete(o, stale).1;
    && Get(o, codec, pos) == Ok(Some(RawChunk(chunk, o.timestamps[i])))
    && Get(o, codec, stale) == Ok(Some(RawChunk(chunk, o.timestamps[ChunkIdx(stale)])))
    && d.locations[i] == o.locations[i] && o.locations[i].count >= 1
    && forall s: nat :: d.locations[i].Holds(s) ==> FreeAt(d.used, s)
  }

  lemma OverlaidDamages(o: RegionState, codec: Codec, k: Compression, chunk: Compound, pos: ChunkPos, stale: ChunkPos)
    requires codec.RoundTrips() && codec.encode(k, chunk).Ok? && !Oversized(codec.encode(k, chunk).value)
    requires Overlaid(o, pos, stale, k, codec.encode(k, chunk).value)
    ensures Damaged(o, codec, chunk, pos, stale)
  {
    var i := ChunkIdx(pos);
    ReadsRecord(o, codec, o.locations[i], k, chunk, pos);
    ReadsRecord(o, codec, o.locations[i], k, chunk, stale);
    forall s: nat | o.locations[i].Holds(s)
      ensures FreeAt(Delete(o, stale).1.used, s)
    {
      SharedFrees(o, stale, i, s);
    }
    SharedFrees(o, stale, i, o.locations[i].offset);
  }

  /** A set lands where a stale entry starts that claims at least as many sectors. Reopened, the stale
      position reads the new chunk, with its own old time; and deleting it there gives the new chunk's
      sectors away. */
  lemma ReusedSectors(r: RegionState, codec: Codec, options: WriteOptions, pos: ChunkPos, chunk: Compound, now: u32,
                      stale: ChunkPos)
    requires HeaderInv(r) && codec.RoundTrips()
    requires RegionOf(stale) == RegionOf(pos) && stale != pos && Stale(r, ChunkIdx(stale))
    requires Prepare(codec, options, chunk).Ok? && !Oversized(Prepare(codec, options, chunk).value)
    requires Reuses(r, Set(r, codec, options, pos, chunk, now).1, pos, stale)
    ensures var after := Set(r, codec, options, pos, chunk, now).1;
      && Open(after.file, after.side).Ok?
      && var o := Open(after.file, after.side).value;
         && o.timestamps[ChunkIdx(pos)] == now
         && o.timestamps[ChunkIdx(stale)] == r.timestamps[ChunkIdx(stale)]
         && Damaged(o, codec, chunk, pos, stale)
  {
    ReusedOpens(r, codec, options, pos, chunk, now, stale);
    var after := Set(r, codec, options, pos, chunk, now).1;
    OverlaidDamages(Open(after.file, after.side).value, codec, options.compression, chunk, pos, stale);
  }

  // ---- The next set ----

  /** What a set at an empty position writes, whether or not the allocator is sound. */
  lemma SetBytes(r: RegionState, codec: Codec, options: WriteOptions, pos: ChunkPos, chunk: Compound, now: u32,
                 loc: Location)
    requires Prepare(codec, options, chunk).Ok? && !Present(r, pos)
    requires loc.count == RecordSectors(Prepare(codec, options, chunk).value)
    requires loc.offset == FirstFit(r.used, loc.count)
    ensures var after := Set(r, codec, options, pos, chunk, now).1; var i := ChunkIdx(pos);
      && after.locations == r.locations[i := loc] && after.timestamps == r.timestamps[i := now]
      && after.file ==
         Stored(r.file, i, loc, Record(options.compression, Prepare(codec, options, chunk).value), now)
  {
  }

  /** A set elsewhere that is given the start of a position's range replaces what the position reads. */
  lemma Overwrites(d: RegionState, codec: Codec, options: WriteOptions, other: ChunkPos, chunk: Compound, now: u32,
                   pos: ChunkPos)
    requires codec.RoundTrips() && |d.file| >= 2 * SECTOR_SIZE
    requires RegionOf(other) == RegionOf(pos) && other != pos && !Present(d, other)
    requires Prepare(codec, options, chunk).Ok? && !Oversized(Prepare(codec, options, chunk).value)
    requires var mine, n := d.locations[ChunkIdx(pos)], RecordSectors(Prepare(codec, options, chunk).value);
      FirstFit(d.used, n) == mine.offset >= 2 && n <= mine.count
    ensures Get(Set(d, codec, options, other, chunk, now).1, codec, pos) ==
            Ok(Some(RawChunk(chunk, d.timestamps[ChunkIdx(pos)])))
  {
    var payload := Prepare(codec, options, chunk).value;
    var loc := Location(RecordSectors(payload), d.locations[ChunkIdx(pos)].offset);
    DistinctIdx(other, pos);
    SetBytes(d, codec, options, other, chunk, now, loc);
    RecordLength(options.compression, payload);
    StoredRecord(d.file, ChunkIdx(other), loc, Record(options.compression, payload), now);
    var after := Set(d, codec, options, other, chunk, now).1;
    ReadsRecord(after, codec, loc, options.compression, chunk, pos);
  }

  // ---- A run that does the damage ----

  /** The header is taken and a run right behind it is free. */
  lemma FirstGap(used: seq<bool>, n: nat)
    requires n >= 1 && FreeRun(used, 2, n)
    requires !FreeAt(used, 0) && !FreeAt(used, 1)
    ensures FirstFit(used, n) == 2
  {
    FirstFitMeans(used, n);
    var start := FirstFit(used, n);
    assert FreeAt(used, start);
  }

  lemma EmptyGap(r: RegionState, n: nat)
    requires AllocationInv(r) && n >= 1
    requires forall i :: 0 <= i < ENTRIES ==> r.locations[i].IsNone()
    ensures FirstFit(r.used, n) == 2
  {
    forall s: nat
      ensures FreeAt(r.used, s) <==> s >= 2
    {
      assert !Allocated(r.locations, s);
    }
    FirstGap(r.used, n);
  }

  /** With nothing else stored, a record goes right behind the header. */
  lemma LandsFirst(r: RegionState, codec: Codec, options: WriteOptions, pos: ChunkPos, chunk: Compound, now: u32)
    requires Inv(r) && Prepare(codec, options, chunk).Ok?
    requires forall i :: 0 <= i < ENTRIES && i != ChunkIdx(pos) ==> r.locations[i].IsNone()
    ensures Set(r, codec, options, pos, chunk, now).1.locations[ChunkIdx(pos)].offset == 2
  {
    var payload := Prepare(codec, options, chunk).value;
    ForgetKeeps(r, ChunkIdx(pos));
    EmptyGap(Forget(r, ChunkIdx(pos)), RecordSectors(payload));
  }

  /** Storing one chunk in a new region. */
  lemma StoredOnce(codec: Codec, ok: WriteOptions, pos: ChunkPos, chunk: Compound, now: u32, start: RegionState)
    returns (r: RegionState)
    requires Prepare(codec, ok, chunk).Ok? && start == Create([], map[])
    ensures r == Apply(start, codec, Put(ok, pos, chunk, now))
    ensures Inv(r) && Synced(r) && r.timestamps[ChunkIdx(pos)] == now
    ensures r.locations[ChunkIdx(pos)] == Location(RecordSectors(Prepare(codec, ok, chunk).value), 2)
    ensures forall i :: 0 <= i < ENTRIES && i != ChunkIdx(pos) ==> r.locations[i].IsNone()
  {
    CreateOk([], map[]);
    SetOk(start, codec, ok, pos, chunk, now);
    SetKeepsInv(start, codec, ok, pos, chunk, now);
    SetOkSynced(start, codec, ok, pos, chunk, now);
    LandsFirst(start, codec, ok, pos, chunk, now);
    r := Set(start, codec, ok, pos, chunk, now).1;
  }

  /** A set is refused: gone from memory, still in the file. */
  lemma RefusedNext(r: RegionState, codec: Codec, bad: WriteOptions, pos: ChunkPos, chunk: Compound, now: u32)
    returns (before: RegionState)
    requires Inv(r) && Prepare(codec, bad, chunk).Err?
    ensures before == Apply(r, codec, Put(bad, pos, chunk, now))
    ensures before == Forget(r, ChunkIdx(pos)) && Get(before, codec, pos) == Ok(None)
  {
    FailedSetThenGet(r, codec, bad, pos, chunk, now);
    before := Set(r, codec, bad, pos, chunk, now).1;
  }

  lemma RefusedIsStale(r: RegionState, before: RegionState, p: nat)
    requires Inv(r) && Synced(r) && p < ENTRIES && before == Forget(r, p)
    requires !r.locations[p].IsNone()
    requires forall i :: 0 <= i < ENTRIES && i != p ==> r.locations[i].IsNone()
    ensures HeaderInv(before) && Stale(before, p) && LocationAt(before.file, p) == r.locations[p]
    ensures forall i :: 0 <= i < ENTRIES ==> before.locations[i].IsNone()
    ensures forall i :: 0 <= i < ENTRIES && i != p ==> LocationAt(before.file, i).IsNone()
    ensures before.timestamps == r.timestamps
  {
    ForgetKeeps(r, p);
    assert Fits(r.file, r.locations[p]);
    assert LocationAt(r.file, p) == r.locations[p];
  }

  /** A chunk is stored in a new region, and a later set of its position is refused. */
  lemma StoredThenRefused(codec: Codec, ok: WriteOptions, bad: WriteOptions, former: Compound, big: Compound,
                          first: ChunkPos, stored: u32, refused: u32) returns (before: RegionState)
    requires Prepare(codec, ok, former).Ok? && Prepare(codec, bad, big).Err?
    ensures before == Apply(Apply(Create([], map[]), codec, Put(ok, first, former, stored)), codec,
                            Put(bad, first, big, refused))
    ensures Get(before, codec, first) == Ok(None)
    ensures HeaderInv(before) && before.timestamps[ChunkIdx(first)] == stored && Stale(before, ChunkIdx(first))
    ensures LocationAt(before.file, ChunkIdx(first)) == Location(RecordSectors(Prepare(codec, ok, former).value), 2)
    ensures forall i :: 0 <= i < ENTRIES ==> before.locations[i].IsNone()
    ensures forall i :: 0 <= i < ENTRIES && i != ChunkIdx(first) ==> LocationAt(before.file, i).IsNone()
  {
    var r := StoredOnce(codec, ok, first, former, stored, Create([], map[]));
    before := RefusedNext(r, codec, bad, first, big, refused);
    RefusedIsStale(r, before, ChunkIdx(first));
  }

  /** Another position is stored: its record lands where the stale entry starts. */
  lemma StoredOver(r: RegionState, codec: Codec, ok: WriteOptions, stale: ChunkPos, pos: ChunkPos, chunk: Compound,
                   now: u32)
    requires HeaderInv(r) && LocationAt(r.file, ChunkIdx(stale)).offset == 2
    requires forall i :: 0 <= i < ENTRIES ==> r.locations[i].IsNone()
    requires Prepare(codec, ok, chunk).Ok?
    requires RecordSectors(Prepare(codec, ok, chunk).value) <= LocationAt(r.file, ChunkIdx(stale)).count
    ensures Reuses(r, Set(r, codec, ok, pos, chunk, now).1, pos, stale)
    ensures Set(r, codec, ok, pos, chunk, now).1.locations[ChunkIdx(pos)].offset == 2
  {
    LandsFirst(r, codec, ok, pos, chunk, now);
    SetOk(r, codec, ok, pos, chunk, now);
  }

  /** Reopened and the stale entry deleted, the sectors right behind the header are free. */
  lemma FreedGap(o: RegionState, stale: ChunkPos, n: nat)
    requires |o.file| >= 2 * SECTOR_SIZE && Open(o.file, o.side) == Ok(o)
    requires o.locations[ChunkIdx(stale)].offset == 2 && 1 <= n <= o.locations[ChunkIdx(stale)].count
    ensures FirstFit(Delete(o, stale).1.used, n) == 2
  {
    var loc, d := o.locations[ChunkIdx(stale)], Delete(o, stale).1;
    OpenedUsedMeans(o.locations, |o.file|, ENTRIES, 0);
    OpenedUsedMeans(o.locations, |o.file|, ENTRIES, 1);
    ClearedMeans(o.used, loc.offset, loc.offset as int + loc.count);
    FirstGap(d.used, n);
  }

  /** The set that follows on the delete: the position whose sectors were given away reads another chunk. */
  lemma LostNext(o: RegionState, codec: Codec, options: WriteOptions, stale: ChunkPos, pos: ChunkPos, other: ChunkPos,
                 chunk: Compound, now: u32)
    requires codec.RoundTrips() && |o.file| >= 2 * SECTOR_SIZE && Open(o.file, o.side) == Ok(o)
    requires RegionOf(other) == RegionOf(pos) == RegionOf(stale)
    requires other != pos && other != stale && pos != stale && !Present(o, other)
    requires Prepare(codec, options, chunk).Ok? && !Oversized(Prepare(codec, options, chunk).value)
    requires var mine, claimed := o.locations[ChunkIdx(pos)], o.locations[ChunkIdx(stale)];
      && mine.offset == claimed.offset == 2 && mine.count <= claimed.count
      && RecordSectors(Prepare(codec, options, chunk).value) <= mine.count
    ensures Get(Set(Delete(o, stale).1, codec, options, other, chunk, now).1, codec, pos) ==
            Ok(Some(RawChunk(chunk, o.timestamps[ChunkIdx(pos)])))
  {
    var d := Delete(o, stale).1;
    DistinctIdx(other, stale);
    DistinctIdx(pos, stale);
    FreedGap(o, stale, RecordSectors(Prepare(codec, options, chunk).value));
    DeletedLength(o, stale);
    Overwrites(d, codec, options, other, chunk, now, pos);
  }

  lemma DeletedLength(o: RegionState, pos: ChunkPos)
    requires |o.file| >= 2 * SECTOR_SIZE
    ensures |Delete(o, pos).1.file| >= 2 * SECTOR_SIZE && Delete(o, pos).1.timestamps == o.timestamps
    ensures Delete(o, pos).1.locations == o.locations[ChunkIdx(pos) := NO_LOCATION]
  {
    WriteAtMeans(o.file, ChunkIdx(pos) * 4, Be32(0));
  }

  /** Whatever the codec and the chunks: one is stored, a later set of its position is refused, and one that
      takes no more sectors is stored at a second position. Memory then says that nothing is stored at the
      first; but reopened, it reads the second one's chunk with the first one's time. */
  lemma RefusedSetDamages(codec: Codec, ok: WriteOptions, bad: WriteOptions, former: Compound, big: Compound,
                          latter: Compound, first: ChunkPos, second: ChunkPos, times: seq<u32>)
    returns (before: RegionState, after: RegionState)
    requires codec.RoundTrips() && |times| == 3
    requires Prepare(codec, ok, former).Ok? && Prepare(codec, bad, big).Err? && Prepare(codec, ok, latter).Ok?
    requires !Oversized(Prepare(codec, ok, latter).value)
    requires RecordSectors(Prepare(codec, ok, latter).value) <= RecordSectors(Prepare(codec, ok, former).value)
    requires RegionOf(first) == RegionOf(second) && first != second
    ensures before == Apply(Apply(Create([], map[]), codec, Put(ok, first, former, times[0])), codec,
                            Put(bad, first, big, times[1]))
    ensures after == Apply(before, codec, Put(ok, second, latter, times[2]))
    ensures Get(before, codec, first) == Ok(None) && Get(after, codec, first) == Ok(None)
    ensures Open(after.file, after.side).Ok?
    ensures var o := Open(after.file, after.side).value;
      && Get(o, codec, first) == Ok(Some(RawChunk(latter, times[0])))
      && Get(o, codec, second) == Ok(Some(RawChunk(latter, times[2])))
      && Damaged(o, codec, latter, second, first)
      && o.locations[ChunkIdx(first)] == Location(RecordSectors(Prepare(codec, ok, former).value), 2)
      && o.locations[ChunkIdx(second)] == Location(RecordSectors(Prepare(codec, ok, latter).value), 2)
      && forall q :: RegionOf(q) == RegionOf(first) && q != first && q != second ==> !Present(o, q)
  {
    before := StoredThenRefused(codec, ok, bad, former, big, first, times[0], times[1]);
    after := OverStale(before, codec, ok, latter, first, second, times[2]);
  }

  lemma OverStale(before: RegionState, codec: Codec, ok: WriteOptions, latter: Compound, first: ChunkPos,
                  second: ChunkPos, now: u32) returns (after: RegionState)
    requires codec.RoundTrips() && Prepare(codec, ok, latter).Ok? && !Oversized(Prepare(codec, ok, latter).value)
    requires HeaderInv(before) && Stale(before, ChunkIdx(first))
    requires LocationAt(before.file, ChunkIdx(first)).offset == 2
    requires RecordSectors(Prepare(codec, ok, latter).value) <= LocationAt(before.file, ChunkIdx(first)).count
    requires forall i :: 0 <= i < ENTRIES ==> before.locations[i].IsNone()
    requires forall i :: 0 <= i < ENTRIES && i != ChunkIdx(first) ==> LocationAt(before.file, i).IsNone()
    requires RegionOf(first) == RegionOf(second) && first != second
    ensures after == Apply(before, codec, Put(ok, second, latter, now))
    ensures Get(after, codec, first) == Ok(None) && Open(after.file, after.side).Ok?
    ensures var o := Open(after.file, after.side).value;
      && Damaged(o, codec, latter, second, first)
      && o.timestamps[ChunkIdx(second)] == now
      && o.timestamps[ChunkIdx(first)] == before.timestamps[ChunkIdx(first)]
      && o.locations[ChunkIdx(first)] == LocationAt(before.file, ChunkIdx(first))
      && o.locations[ChunkIdx(second)] == Location(RecordSectors(Prepare(codec, ok, latter).value), 2)
      && forall q :: RegionOf(q) == RegionOf(first) && q != first && q != second ==> !Present(o, q)
  {
    StoredOver(before, codec, ok, first, second, latter, now);
    ReusedSectors(before, codec, ok, second, latter, now, first);
    SetOk(before, codec, ok, second, latter, now);
    after := Set(before, codec, ok, second, latter, now).1;
    TwoEntries(before, after, ok.compression, Prepare(codec, ok, latter).value, first, second, now);
  }

  lemma TwoEntries(before: RegionState, after: RegionState, k: Compression, payload: seq<byte>, first: ChunkPos,
                   second: ChunkPos, now: u32)
    requires |before.file| >= 2 * SECTOR_SIZE && SetEffect(before, after, k, payload, second, now)
    requires forall i :: 0 <= i < ENTRIES ==> before.locations[i].IsNone()
    requires forall i :: 0 <= i < ENTRIES && i != ChunkIdx(first) ==> LocationAt(before.file, i).IsNone()
    requires RegionOf(first) == RegionOf(second) && first != second
    ensures !Present(after, first) && Open(after.file, after.side).Ok?
    ensures var o := Open(after.file, after.side).value;
      && o.locations[ChunkIdx(first)] == LocationAt(before.file, ChunkIdx(first))
      && o.locations[ChunkIdx(second)] == after.locations[ChunkIdx(second)]
      && forall q :: RegionOf(q) == RegionOf(first) && q != first && q != second ==> !Present(o, q)
  {
    DistinctIdx(first, second);
    var o := Open(after.file, after.side).value;
    forall q | RegionOf(q) == RegionOf(first) && q != first && q != second
      ensures !Present(o, q)
    {
      DistinctIdx(q, first);
      DistinctIdx(q, second);
    }
  }

  lemma ReplayTwo(r: RegionState, codec: Codec, a: Change, b: Change)
    ensures Replay(r, codec, [a, b]) == Apply(Apply(r, codec, a), codec, b)
  {
    assert [a, b][1..] == [b];
    assert Replay(Apply(Apply(r, codec, a), codec, b), codec, [b][1..]) == Apply(Apply(r, codec, a), codec, b);
  }

  lemma ReplayThree(r: RegionState, codec: Codec, a: Change, b: Change, c: Change)
    ensures Replay(r, codec, [a, b, c]) == Apply(Apply(Apply(r, codec, a), codec, b), codec, c)
  {
    assert [a, b, c][1..] == [b, c];
    ReplayTwo(Apply(r, codec, a), codec, b, c);
  }

  lemma LostAfter(o: RegionState, codec: Codec, ok: WriteOptions, first: ChunkPos, second: ChunkPos, third: ChunkPos,
                  last: Compound, now: u32) returns (end: RegionState)
    requires codec.RoundTrips() && |o.file| >= 2 * SECTOR_SIZE && Open(o.file, o.side) == Ok(o)
    requires RegionOf(first) == RegionOf(second) == RegionOf(third)
    requires first != second && first != third && second != third && !Present(o, third)
    requires Prepare(codec, ok, last).Ok? && !Oversized(Prepare(codec, ok, last).value)
    requires o.locations[ChunkIdx(first)].offset == o.locations[ChunkIdx(second)].offset == 2
    requires RecordSectors(Prepare(codec, ok, last).value) <= o.locations[ChunkIdx(second)].count
             <= o.locations[ChunkIdx(first)].count
    ensures end == Replay(o, codec, [Remove(first), Put(ok, third, last, now)])
    ensures Get(end, codec, second) == Ok(Some(RawChunk(last, o.timestamps[ChunkIdx(second)])))
  {
    LostNext(o, codec, ok, first, second, third, last, now);
    ReplayTwo(o, codec, Remove(first), Put(ok, third, last, now));
    end := Set(Delete(o, first).1, codec, ok, third, last, now).1;
  }

  /** Going on from there: the first position is deleted, as its owner would, and a third one is stored. The
      second position's chunk is lost, and it reads the third one's. */
  lemma RefusedSetLoses(codec: Codec, ok: WriteOptions, bad: WriteOptions, former: Compound, big: Compound,
                        latter: Compound, last: Compound, positions: seq<ChunkPos>, times: seq<u32>)
    returns (after: RegionState, end: RegionState)
    requires codec.RoundTrips() && |times| == 4 && |positions| == 3
    requires Prepare(codec, ok, former).Ok? && Prepare(codec, bad, big).Err?
    requires Prepare(codec, ok, latter).Ok? && Prepare(codec, ok, last).Ok?
    requires !Oversized(Prepare(codec, ok, latter).value) && !Oversized(Prepare(codec, ok, last).value)
    requires RecordSectors(Prepare(codec, ok, last).value) <= RecordSectors(Prepare(codec, ok, latter).value)
             <= RecordSectors(Prepare(codec, ok, former).value)
    requires RegionOf(positions[0]) == RegionOf(positions[1]) == RegionOf(positions[2])
    requires positions[0] != positions[1] && positions[0] != positions[2] && positions[1] != positions[2]
    ensures after == Replay(Create([], map[]), codec,
      [Put(ok, positions[0], former, times[0]), Put(bad, positions[0], big, times[1]),
       Put(ok, positions[1], latter, times[2])])
    ensures Open(after.file, after.side).Ok?
    ensures end == Replay(Open(after.file, after.side).value, codec,
      [Remove(positions[0]), Put(ok, positions[2], last, times[3])])
    ensures Get(Open(after.file, after.side).value, codec, positions[1]) == Ok(Some(RawChunk(latter, times[2])))
    ensures Get(end, codec, positions[1]) == Ok(Some(RawChunk(last, times[2])))
  {
    var first, second, third := positions[0], positions[1], positions[2];
    var before: RegionState;
    before, after := RefusedSetDamages(codec, ok, bad, former, big, latter, first, second, times[..3]);
    var o := Open(after.file, after.side).value;
    end := LostAfter(o, codec, ok, first, second, third, last, times[3]);
    ReplayThree(Create([], map[]), codec, Put(ok, first, former, times[0]), Put(bad, first, big, times[1]),
                Put(ok, second, latter, times[2]));
  }
}
