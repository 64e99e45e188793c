/** The region file format in bytes and plain numbers: what a file says to the program that opens it, and which
    bytes the program leaves. Here nothing is said in terms of the operations' own helpers. */
module RegionFormat {
  import opened Wrappers
  import opened Bytes
  import opened RegionModel
  import opened RegionLaws
  import opened RegionMap
  import opened RegionStore
  import opened RegionReopen
  import opened Sectors

  // ---- What a file says ----

  /** Four bytes, the highest first. */
  function Word(file: seq<byte>, at: nat): nat
    requires at + 4 <= |file|
  {
    file[at] as int * 0x100_0000 + file[at + 1] as int * 0x1_0000 + file[at + 2] as int * 0x100 + file[at + 3]
  }

  /** The entry of a position in either table: 32 by 32 positions, row by row. */
  function Entry(pos: ChunkPos): (i: nat)
    ensures i < 1024
  {
    pos.x % 32 + 32 * (pos.z % 32)
  }

  function Decoded(codec: Codec, scheme: byte, payload: seq<byte>, time: u32): Result<Option<RawChunk>, RegionError> {
    var decoded :=
      if scheme == 1 then codec.decode(Gzip, payload)
      else if scheme == 2 then codec.decode(Zlib, payload)
      else if scheme == 3 then codec.decode(Uncompressed, payload)
      else Err(InvalidCompressionScheme(scheme));
    match decoded
    case Err(e) => Err(e)
    case Ok(chunk) => Ok(Some(RawChunk(chunk, time)))
  }

  /** The scheme and payload of the record at a block: a length word, a byte for the compression scheme, and the
      payload. A scheme from 128 on means that the payload is in a file of its own. */
  function ReadBytes(file: seq<byte>, block: nat, blocks: nat, own: Option<seq<byte>>)
    : Result<(byte, seq<byte>), RegionError>
  {
    var at := 4096 * block;
    if block < 2 then Err(InvalidChunkSectorOffset)
    else if |file| < at + 4 then Err(Io)
    else
      var length := Word(file, at);
      if length == 0 then Err(MissingChunkStream)
      else if length > 4096 * blocks then Err(InvalidChunkSize)
      else if |file| < at + 5 then Err(Io)
      else if file[at + 4] >= 128 then if own.Some? then Ok((file[at + 4] - 128, own.value)) else Err(Io)
      else if |file| < at + 4 + length then Err(Io)
      else Ok((file[at + 4], file[at + 5..at + 4 + length]))
  }

  /** The chunk at a position, by the bytes. Bytes `4 i` to `4 i + 2` say in which block of 4096 bytes its record
      starts, and the next how many such blocks it has; at `4096 + 4 i` stands the time. */
  function ReadFile(file: seq<byte>, side: SideFiles, codec: Codec, pos: ChunkPos)
    : Result<Option<RawChunk>, RegionError>
    requires |file| >= 8192
  {
    var i := Entry(pos);
    var block := file[4 * i] as int * 65536 + file[4 * i + 1] as int * 256 + file[4 * i + 2];
    var blocks, time := file[4 * i + 3], Word(file, 4096 + 4 * i);
    if block == 0 && blocks == 0 then Ok(None)
    else
      match ReadBytes(file, block, blocks, if pos in side then Some(side[pos]) else None)
      case Err(e) => Err(e)
      case Ok((scheme, payload)) => Decoded(codec, scheme, payload, time)
  }

  lemma WordIsBe(file: seq<byte>, at: nat)
    requires at + 4 <= |file|
    ensures Word(file, at) == FromBe32(file[at..at + 4])
  {
  }

  lemma LocationBytes(file: seq<byte>, i: nat)
    requires |file| >= 8192 && i < 1024
    ensures var loc := LocationAt(file, i);
      && loc.offset == file[4 * i] as int * 65536 + file[4 * i + 1] as int * 256 + file[4 * i + 2]
      && loc.count == file[4 * i + 3]
    ensures TimestampAt(file, i) == Word(file, 4096 + 4 * i)
  {
    WordIsBe(file, 4 * i);
    WordIsBe(file, 4096 + 4 * i);
  }

  lemma RecordBytes(file: seq<byte>, loc: Location, side: Option<seq<byte>>)
    ensures ReadRecord(file, loc, side) == ReadBytes(file, loc.offset, loc.count, side)
  {
    if |file| >= 4096 * loc.offset + 4 {
      WordIsBe(file, 4096 * loc.offset);
    }
  }

  lemma DecodedIs(codec: Codec, scheme: byte, payload: seq<byte>, time: u32)
    ensures Decoded(codec, scheme, payload, time) ==
      match CompressionFromNumber(scheme)
      case None => Err(InvalidCompressionScheme(scheme))
      case Some(k) =>
        match codec.decode(k, payload)
        case Err(e) => Err(e)
        case Ok(chunk) => Ok(Some(RawChunk(chunk, time)))
  {
  }

  lemma EntryReads(r: RegionState, codec: Codec, pos: ChunkPos, loc: Location, time: u32)
    requires loc == r.locations[Entry(pos)] && time == r.timestamps[Entry(pos)]
    ensures Get(r, codec, pos) ==
      if loc.offset == 0 && loc.count == 0 then Ok(None)
      else
        match ReadBytes(r.file, loc.offset, loc.count, if pos in r.side then Some(r.side[pos]) else None)
        case Err(e) => Err(e)
        case Ok((scheme, payload)) => Decoded(codec, scheme, payload, time)
  {
    RecordBytes(r.file, loc, SideFile(r.side, pos));
    match ReadRecord(r.file, loc, SideFile(r.side, pos))
    case Err(e) =>
    case Ok((scheme, payload)) => DecodedIs(codec, scheme, payload, time);
  }

  /** Any file at all: one too short for the two tables cannot be opened, and any other reads at every position
      as its bytes say. */
  lemma OpenReads(file: seq<byte>, side: SideFiles, codec: Codec, pos: ChunkPos)
    ensures |file| < 8192 ==> Open(file, side) == Err(Io)
    ensures |file| >= 8192 ==>
      Open(file, side).Ok? && Get(Open(file, side).value, codec, pos) == ReadFile(file, side, codec, pos)
  {
    if |file| >= 8192 {
      LocationBytes(file, Entry(pos));
      EntryReads(Open(file, side).value, codec, pos, LocationAt(file, Entry(pos)), TimestampAt(file, Entry(pos)));
    }
  }

  /** By the bytes, entry `i` of a file's table takes block `s`. */
  predicate Takes(file: seq<byte>, i: nat, s: nat)
    requires |file| >= 8192 && i < 1024
  {
    var block := file[4 * i] as int * 65536 + file[4 * i + 1] as int * 256 + file[4 * i + 2];
    block >= 2 && 4096 * block <= |file| && block <= s < block + file[4 * i + 3]
  }

  /** Which blocks of an opened file count as used: the first two, and those that entries take. */
  lemma OpenUses(file: seq<byte>, side: SideFiles, s: nat)
    requires |file| >= 8192
    ensures Open(file, side).Ok?
    ensures !FreeAt(Open(file, side).value.used, s) <==> s < 2 || exists i :: 0 <= i < 1024 && Takes(file, i, s)
  {
    var o := Open(file, side).value;
    OpenedUsedMeans(o.locations, |file|, ENTRIES, s);
    forall i | 0 <= i < 1024
      ensures Takes(file, i, s) <==> Plausible(o.locations[i], |file|) && o.locations[i].Holds(s)
    {
      LocationBytes(file, i);
    }
  }

  // ---- Which sets are refused ----

  /** A set is answered by what encoding the chunk says, and then by its size: only payloads of more than 1044475
      bytes are too large, and those only if such chunks are to be skipped. */
  lemma SetAnswersIff(r: RegionState, codec: Codec, options: WriteOptions, pos: ChunkPos, chunk: Compound, now: u32)
    ensures var answer := Set(r, codec, options, pos, chunk, now).0;
      match codec.encode(options.compression, chunk)
      case Err(e) => answer == Err(e)
      case Ok(payload) =>
        && (answer == Ok(()) <==> |payload| <= 1044475 || !options.skipOversizedChunks)
        && (answer != Ok(()) ==> answer == Err(OversizedChunk))
  {
  }

  // ---- Which bytes a set leaves ----

  /** The record of a payload, and how many blocks it has. */
  ghost predicate HasPayload(file: seq<byte>, at: nat, blocks: nat, scheme: byte, payload: seq<byte>) {
    if |payload| <= 1044475 then
      && 4096 * (blocks - 1) < |payload| + 5 <= 4096 * blocks
      && at + 5 + |payload| <= |file| && Word(file, at) == |payload| + 1 && file[at + 4] == scheme
      && file[at + 5..at + 5 + |payload|] == payload
    else
      blocks == 1 && at + 5 <= |file| && Word(file, at) == 1 && file[at + 4] == scheme + 128
  }

  function Scheme(k: Compression): byte {
    match k
    case Gzip => 1
    case Zlib => 2
    case Uncompressed => 3
  }

  lemma RecordHasPayload(file: seq<byte>, loc: Location, k: Compression, payload: seq<byte>)
    requires loc.count == RecordSectors(payload) && HoldsRecord(file, loc, Record(k, payload))
    ensures HasPayload(file, 4096 * loc.offset, loc.count, Scheme(k), payload)
  {
    var at, record := 4096 * loc.offset, Record(k, payload);
    WordIsBe(file, at);
    assert file[at..at + 4] == file[at..at + |record|][..4] == record[..4];
    assert file[at + 4] == file[at..at + |record|][4] == record[4];
    if |payload| <= 1044475 {
      assert record[..4] == Be32(|payload| + 1);
      assert file[at + 5..at + 5 + |payload|] == record[5..] == payload;
    } else {
      assert record[..4] == Be32(1);
    }
  }

  /** By the bytes, the table entry `i` of a file: the block, how many blocks, and the time. */
  ghost predicate HasEntry(file: seq<byte>, i: nat, block: nat, blocks: nat, time: nat) {
    && i < 1024 && |file| >= 8192
    && file[4 * i] as int * 65536 + file[4 * i + 1] as int * 256 + file[4 * i + 2] == block
    && file[4 * i + 3] == blocks && Word(file, 4096 + 4 * i) == time
  }

  /** The entries of the other positions say what they said. */
  ghost predicate OtherEntriesKept(before: seq<byte>, after: seq<byte>, i: nat)
    requires |before| >= 8192 && |after| >= 8192
  {
    forall j :: 0 <= j < 1024 && j != i ==>
      Word(after, 4 * j) == Word(before, 4 * j) && Word(after, 4096 + 4 * j) == Word(before, 4096 + 4 * j)
  }

  lemma SameEntry(before: seq<byte>, after: seq<byte>, j: nat)
    requires |before| >= 8192 && |after| >= 8192 && j < 1024
    requires LocationAt(after, j) == LocationAt(before, j) && TimestampAt(after, j) == TimestampAt(before, j)
    ensures Word(after, 4 * j) == Word(before, 4 * j) && Word(after, 4096 + 4 * j) == Word(before, 4096 + 4 * j)
  {
    LocationBytes(before, j);
    LocationBytes(after, j);
  }

  /** Behind the tables, bytes outside the `length` from `at` on are as before. */
  lemma KeptByte(before: seq<byte>, after: seq<byte>, at: nat, length: nat, k: nat)
    requires KeptOutside(before, after, at, length)
    requires 8192 <= k < |before| && !(at <= k < at + length)
    ensures k < |after| && after[k] == before[k]
  {
    assert after[k..k + 1] == before[k..k + 1];
    assert after[k] == after[k..k + 1][0];
  }

  /** What is written for a payload: its length, the scheme and the payload itself, unless that goes elsewhere. */
  function Written(payload: seq<byte>): nat {
    if |payload| <= 1044475 then 5 + |payload| else 5
  }

  /** The bytes that a set leaves when it goes through. Whole blocks; the position's entry, with the time; the
      record where the entry says, and past the tables nothing else changed; and the other entries. A payload
      that is too large is in a file of its own, and any other is not. */
  lemma SetLeaves(r: RegionState, codec: Codec, options: WriteOptions, pos: ChunkPos, chunk: Compound, now: u32)
    returns (block: nat, blocks: nat)
    requires Inv(r) && codec.encode(options.compression, chunk).Ok?
    requires |codec.encode(options.compression, chunk).value| <= 1044475 || !options.skipOversizedChunks
    ensures var payload, after := codec.encode(options.compression, chunk).value,
                                  Set(r, codec, options, pos, chunk, now).1;
      && |after.file| % 4096 == 0 && |r.file| <= |after.file|
      && block >= 2 && HasEntry(after.file, Entry(pos), block, blocks, now)
      && HasPayload(after.file, 4096 * block, blocks, Scheme(options.compression), payload)
      && OtherEntriesKept(r.file, after.file, Entry(pos))
      && (forall k :: 8192 <= k < |r.file| && !(4096 * block <= k < 4096 * block + Written(payload)) ==>
            after.file[k] == r.file[k])
      && after.side == if |payload| > 1044475 then r.side[pos := payload] else r.side - {pos}
  {
    var payload := codec.encode(options.compression, chunk).value;
    var after := Set(r, codec, options, pos, chunk, now).1;
    SetOk(r, codec, options, pos, chunk, now);
    block, blocks := after.locations[Entry(pos)].offset, after.locations[Entry(pos)].count;
    WholeBlocks(r, codec, options, pos, chunk, now);
    EffectLeaves(r, after, options.compression, payload, pos, now);
  }

  lemma PadsWhole(file: seq<byte>)
    ensures |PadToSector(file)| % 4096 == 0
  {
  }

  lemma StoreWhole(r: RegionState, i: nat, record: seq<byte>, n: nat, now: u32)
    requires i < ENTRIES
    ensures |Store(r, i, record, n, now).file| % 4096 == 0
  {
    var start := FirstFit(r.used, n);
    var loc := Location(Low8(n), Low24(start));
    var written := WriteAt(r.file, start * SECTOR_SIZE, record);
    PadsWhole(WriteAt(WriteAt(written, i * 4, Be32(loc.Pack())), i * 4 + SECTOR_SIZE, Be32(now)));
  }

  lemma WholeBlocks(r: RegionState, codec: Codec, options: WriteOptions, pos: ChunkPos, chunk: Compound, now: u32)
    requires Prepare(codec, options, chunk).Ok?
    ensures |Set(r, codec, options, pos, chunk, now).1.file| % 4096 == 0
  {
    var payload, forgotten := Prepare(codec, options, chunk).value, Forget(r, ChunkIdx(pos));
    var side := if Oversized(payload) then r.side[pos := payload] else r.side - {pos};
    StoreWhole(forgotten.(side := side), ChunkIdx(pos), Record(options.compression, payload), RecordSectors(payload),
               now);
  }

  lemma TablesLeft(before: seq<byte>, after: seq<byte>, i: nat, loc: Location, now: u32)
    requires |before| >= 8192 && |after| >= 8192 && i < 1024 && HeaderEntered(before, after, i, loc, now)
    ensures HasEntry(after, i, loc.offset, loc.count, now) && OtherEntriesKept(before, after, i)
  {
    LocationBytes(after, i);
    forall j | 0 <= j < 1024 && j != i
      ensures Word(after, 4 * j) == Word(before, 4 * j) && Word(after, 4096 + 4 * j) == Word(before, 4096 + 4 * j)
    {
      SameEntry(before, after, j);
    }
  }

  lemma BytesKept(before: seq<byte>, after: seq<byte>, loc: Location, k: Compression, payload: seq<byte>)
    requires KeptOutside(before, after, loc.offset * SECTOR_SIZE, |Record(k, payload)|)
    ensures forall at :: 8192 <= at < |before| && !(4096 * loc.offset <= at < 4096 * loc.offset + Written(payload)) ==>
              at < |after| && after[at] == before[at]
  {
    forall at | 8192 <= at < |before| && !(4096 * loc.offset <= at < 4096 * loc.offset + Written(payload))
      ensures at < |after| && after[at] == before[at]
    {
      KeptByte(before, after, 4096 * loc.offset, |Record(k, payload)|, at);
    }
  }

  lemma EffectLeaves(r: RegionState, after: RegionState, k: Compression, payload: seq<byte>, pos: ChunkPos, now: u32)
    requires |r.file| >= 8192 && SetEffect(r, after, k, payload, pos, now)
    ensures var block, blocks := after.locations[Entry(pos)].offset, after.locations[Entry(pos)].count;
      && |r.file| <= |after.file| && HasEntry(after.file, Entry(pos), block, blocks, now)
      && HasPayload(after.file, 4096 * block, blocks, Scheme(k), payload)
      && OtherEntriesKept(r.file, after.file, Entry(pos))
      && (forall at :: 8192 <= at < |r.file| && !(4096 * block <= at < 4096 * block + Written(payload)) ==>
            after.file[at] == r.file[at])
      && after.side == if |payload| > 1044475 then r.side[pos := payload] else r.side - {pos}
  {
    var loc := after.locations[ChunkIdx(pos)];
    assert ChunkIdx(pos) == Entry(pos);
    TablesLeft(r.file, after.file, ChunkIdx(pos), loc, now);
    RecordHasPayload(after.file, loc, k, payload);
    BytesKept(r.file, after.file, loc, k, payload);
  }

  // ---- Which bytes the other operations leave ----

  /** A delete zeroes the four bytes of the position's entry and removes its own file; nothing else changes. */
  lemma DeleteLeaves(r: RegionState, pos: ChunkPos)
    requires |r.file| >= 8192 && !(r.locations[Entry(pos)].offset == 0 && r.locations[Entry(pos)].count == 0)
    ensures var (existed, after) := Delete(r, pos);
      && existed && |after.file| == |r.file| && after.side == r.side - {pos}
      && forall k :: 0 <= k < |r.file| ==>
           after.file[k] == if 4 * Entry(pos) <= k < 4 * Entry(pos) + 4 then 0 else r.file[k]
  {
    WriteAtMeans(r.file, Entry(pos) * 4, Be32(0));
    assert Be32(0) == [0, 0, 0, 0];
  }

  /** A new region has two blocks of zeros in front of whatever its file held from there on. */
  lemma CreateLeaves(file: seq<byte>, side: SideFiles)
    ensures var r := Create(file, side);
      && r.side == side && |r.file| == (if |file| > 8192 then |file| else 8192)
      && forall k :: 0 <= k < |r.file| ==> r.file[k] == if k < 8192 then 0 else file[k]
  {
    WriteAtMeans(file, 0, Zeros(8192));
  }

  /** A region file is for 32 by 32 positions, of negative coordinates too. */
  lemma RegionIs(pos: ChunkPos, region: RegionPos)
    ensures RegionOf(pos) == region <==>
      32 * region.x <= pos.x < 32 * region.x + 32 && 32 * region.z <= pos.z < 32 * region.z + 32
  {
  }
}
