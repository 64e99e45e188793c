/** What the operations of one region file do, as functions on its state.

    A region file starts with two header sectors: a table of 1024 packed locations and a table of
    1024 timestamps. Chunk records follow, each in its own run of sectors. The program keeps the two
    tables and a bitmap of used sectors in memory beside the open file. */
module RegionModel {
  import opened Wrappers
  import opened Bytes
  import opened Sectors

  const SECTOR_SIZE := 4096
  const ENTRIES := 1024

  // ---- Values ----

  /** The chunk data (an NBT compound); nothing about its structure matters here. */
  type Compound(!new, ==, 00)

  datatype RegionError =
    | Io
    | MissingChunkStream
    | InvalidChunkSectorOffset
    | InvalidChunkSize
    | InvalidCompressionScheme(scheme: byte)
    | Nbt
    | TrailingNbtData
    | OversizedChunk

  datatype Compression = Gzip | Zlib | Uncompressed {
    function Number(): byte {
      match this
      case Gzip => 1
      case Zlib => 2
      case Uncompressed => 3
    }
  }

  function CompressionFromNumber(n: byte): (r: Option<Compression>)
    ensures forall c: Compression :: r == Some(c) <==> n == c.Number()
  {
    if n == 1 then Some(Gzip)
    else if n == 2 then Some(Zlib)
    else if n == 3 then Some(Uncompressed)
    else None
  }

  datatype WriteOptions = WriteOptions(compression: Compression, skipOversizedChunks: bool)

  datatype RawChunk = RawChunk(data: Compound, timestamp: u32)

  /** NBT serialisation followed by compression. Both directions can fail. */
  datatype Codec = Codec(
    encode: (Compression, Compound) -> Result<seq<byte>, RegionError>,
    decode: (Compression, seq<byte>) -> Result<Compound, RegionError>)
  {
    ghost predicate RoundTrips() {
      forall k: Compression, c: Compound ::
        encode(k, c).Ok? ==> decode(k, encode(k, c).value) == Ok(c)
    }
  }

  datatype ChunkPos = ChunkPos(x: int, z: int)

  datatype RegionPos = RegionPos(x: int, z: int)

  /** Dafny's `/` and `%` round toward negative infinity for a positive divisor, as
      `div_euclid` and `rem_euclid` do. */
  function RegionOf(pos: ChunkPos): RegionPos {
    RegionPos(pos.x / 32, pos.z / 32)
  }

  function ChunkIdx(pos: ChunkPos): (i: nat)
    ensures i < ENTRIES
  {
    pos.x % 32 + pos.z % 32 * 32
  }

  function ChunkAt(region: RegionPos, index: nat): ChunkPos {
    ChunkPos(region.x * 32 + index % 32, region.z * 32 + index / 32)
  }

  /** Within one region, positions and table indices determine each other. */
  lemma ChunkIdxInverse(pos: ChunkPos, region: RegionPos, index: nat)
    requires index < ENTRIES
    ensures ChunkAt(region, index) == pos <==> RegionOf(pos) == region && ChunkIdx(pos) == index
  {
    SplitsAt32(pos.x, region.x, index % 32);
    SplitsAt32(pos.z, region.z, index / 32);
    SplitsAt32(index, index / 32, index % 32);
    SplitsAt32(ChunkIdx(pos), pos.z % 32, pos.x % 32);
  }

  lemma SplitsAt32(n: int, high: int, low: int)
    requires 0 <= low < 32
    ensures high * 32 + low == n <==> n / 32 == high && n % 32 == low
  {
  }

  type u24 = n: int | 0 <= n < 0x100_0000

  /** A packed table entry: eight bits of sector count below twenty-four bits of sector offset. */
  datatype Location = Location(count: byte, offset: u24) {
    function Pack(): u32 {
      offset as int * 0x100 + count
    }

    /** The packed word is zero. */
    predicate IsNone() {
      offset == 0 && count == 0
    }

    predicate Holds(s: nat) {
      offset <= s < offset as int + count
    }

    predicate Before(other: Location) {
      offset as int + count <= other.offset
    }
  }

  const NO_LOCATION := Location(0, 0)

  /** Every word is some packed entry, and every entry is recovered from its word. */
  function Unpack(v: u32): (r: Location)
    ensures forall loc: Location :: r == loc <==> loc.Pack() == v
  {
    Location(v % 0x100, v / 0x100)
  }

  type Locations = s: seq<Location> | |s| == ENTRIES witness seq(ENTRIES, _ => NO_LOCATION)

  type Timestamps = s: seq<u32> | |s| == ENTRIES witness seq(ENTRIES, _ => 0)

  /** The side files of chunks too large for a region file, by chunk position. */
  type SideFiles = map<ChunkPos, seq<byte>>

  /** An open region: the file, the header tables and bitmap held in memory, and the directory's
      side files. */
  datatype RegionState = RegionState(
    file: seq<byte>,
    locations: Locations,
    timestamps: Timestamps,
    used: seq<bool>,
    side: SideFiles)

  // ---- Opening ----

  function LocationAt(file: seq<byte>, i: nat): Location
    requires i < ENTRIES && |file| >= 2 * SECTOR_SIZE
  {
    Unpack(FromBe32(file[i * 4..i * 4 + 4]))
  }

  function TimestampAt(file: seq<byte>, i: nat): u32
    requires i < ENTRIES && |file| >= 2 * SECTOR_SIZE
  {
    FromBe32(file[i * 4 + SECTOR_SIZE..i * 4 + SECTOR_SIZE + 4])
  }

  /** The header entries that opening a file honours when it rebuilds the bitmap. */
  predicate Plausible(loc: Location, fileLength: nat) {
    loc.offset >= 2 && loc.count > 0 && loc.offset * SECTOR_SIZE <= fileLength
  }

  function OpenedUsed(locations: Locations, fileLength: nat, n: nat): seq<bool>
    requires n <= ENTRIES
  {
    if n == 0 then [true, true]
    else
      var used := OpenedUsed(locations, fileLength, n - 1);
      if Plausible(locations[n - 1], fileLength)
      then Reserved(used, locations[n - 1].offset, locations[n - 1].count)
      else used
  }

  function Open(file: seq<byte>, side: SideFiles): Result<RegionState, RegionError> {
    if |file| < 2 * SECTOR_SIZE then Err(Io)
    else
      var locations := seq(ENTRIES, i requires 0 <= i < ENTRIES => LocationAt(file, i));
      var timestamps := seq(ENTRIES, i requires 0 <= i < ENTRIES => TimestampAt(file, i));
      Ok(RegionState(file, locations, timestamps, OpenedUsed(locations, |file|, ENTRIES), side))
  }

  /** The header is written at the start of whatever the file held. */
  function Create(file: seq<byte>, side: SideFiles): RegionState {
    RegionState(WriteAt(file, 0, Zeros(2 * SECTOR_SIZE)),
                seq(ENTRIES, _ => NO_LOCATION), seq(ENTRIES, _ => 0), [true, true], side)
  }

  // ---- Reading ----

  /** The compression number and payload of the record that `loc` points to. */
  function ReadRecord(file: seq<byte>, loc: Location, side: Option<seq<byte>>)
    : Result<(byte, seq<byte>), RegionError>
  {
    var at := loc.offset * SECTOR_SIZE;
    if loc.offset < 2 then Err(InvalidChunkSectorOffset)
    else if |file| < at + 4 then Err(Io)
    else
      var size := FromBe32(file[at..at + 4]);
      if size == 0 then Err(MissingChunkStream)
      else if loc.count * SECTOR_SIZE < size then Err(InvalidChunkSize)
      else if |file| < at + 5 then Err(Io)
      else
        var version := file[at + 4];
        if version >= 0x80 then
          if side.Some? then Ok((version - 0x80, side.value)) else Err(Io)
        else if |file| < at + 4 + size then Err(Io)
        else Ok((version, file[at + 5..at + 4 + size]))
  }

  function SideFile(side: SideFiles, pos: ChunkPos): Option<seq<byte>> {
    if pos in side then Some(side[pos]) else None
  }

  function Get(r: RegionState, codec: Codec, pos: ChunkPos): Result<Option<RawChunk>, RegionError> {
    var i := ChunkIdx(pos);
    var loc := r.locations[i];
    if loc.IsNone() then Ok(None)
    else
      match ReadRecord(r.file, loc, SideFile(r.side, pos))
      case Err(e) => Err(e)
      case Ok((number, payload)) =>
        match CompressionFromNumber(number)
        case None => Err(InvalidCompressionScheme(number))
        case Some(compression) =>
          match codec.decode(compression, payload)
          case Err(e) => Err(e)
          case Ok(data) => Ok(Some(RawChunk(data, r.timestamps[i])))
  }

  predicate Present(r: RegionState, pos: ChunkPos) {
    !r.locations[ChunkIdx(pos)].IsNone()
  }

  // ---- Deleting ----

  /** Drop entry `i` from the tables in memory and free its sectors in the bitmap. */
  function Forget(r: RegionState, i: nat): RegionState
    requires i < ENTRIES
  {
    var loc := r.locations[i];
    if loc.IsNone() then r
    else r.(locations := r.locations[i := NO_LOCATION],
            used := if loc.offset >= 2 then Cleared(r.used, loc.offset, loc.offset as int + loc.count)
                    else r.used)
  }

  function Delete(r: RegionState, pos: ChunkPos): (bool, RegionState) {
    var i := ChunkIdx(pos);
    if r.locations[i].IsNone() then (false, r)
    else (true, Forget(r, i).(file := WriteAt(r.file, i * 4, Be32(0)), side := r.side - {pos}))
  }

  // ---- Writing ----

  /** What a 24-bit field keeps of a number. */
  function Low24(v: nat): (r: u24)
    ensures v < 0x100_0000 ==> r == v
  {
    v % 0x100_0000
  }

  /** What an 8-bit field keeps of a number. */
  function Low8(v: nat): (r: byte)
    ensures v < 0x100 ==> r == v
  {
    v % 0x100
  }

  function SectorsNeeded(payload: seq<byte>): nat {
    (|payload| + 5 + (SECTOR_SIZE - 1)) / SECTOR_SIZE
  }

  /** A chunk this large goes to a side file. */
  predicate Oversized(payload: seq<byte>) {
    SectorsNeeded(payload) >= 256
  }

  function PadToSector(file: seq<byte>): seq<byte> {
    var rem := |file| % SECTOR_SIZE;
    if rem == 0 then file else file + Zeros(SECTOR_SIZE - rem)
  }

  /** The record of a chunk: its length word, the compression number, and the payload unless
      that went to a side file. */
  function Record(compression: Compression, payload: seq<byte>): (record: seq<byte>)
    ensures |record| >= 5
  {
    if Oversized(payload) then Be32(1) + [compression.Number() + 0x80]
    else Be32(|payload| + 1) + [compression.Number()] + payload
  }

  function RecordSectors(payload: seq<byte>): (n: nat)
    ensures 1 <= n <= 255
  {
    if Oversized(payload) then 1 else SectorsNeeded(payload)
  }

  /** Write a record of `n` sectors into the first gap that takes it and enter it at index `i`.
      The packed entry keeps the low 24 bits of the start and the low 8 bits of the count. */
  function Store(r: RegionState, i: nat, record: seq<byte>, n: nat, now: u32): RegionState
    requires i < ENTRIES
  {
    var start := FirstFit(r.used, n);
    var loc := Location(Low8(n), Low24(start));
    var written := WriteAt(r.file, start * SECTOR_SIZE, record);
    var entered := WriteAt(WriteAt(written, i * 4, Be32(loc.Pack())),
                           i * 4 + SECTOR_SIZE, Be32(now));
    r.(file := PadToSector(entered),
       locations := r.locations[i := loc],
       timestamps := r.timestamps[i := now],
       used := Reserved(r.used, start, n))
  }

  /** The payload that a set writes, or the error with which it stops before touching the file. */
  function Prepare(codec: Codec, options: WriteOptions, chunk: Compound): Result<seq<byte>, RegionError> {
    match codec.encode(options.compression, chunk)
    case Err(e) => Err(e)
    case Ok(payload) =>
      if Oversized(payload) && options.skipOversizedChunks then Err(OversizedChunk) else Ok(payload)
  }

  /** The entry is dropped from memory first, also when the set then fails. */
  function Set(r: RegionState, codec: Codec, options: WriteOptions,
               pos: ChunkPos, chunk: Compound, now: u32): (Result<(), RegionError>, RegionState)
  {
    var i := ChunkIdx(pos);
    var forgotten := Forget(r, i);
    match Prepare(codec, options, chunk)
    case Err(e) => (Err(e), forgotten)
    case Ok(payload) =>
      var sided := forgotten.(side := if Oversized(payload) then r.side[pos := payload] else r.side - {pos});
      (Ok(()), Store(sided, i, Record(options.compression, payload), RecordSectors(payload), now))
  }
}
