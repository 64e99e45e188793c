/** An open region file as the program keeps it: fixed tables, a bitmap and a file handle, all
    updated in place. Every method is specified by the functions of `RegionModel`. */
module Region {
  import opened Wrappers
  import opened Bytes
  import opened Sectors
  import opened RegionModel
  import FolderModel

  /** The directory that holds the region files and the side files. */
  class Directory {
    var files: map<RegionPos, seq<byte>>
    var side: SideFiles

    constructor ()
      ensures files == map[] && side == map[]
    {
      files, side := map[], map[];
    }

    ghost function Disk(): FolderModel.Disk
      reads this
    {
      FolderModel.Disk(files, side)
    }

    /** Seek to `at` in a region file, creating it when absent, and write. */
    method WriteAll(path: RegionPos, at: nat, data: seq<byte>)
      modifies this`files
      ensures files == old(files)[path := WriteAt(FolderModel.FileOf(old(Disk()), path), at, data)]
    {
      files := files[path := WriteAt(if path in files then files[path] else [], at, data)];
    }

    method WriteSideFile(pos: ChunkPos, data: seq<byte>)
      modifies this`side
      ensures side == old(side)[pos := data]
    {
      side := side[pos := data];
    }

    /** Removing a file that does not exist is not an error. */
    method DeleteSideFile(pos: ChunkPos)
      modifies this`side
      ensures side == old(side) - {pos}
    {
      side := side - {pos};
    }
  }

  class Region {
    const dir: Directory
    const path: RegionPos
    const locations: array<Location>
    const timestamps: array<u32>
    var usedSectors: seq<bool>

    ghost predicate Shaped()
      reads this
    {
      locations.Length == ENTRIES && timestamps.Length == ENTRIES
    }

    ghost predicate Valid()
      reads this, dir
    {
      Shaped() && path in dir.files
    }

    /** What is kept in memory beside the file. */
    ghost function Tables(): FolderModel.Entry
      requires Shaped()
      reads this, locations, timestamps
    {
      FolderModel.Occupied(locations[..], timestamps[..], usedSectors)
    }

    ghost function State(): RegionState
      requires Valid()
      reads this, dir, locations, timestamps
    {
      RegionState(dir.files[path], locations[..], timestamps[..], usedSectors, dir.side)
    }

    /** A header of zeros over the start of the file. */
    constructor Create(dir: Directory, path: RegionPos)
      modifies dir
      ensures Valid() && fresh(locations) && fresh(timestamps)
      ensures this.dir == dir && this.path == path
      ensures State() == RegionModel.Create(FolderModel.FileOf(old(dir.Disk()), path), old(dir.side))
      ensures dir.files == old(dir.files)[path := State().file] && dir.side == old(dir.side)
    {
      this.dir, this.path := dir, path;
      locations := new Location[ENTRIES](_ => NO_LOCATION);
      timestamps := new u32[ENTRIES](_ => 0);
      usedSectors := [true, true];
      new;
      dir.WriteAll(path, 0, Zeros(2 * SECTOR_SIZE));
    }

    constructor FromTables(dir: Directory, path: RegionPos, locations: array<Location>, timestamps: array<u32>,
                           usedSectors: seq<bool>)
      ensures this.dir == dir && this.path == path
      ensures this.locations == locations && this.timestamps == timestamps && this.usedSectors == usedSectors
    {
      this.dir, this.path := dir, path;
      this.locations, this.timestamps, this.usedSectors := locations, timestamps, usedSectors;
    }

    /** Read the header, then rebuild the bitmap entry by entry. */
    static method Open(dir: Directory, path: RegionPos) returns (r: Result<Region, RegionError>)
      requires path in dir.files
      ensures match RegionModel.Open(dir.files[path], dir.side)
        case Err(e) => r == Err(e)
        case Ok(state) =>
          && r.Ok? && fresh(r.value) && fresh(r.value.locations) && fresh(r.value.timestamps)
          && r.value.dir == dir && r.value.path == path
          && r.value.Valid() && r.value.State() == state
    {
      var file := dir.files[path];
      if |file| < 2 * SECTOR_SIZE {
        return Err(Io);
      }
      var locations := new Location[ENTRIES](i requires 0 <= i < ENTRIES => LocationAt(file, i));
      var timestamps := new u32[ENTRIES](i requires 0 <= i < ENTRIES => TimestampAt(file, i));
      ghost var state := RegionModel.Open(file, dir.side).value;
      assert locations[..] == state.locations && timestamps[..] == state.timestamps;
      var usedSectors := [true, true];
      for i := 0 to ENTRIES
        invariant locations[..] == state.locations && timestamps[..] == state.timestamps
        invariant usedSectors == OpenedUsed(state.locations, |file|, i)
      {
        var location := locations[i];
        if location.IsNone() || location.offset < 2 || location.count == 0
           || location.offset * SECTOR_SIZE > |file| {
          continue;
        }
        usedSectors := ReserveSectors(usedSectors, location.offset, location.count);
      }
      var region := new Region.FromTables(dir, path, locations, timestamps, usedSectors);
      return Ok(region);
    }

    method GetChunk(codec: Codec, pos: ChunkPos) returns (r: Result<Option<RawChunk>, RegionError>)
      requires Valid()
      ensures r == Get(State(), codec, pos)
    {
      var chunkIdx := ChunkIdx(pos);
      var location, timestamp := locations[chunkIdx], timestamps[chunkIdx];
      if location.IsNone() {
        return Ok(None);
      }
      if location.offset < 2 {
        return Err(InvalidChunkSectorOffset);
      }
      var file, at := dir.files[path], location.offset * SECTOR_SIZE;
      if |file| < at + 4 {
        return Err(Io);
      }
      var exactChunkSize := FromBe32(file[at..at + 4]);
      if exactChunkSize == 0 {
        return Err(MissingChunkStream);
      }
      if location.count * SECTOR_SIZE < exactChunkSize {
        return Err(InvalidChunkSize);
      }
      if |file| < at + 5 {
        return Err(Io);
      }
      var compression := file[at + 4];
      var data: seq<byte>;
      if compression >= 0x80 {
        compression := compression - 0x80;
        if pos !in dir.side {
          return Err(Io);
        }
        data := dir.side[pos];
      } else {
        if |file| < at + 4 + exactChunkSize {
          return Err(Io);
        }
        data := file[at + 5..at + 4 + exactChunkSize];
      }
      match CompressionFromNumber(compression) {
        case None => return Err(InvalidCompressionScheme(compression));
        case Some(scheme) =>
          match codec.decode(scheme, data) {
            case Err(e) => return Err(e);
            case Ok(chunk) => return Ok(Some(RawChunk(chunk, timestamp)));
          }
      }
    }

    method DeleteChunk(pos: ChunkPos, deleteOnDisk: bool) returns (existed: bool)
      requires Valid()
      modifies this`usedSectors, locations, dir
      ensures Valid()
      ensures existed == Present(old(State()), pos)
      ensures State() == if deleteOnDisk then Delete(old(State()), pos).1 else Forget(old(State()), ChunkIdx(pos))
      ensures dir.files == old(dir.files)[path := State().file]
    {
      var chunkIdx := ChunkIdx(pos);
      var location := locations[chunkIdx];
      if location.IsNone() {
        return false;
      }
      if deleteOnDisk {
        dir.WriteAll(path, chunkIdx * 4, Be32(0));
        dir.DeleteSideFile(pos);
      }
      if location.offset >= 2 {
        var start, end := location.offset, location.offset as int + location.count;
        var len := |usedSectors|;
        var from, to := if start < len then start else len, if end < len then end else len;
        usedSectors := usedSectors[..from] + seq(to - from, _ => false) + usedSectors[to..];
        assert usedSectors == Cleared(old(usedSectors), start, end);
      }
      locations[chunkIdx] := NO_LOCATION;
      return true;
    }

    method AllocateSectors(numSectors: nat) returns (start: nat)
      requires numSectors > 0
      modifies this`usedSectors
      ensures start == FirstFit(old(usedSectors), numSectors)
      ensures usedSectors == Reserved(old(usedSectors), start, numSectors)
    {
      start := FindFreeSectors(usedSectors, numSectors);
      usedSectors := ReserveSectors(usedSectors, start, numSectors);
    }

    /** A chunk too large for the region file: its payload goes to the side file, and a one-sector
        record says so. */
    method WriteOversized(compression: Compression, pos: ChunkPos, buf: seq<byte>) returns (startSector: nat)
      requires Valid() && Oversized(buf)
      modifies this`usedSectors, dir
      ensures Valid()
      ensures startSector == FirstFit(old(usedSectors), 1)
      ensures usedSectors == Reserved(old(usedSectors), startSector, 1)
      ensures dir.side == old(dir.side)[pos := buf]
      ensures dir.files == old(dir.files)[path :=
        WriteAt(old(dir.files[path]), startSector * SECTOR_SIZE, Record(compression, buf))]
    {
      dir.WriteSideFile(pos, buf);
      startSector := AllocateSectors(1);
      var at := startSector * SECTOR_SIZE;
      dir.WriteAll(path, at, Be32(1));
      dir.WriteAll(path, at + 4, [compression.Number() + 0x80]);
      WriteAtConcat(old(dir.files[path]), at, Be32(1), [compression.Number() + 0x80]);
    }

    /** Length, compression number and payload in one run of sectors; an older side file goes. */
    method WriteInline(compression: Compression, pos: ChunkPos, buf: seq<byte>) returns (startSector: nat)
      requires Valid() && !Oversized(buf)
      modifies this`usedSectors, dir
      ensures Valid()
      ensures startSector == FirstFit(old(usedSectors), SectorsNeeded(buf))
      ensures usedSectors == Reserved(old(usedSectors), startSector, SectorsNeeded(buf))
      ensures dir.side == old(dir.side) - {pos}
      ensures dir.files == old(dir.files)[path :=
        WriteAt(old(dir.files[path]), startSector * SECTOR_SIZE, Record(compression, buf))]
    {
      dir.DeleteSideFile(pos);
      startSector := AllocateSectors(SectorsNeeded(buf));
      var at := startSector * SECTOR_SIZE;
      var size, scheme := Be32(|buf| + 1), [compression.Number()];
      dir.WriteAll(path, at, size);
      dir.WriteAll(path, at + 4, scheme);
      dir.WriteAll(path, at + 5, buf);
      WriteAtConcat(old(dir.files[path]), at, size, scheme);
      WriteAtConcat(old(dir.files[path]), at, size + scheme, buf);
    }

    method WriteRecord(compression: Compression, pos: ChunkPos, buf: seq<byte>) returns (startSector: nat)
      requires Valid()
      modifies this`usedSectors, dir
      ensures Valid()
      ensures startSector == FirstFit(old(usedSectors), RecordSectors(buf))
      ensures usedSectors == Reserved(old(usedSectors), startSector, RecordSectors(buf))
      ensures dir.side == if Oversized(buf) then old(dir.side)[pos := buf] else old(dir.side) - {pos}
      ensures dir.files == old(dir.files)[path :=
        WriteAt(old(dir.files[path]), startSector * SECTOR_SIZE, Record(compression, buf))]
    {
      if SectorsNeeded(buf) >= 256 {
        startSector := WriteOversized(compression, pos, buf);
      } else {
        startSector := WriteInline(compression, pos, buf);
      }
    }

    /** Enter a location and timestamp in the header and the tables, then pad the file. */
    method Enter(chunkIdx: nat, location: Location, now: u32)
      requires Valid() && chunkIdx < ENTRIES
      modifies locations, timestamps, dir`files
      ensures Valid()
      ensures locations[..] == old(locations[..])[chunkIdx := location]
      ensures timestamps[..] == old(timestamps[..])[chunkIdx := now]
      ensures dir.files == old(dir.files)[path := PadToSector(
        WriteAt(WriteAt(old(dir.files[path]), chunkIdx * 4, Be32(location.Pack())),
                chunkIdx * 4 + SECTOR_SIZE, Be32(now)))]
    {
      dir.WriteAll(path, chunkIdx * 4, Be32(location.Pack()));
      dir.WriteAll(path, chunkIdx * 4 + SECTOR_SIZE, Be32(now));
      locations[chunkIdx] := location;
      timestamps[chunkIdx] := now;
      var fileLength := |dir.files[path]|;
      var rem := fileLength % SECTOR_SIZE;
      if rem != 0 {
        AppendAtEnd(dir.files[path], Zeros(SECTOR_SIZE - rem));
        dir.WriteAll(path, fileLength, Zeros(SECTOR_SIZE - rem));
      }
    }

    /** Write a prepared chunk where it fits first and enter it. */
    method Place(compression: Compression, pos: ChunkPos, buf: seq<byte>, now: u32)
      requires Valid()
      modifies this`usedSectors, locations, timestamps, dir
      ensures Valid()
      ensures var side := if Oversized(buf) then old(dir.side)[pos := buf] else old(dir.side) - {pos};
        State() == Store(old(State()).(side := side), ChunkIdx(pos), Record(compression, buf), RecordSectors(buf), now)
      ensures dir.files == old(dir.files)[path := State().file]
    {
      var startSector := WriteRecord(compression, pos, buf);
      Enter(ChunkIdx(pos), Location(Low8(RecordSectors(buf)), Low24(startSector)), now);
    }

    method SetChunk(codec: Codec, options: WriteOptions, pos: ChunkPos, chunk: Compound, now: u32)
      returns (r: Result<(), RegionError>)
      requires Valid()
      modifies this`usedSectors, locations, timestamps, dir
      ensures Valid()
      ensures (r, State()) == Set(old(State()), codec, options, pos, chunk, now)
      ensures dir.files == old(dir.files)[path := State().file]
    {
      var _ := DeleteChunk(pos, false);
      assert State() == Forget(old(State()), ChunkIdx(pos)) && dir.files == old(dir.files);
      var encoded := codec.encode(options.compression, chunk);
      if encoded.Err? {
        return Err(encoded.error);
      }
      var buf := encoded.value;
      if SectorsNeeded(buf) >= 256 && options.skipOversizedChunks {
        return Err(OversizedChunk);
      }
      Place(options.compression, pos, buf, now);
      return Ok(());
    }

    /** The positions of the stored chunks, in table order. */
    method ChunkPositions(region: RegionPos) returns (positions: seq<ChunkPos>)
      requires Valid()
      ensures forall pos :: pos in positions <==> RegionOf(pos) == region && Present(State(), pos)
      ensures forall i, j :: 0 <= i < j < |positions| ==> ChunkIdx(positions[i]) < ChunkIdx(positions[j])
    {
      positions := [];
      for index := 0 to ENTRIES
        invariant forall pos :: pos in positions <==>
          RegionOf(pos) == region && Present(State(), pos) && ChunkIdx(pos) < index
        invariant forall i, j :: 0 <= i < j < |positions| ==> ChunkIdx(positions[i]) < ChunkIdx(positions[j])
      {
        forall pos {
          ChunkIdxInverse(pos, region, index);
        }
        if !locations[index].IsNone() {
          positions := positions + [ChunkAt(region, index)];
        }
      }
    }
  }

  lemma AppendAtEnd(file: seq<byte>, data: seq<byte>)
    ensures WriteAt(file, |file|, data) == file + data
  {
    WriteAtMeans(file, |file|, data);
  }
}
