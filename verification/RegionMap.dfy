/** What a store changes in a region file byte by byte, and what a read depends on. */
module RegionMap {
  import opened Wrappers
  import opened Bytes
  import opened RegionModel
  import opened RegionLaws

  // ---- Byte-level framing of a store ----

  function Entered(file: seq<byte>, i: nat, loc: Location, now: u32): seq<byte>
    requires i < ENTRIES
  {
    WriteAt(WriteAt(file, i * 4, Be32(loc.Pack())), i * 4 + SECTOR_SIZE, Be32(now))
  }

  /** Writing one header word changes that table entry and no other. */
  lemma HeaderWordFrame(file: seq<byte>, at: nat, word: u32, other: nat)
    requires |file| >= 2 * SECTOR_SIZE
    requires at % 4 == 0 && other % 4 == 0 && at + 4 <= 2 * SECTOR_SIZE && other + 4 <= 2 * SECTOR_SIZE
    ensures |WriteAt(file, at, Be32(word))| == |file|
    ensures FromBe32(WriteAt(file, at, Be32(word))[other..other + 4]) ==
            if at == other then word else FromBe32(file[other..other + 4])
  {
    if at == other {
      WriteAtRead(file, at, Be32(word));
    } else {
      WriteAtFrame(file, at, Be32(word), other, other + 4);
    }
  }

  /** Entering a record changes its two header words. */
  lemma EnteredWord(file: seq<byte>, i: nat, loc: Location, now: u32, at: nat)
    requires |file| >= 2 * SECTOR_SIZE
    requires i < ENTRIES && at % 4 == 0 && at + 4 <= 2 * SECTOR_SIZE
    ensures |Entered(file, i, loc, now)| == |file|
    ensures FromBe32(Entered(file, i, loc, now)[at..at + 4]) ==
            if at == i * 4 then loc.Pack()
            else if at == i * 4 + SECTOR_SIZE then now
            else FromBe32(file[at..at + 4])
  {
    var word := loc.Pack();
    var first := WriteAt(file, i * 4, Be32(word));
    HeaderWordFrame(file, i * 4, word, at);
    HeaderWordFrame(first, i * 4 + SECTOR_SIZE, now, at);
  }

  lemma EnteredLocation(file: seq<byte>, i: nat, loc: Location, now: u32, j: nat)
    requires |file| >= 2 * SECTOR_SIZE
    requires i < ENTRIES && j < ENTRIES
    ensures |Entered(file, i, loc, now)| == |file|
    ensures LocationAt(Entered(file, i, loc, now), j) == if i == j then loc else LocationAt(file, j)
  {
    EnteredWord(file, i, loc, now, j * 4);
  }

  lemma EnteredTimestamp(file: seq<byte>, i: nat, loc: Location, now: u32, j: nat)
    requires |file| >= 2 * SECTOR_SIZE
    requires i < ENTRIES && j < ENTRIES
    ensures |Entered(file, i, loc, now)| == |file|
    ensures TimestampAt(Entered(file, i, loc, now), j) == if i == j then now else TimestampAt(file, j)
  {
    EnteredWord(file, i, loc, now, j * 4 + SECTOR_SIZE);
  }

  lemma EnteredFrame(file: seq<byte>, i: nat, loc: Location, now: u32, lo: nat, hi: nat)
    requires i < ENTRIES
    requires 2 * SECTOR_SIZE <= lo <= hi <= |file|
    ensures |Entered(file, i, loc, now)| == |file|
    ensures Entered(file, i, loc, now)[lo..hi] == file[lo..hi]
  {
    var first := WriteAt(file, i * 4, Be32(loc.Pack()));
    WriteAtFrame(file, i * 4, Be32(loc.Pack()), lo, hi);
    WriteAtFrame(first, i * 4 + SECTOR_SIZE, Be32(now), lo, hi);
  }

  lemma PadFrame(file: seq<byte>, lo: nat, hi: nat)
    requires lo <= hi <= |file|
    ensures |PadToSector(file)| % SECTOR_SIZE == 0 && |file| <= |PadToSector(file)|
    ensures PadToSector(file)[lo..hi] == file[lo..hi]
  {
  }

  /** The tables on disk change in entry `i` only. */
  ghost predicate HeaderEntered(before: seq<byte>, after: seq<byte>, i: nat, loc: Location, now: u32)
    requires i < ENTRIES && |before| >= 2 * SECTOR_SIZE && |after| >= 2 * SECTOR_SIZE
  {
    && (forall j :: 0 <= j < ENTRIES ==>
          LocationAt(after, j) == if i == j then loc else LocationAt(before, j))
    && (forall j :: 0 <= j < ENTRIES ==>
          TimestampAt(after, j) == if i == j then now else TimestampAt(before, j))
  }

  /** Past the header, only the `length` bytes at `at` may differ. */
  ghost predicate KeptOutside(before: seq<byte>, after: seq<byte>, at: nat, length: nat) {
    && |before| <= |after|
    && (forall lo: nat, hi: nat ::
          2 * SECTOR_SIZE <= lo <= hi <= |before| && (hi <= at || at + length <= lo) ==>
          after[lo..hi] == before[lo..hi])
  }

  /** The record of `loc` stands in the file, which covers all of its sectors. */
  ghost predicate HoldsRecord(file: seq<byte>, loc: Location, record: seq<byte>) {
    var at := loc.offset * SECTOR_SIZE;
    && (loc.offset as int + loc.count) * SECTOR_SIZE <= |file|
    && at + |record| <= |file| && file[at..at + |record|] == record
  }

  function Stored(file: seq<byte>, i: nat, loc: Location, record: seq<byte>, now: u32): seq<byte>
    requires i < ENTRIES
  {
    PadToSector(Entered(WriteAt(file, loc.offset * SECTOR_SIZE, record), i, loc, now))
  }

  /** Neither the record nor the padding touches the header. */
  lemma StoredHeader(file: seq<byte>, i: nat, loc: Location, record: seq<byte>, now: u32, at: nat)
    requires i < ENTRIES && at + 4 <= 2 * SECTOR_SIZE <= |file|
    requires loc.offset >= 2
    ensures var written := WriteAt(file, loc.offset * SECTOR_SIZE, record);
      && |file| <= |written| == |Entered(written, i, loc, now)| <= |Stored(file, i, loc, record, now)|
      && written[at..at + 4] == file[at..at + 4]
      && Stored(file, i, loc, record, now)[at..at + 4] == Entered(written, i, loc, now)[at..at + 4]
  {
    var written := WriteAt(file, loc.offset * SECTOR_SIZE, record);
    WriteAtFrame(file, loc.offset * SECTOR_SIZE, record, at, at + 4);
    EnteredLocation(written, i, loc, now, i);
    PadFrame(Entered(written, i, loc, now), at, at + 4);
  }

  lemma StoredLocation(file: seq<byte>, i: nat, loc: Location, record: seq<byte>, now: u32, j: nat)
    requires i < ENTRIES && j < ENTRIES && |file| >= 2 * SECTOR_SIZE
    requires loc.offset >= 2
    ensures |file| <= |Stored(file, i, loc, record, now)|
    ensures LocationAt(Stored(file, i, loc, record, now), j) == if i == j then loc else LocationAt(file, j)
  {
    StoredHeader(file, i, loc, record, now, j * 4);
    EnteredLocation(WriteAt(file, loc.offset * SECTOR_SIZE, record), i, loc, now, j);
  }

  lemma StoredTimestamp(file: seq<byte>, i: nat, loc: Location, record: seq<byte>, now: u32, j: nat)
    requires i < ENTRIES && j < ENTRIES && |file| >= 2 * SECTOR_SIZE
    requires loc.offset >= 2
    ensures |file| <= |Stored(file, i, loc, record, now)|
    ensures TimestampAt(Stored(file, i, loc, record, now), j) == if i == j then now else TimestampAt(file, j)
  {
    StoredHeader(file, i, loc, record, now, j * 4 + SECTOR_SIZE);
    EnteredTimestamp(WriteAt(file, loc.offset * SECTOR_SIZE, record), i, loc, now, j);
  }

  lemma StoredFrame(file: seq<byte>, i: nat, loc: Location, record: seq<byte>, now: u32, lo: nat, hi: nat)
    requires i < ENTRIES && |file| >= 2 * SECTOR_SIZE
    requires 2 * SECTOR_SIZE <= lo <= hi <= |file|
    requires var at := loc.offset * SECTOR_SIZE; hi <= at || at + |record| <= lo
    ensures |file| <= |Stored(file, i, loc, record, now)|
    ensures Stored(file, i, loc, record, now)[lo..hi] == file[lo..hi]
  {
    var written := WriteAt(file, loc.offset * SECTOR_SIZE, record);
    WriteAtFrame(file, loc.offset * SECTOR_SIZE, record, lo, hi);
    EnteredFrame(written, i, loc, now, lo, hi);
    PadFrame(Entered(written, i, loc, now), lo, hi);
  }

  lemma WholeSectors(length: nat, m: nat)
    requires length % SECTOR_SIZE == 0 && length > (m - 1) * SECTOR_SIZE
    ensures length >= m * SECTOR_SIZE
  {
    assert length == length / SECTOR_SIZE * SECTOR_SIZE;
  }

  lemma StoredRecord(file: seq<byte>, i: nat, loc: Location, record: seq<byte>, now: u32)
    requires i < ENTRIES && |file| >= 2 * SECTOR_SIZE
    requires loc.offset >= 2 && loc.count >= 1
    requires (loc.count - 1) * SECTOR_SIZE < |record| <= loc.count * SECTOR_SIZE
    ensures HoldsRecord(Stored(file, i, loc, record, now), loc, record)
  {
    var at := loc.offset * SECTOR_SIZE;
    var written := WriteAt(file, at, record);
    WriteAtRead(file, at, record);
    EnteredFrame(written, i, loc, now, at, at + |record|);
    PadFrame(Entered(written, i, loc, now), at, at + |record|);
    WholeSectors(|Stored(file, i, loc, record, now)|, loc.offset as int + loc.count);
  }

  lemma StoredTables(file: seq<byte>, i: nat, loc: Location, record: seq<byte>, now: u32)
    requires i < ENTRIES && |file| >= 2 * SECTOR_SIZE
    requires loc.offset >= 2
    ensures |file| <= |Stored(file, i, loc, record, now)|
    ensures HeaderEntered(file, Stored(file, i, loc, record, now), i, loc, now)
  {
    StoredLocation(file, i, loc, record, now, i);
    forall j | 0 <= j < ENTRIES
      ensures LocationAt(Stored(file, i, loc, record, now), j) == if i == j then loc else LocationAt(file, j)
      ensures TimestampAt(Stored(file, i, loc, record, now), j) == if i == j then now else TimestampAt(file, j)
    {
      StoredLocation(file, i, loc, record, now, j);
      StoredTimestamp(file, i, loc, record, now, j);
    }
  }

  lemma StoredKeeps(file: seq<byte>, i: nat, loc: Location, record: seq<byte>, now: u32)
    requires i < ENTRIES && |file| >= 2 * SECTOR_SIZE
    requires loc.offset >= 2
    ensures KeptOutside(file, Stored(file, i, loc, record, now), loc.offset * SECTOR_SIZE, |record|)
  {
    var at := loc.offset * SECTOR_SIZE;
    StoredLocation(file, i, loc, record, now, i);
    forall lo: nat, hi: nat | 2 * SECTOR_SIZE <= lo <= hi <= |file| && (hi <= at || at + |record| <= lo)
      ensures Stored(file, i, loc, record, now)[lo..hi] == file[lo..hi]
    {
      StoredFrame(file, i, loc, record, now, lo, hi);
    }
  }

  // ---- Reading depends only on the record's own sectors ----

  lemma ReadFrame(before: seq<byte>, after: seq<byte>, loc: Location, side: Option<seq<byte>>)
    requires loc.offset >= 2 && Fits(before, loc)
    requires |before| <= |after|
    requires var lo, hi := loc.offset * SECTOR_SIZE, (loc.offset as int + loc.count) * SECTOR_SIZE;
      after[lo..hi] == before[lo..hi]
    ensures Fits(after, loc)
    ensures ReadRecord(after, loc, side) == ReadRecord(before, loc, side)
  {
    var lo, hi := loc.offset * SECTOR_SIZE, (loc.offset as int + loc.count) * SECTOR_SIZE;
    SubSlice(before, lo, hi, 0, 4);
    SubSlice(after, lo, hi, 0, 4);
    SubSlice(before, lo, hi, 4, 5);
    SubSlice(after, lo, hi, 4, 5);
    assert before[lo + 4] == before[lo + 4..lo + 5][0] && after[lo + 4] == after[lo + 4..lo + 5][0];
    var size := FromBe32(before[lo..lo + 4]);
    if size > 0 {
      SubSlice(before, lo, hi, 5, 4 + size);
      SubSlice(after, lo, hi, 5, 4 + size);
    }
  }

  lemma SubSlice(s: seq<byte>, lo: nat, hi: nat, a: nat, b: nat)
    requires lo <= hi <= |s| && a <= b <= hi - lo
    ensures s[lo..hi][a..b] == s[lo + a..lo + b]
  {
    forall k | 0 <= k < b - a
      ensures s[lo..hi][a..b][k] == s[lo + a..lo + b][k]
    {
      assert s[lo..hi][a..b][k] == s[lo..hi][a + k] == s[lo + (a + k)];
    }
  }

  /** Reading back the record of a chunk gives its compression number and payload. */
  lemma ReadOwnRecord(file: seq<byte>, loc: Location, k: Compression, payload: seq<byte>, side: Option<seq<byte>>)
    requires loc.offset >= 2 && loc.count == RecordSectors(payload)
    requires HoldsRecord(file, loc, Record(k, payload))
    requires Oversized(payload) ==> side == Some(payload)
    ensures Fits(file, loc)
    ensures ReadRecord(file, loc, side) == Ok((k.Number(), payload))
  {
    var at, record := loc.offset * SECTOR_SIZE, Record(k, payload);
    assert file[at..at + 4] == record[..4];
    assert file[at + 4] == record[4];
    if !Oversized(payload) {
      assert record[..4] == Be32(|payload| + 1);
      assert file[at + 5..at + 5 + |payload|] == record[5..] == payload;
    } else {
      assert record[..4] == Be32(1);
    }
  }
}
