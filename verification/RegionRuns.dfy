/** The allocator over every run of sets and deletes on one region, refused sets included. */
module RegionRuns {
  import opened Bytes
  import opened Sectors
  import opened RegionModel
  import opened RegionLaws
  import opened RegionStore
  import opened RegionReopen

  datatype Change =
    | Put(options: WriteOptions, pos: ChunkPos, chunk: Compound, now: u32)
    | Remove(pos: ChunkPos)

  function Apply(r: RegionState, codec: Codec, change: Change): RegionState {
    match change
    case Put(options, pos, chunk, now) => Set(r, codec, options, pos, chunk, now).1
    case Remove(pos) => Delete(r, pos).1
  }

  function Replay(r: RegionState, codec: Codec, changes: seq<Change>): RegionState
    decreases |changes|
  {
    if changes == [] then r else Replay(Apply(r, codec, changes[0]), codec, changes[1..])
  }

  lemma {:induction false} ReplayKeepsInv(r: RegionState, codec: Codec, changes: seq<Change>)
    requires Inv(r)
    ensures Inv(Replay(r, codec, changes))
    decreases |changes|
  {
    if changes != [] {
      match changes[0] {
        case Put(options, pos, chunk, now) => SetKeepsInv(r, codec, options, pos, chunk, now);
        case Remove(pos) => DeleteKeepsInv(r, pos);
      }
      ReplayKeepsInv(Apply(r, codec, changes[0]), codec, changes[1..]);
    }
  }

  /** From a new region file, after any changes: live ranges are disjoint and past the header, the
      bitmap is exactly their union with the header, and the next set that goes through lands at a
      start of at most 520709, so its packed entry keeps every bit of start and count. */
  lemma EveryRun(file: seq<byte>, side: SideFiles, codec: Codec, changes: seq<Change>,
                 options: WriteOptions, pos: ChunkPos, chunk: Compound, now: u32)
    requires Prepare(codec, options, chunk).Ok?
    ensures var r := Replay(Create(file, side), codec, changes);
      var start := FirstFit(Forget(r, ChunkIdx(pos)).used, RecordSectors(Prepare(codec, options, chunk).value));
      && Inv(r)
      && start <= 520709 < 0x100_0000
      && Set(r, codec, options, pos, chunk, now).1.locations[ChunkIdx(pos)] ==
         Location(RecordSectors(Prepare(codec, options, chunk).value), start)
  {
    CreateOk(file, side);
    ReplayKeepsInv(Create(file, side), codec, changes);
    var r := Replay(Create(file, side), codec, changes);
    ForgetKeeps(r, ChunkIdx(pos));
    StartBound(Forget(r, ChunkIdx(pos)), ChunkIdx(pos), RecordSectors(Prepare(codec, options, chunk).value));
  }
}
