/** What refused sets leave behind. A set that is refused at a stored position drops the entry from
    memory while the header on disk keeps it; the entry is stale. This follows stale entries through
    every run, and says what reopening the file then finds. */
module RegionStale {
  import opened Bytes
  import opened Sectors
  import opened RegionModel
  import opened RegionLaws
  import opened RegionStore
  import opened RegionReopen
  import opened RegionRuns

  // ---- Header and memory over every run ----

  ghost predicate Stale(r: RegionState, i: nat)
    requires i < ENTRIES && |r.file| >= 2 * SECTOR_SIZE
  {
    LocationAt(r.file, i) != r.locations[i]
  }

  /** The header is ahead of memory in stale entries only: memory has dropped these. */
  ghost predicate HeaderInv(r: RegionState) {
    && Inv(r)
    && (forall i :: 0 <= i < ENTRIES ==> TimestampAt(r.file, i) == r.timestamps[i])
    && (forall i :: 0 <= i < ENTRIES && Stale(r, i) ==>
          r.locations[i].IsNone() && Plausible(LocationAt(r.file, i), |r.file|))
  }

  lemma SyncedIff(r: RegionState)
    requires HeaderInv(r)
    ensures Synced(r) <==> forall i :: 0 <= i < ENTRIES ==> !Stale(r, i)
  {
    assert forall i :: 0 <= i < ENTRIES ==> (Stale(r, i) <==> LocationAt(r.file, i) != r.locations[i]);
  }

  /** What one change does to the staleness of an entry. */
  predicate StaleAfter(stale: bool, r: RegionState, codec: Codec, change: Change, i: nat)
    requires i < ENTRIES
  {
    match change
    case Put(options, pos, chunk, _) =>
      if ChunkIdx(pos) != i then stale else Prepare(codec, options, chunk).Err? && (stale || Present(r, pos))
    case Remove(_) => stale
  }

  lemma SetStale(r: RegionState, codec: Codec, options: WriteOptions, pos: ChunkPos, chunk: Compound, now: u32, i: nat)
    requires HeaderInv(r) && i < ENTRIES
    ensures var after := Set(r, codec, options, pos, chunk, now).1;
      && |after.file| >= 2 * SECTOR_SIZE
      && TimestampAt(after.file, i) == after.timestamps[i]
      && (Stale(after, i) <==> StaleAfter(Stale(r, i), r, codec, Put(options, pos, chunk, now), i))
      && (Stale(after, i) ==>
            after.locations[i].IsNone() && Plausible(LocationAt(after.file, i), |after.file|))
  {
    if Prepare(codec, options, chunk).Ok? {
      StoredStale(r, codec, options, pos, chunk, now, i);
    } else {
      ForgottenStale(r, Forget(r, ChunkIdx(pos)), ChunkIdx(pos), i);
    }
  }

  lemma StoredStale(r: RegionState, codec: Codec, options: WriteOptions, pos: ChunkPos, chunk: Compound, now: u32,
                    i: nat)
    requires HeaderInv(r) && i < ENTRIES && Prepare(codec, options, chunk).Ok?
    ensures var after := Set(r, codec, options, pos, chunk, now).1;
      && |r.file| <= |after.file|
      && TimestampAt(after.file, i) == after.timestamps[i]
      && (if i == ChunkIdx(pos) then LocationAt(after.file, i) == after.locations[i]
          else LocationAt(after.file, i) == LocationAt(r.file, i) && after.locations[i] == r.locations[i])
  {
    SetOk(r, codec, options, pos, chunk, now);
  }

  lemma ForgottenStale(r: RegionState, after: RegionState, p: nat, i: nat)
    requires HeaderInv(r) && i < ENTRIES && p < ENTRIES && after == Forget(r, p)
    ensures after.file == r.file && after.timestamps == r.timestamps
    ensures Stale(after, i) <==> Stale(r, i) || (i == p && !r.locations[i].IsNone())
    ensures Stale(after, i) ==> after.locations[i].IsNone() && Plausible(LocationAt(r.file, i), |r.file|)
  {
    ForgetKeeps(r, p);
    if !r.locations[i].IsNone() {
      assert Fits(r.file, r.locations[i]);
    }
  }

  lemma DeleteStale(r: RegionState, codec: Codec, pos: ChunkPos, i: nat)
    requires HeaderInv(r) && i < ENTRIES
    ensures var after := Delete(r, pos).1;
      && |after.file| >= 2 * SECTOR_SIZE
      && TimestampAt(after.file, i) == after.timestamps[i]
      && (Stale(after, i) <==> StaleAfter(Stale(r, i), r, codec, Remove(pos), i))
      && (Stale(after, i) ==>
            after.locations[i].IsNone() && Plausible(LocationAt(after.file, i), |after.file|))
  {
    if Present(r, pos) {
      DeletedHeader(r.file, ChunkIdx(pos), i);
      DeletedTimestamps(r.file, ChunkIdx(pos), i);
    }
  }

  lemma ChangeStale(r: RegionState, codec: Codec, change: Change, i: nat)
    requires HeaderInv(r) && i < ENTRIES
    ensures var after := Apply(r, codec, change);
      HeaderInv(after) && (Stale(after, i) <==> StaleAfter(Stale(r, i), r, codec, change, i))
  {
    match change {
      case Put(options, pos, chunk, now) =>
        SetKeepsInv(r, codec, options, pos, chunk, now);
        forall j | 0 <= j < ENTRIES {
          SetStale(r, codec, options, pos, chunk, now, j);
        }
      case Remove(pos) =>
        DeleteKeepsInv(r, pos);
        forall j | 0 <= j < ENTRIES {
          DeleteStale(r, codec, pos, j);
        }
    }
  }

  /** Whether an entry is left stale by a run: the last set aimed at it that had anything to drop was
      refused, and no set of it has gone through since. */
  predicate LeftStale(stale: bool, r: RegionState, codec: Codec, changes: seq<Change>, i: nat)
    requires i < ENTRIES
    decreases |changes|
  {
    if changes == [] then stale
    else LeftStale(StaleAfter(stale, r, codec, changes[0], i), Apply(r, codec, changes[0]), codec, changes[1..], i)
  }

  lemma {:induction false} StaleIff(r: RegionState, codec: Codec, changes: seq<Change>, i: nat)
    requires HeaderInv(r) && i < ENTRIES
    ensures HeaderInv(Replay(r, codec, changes))
    ensures Stale(Replay(r, codec, changes), i) <==> LeftStale(Stale(r, i), r, codec, changes, i)
    decreases |changes|
  {
    if changes != [] {
      ChangeStale(r, codec, changes[0], i);
      StaleIff(Apply(r, codec, changes[0]), codec, changes[1..], i);
    }
  }

  /** The entries that a run starting in step leaves stale. */
  function LeftEntries(r: RegionState, codec: Codec, changes: seq<Change>): set<int> {
    set i | 0 <= i < ENTRIES && LeftStale(false, r, codec, changes, i)
  }

  lemma LeftIsStale(r: RegionState, last: RegionState, codec: Codec, changes: seq<Change>, i: nat)
    requires HeaderInv(r) && i < ENTRIES && !Stale(r, i)
    requires last == Replay(r, codec, changes)
    ensures HeaderInv(last) && (Stale(last, i) <==> i in LeftEntries(r, codec, changes))
  {
    StaleIff(r, codec, changes, i);
  }

  lemma SyncedBut(r: RegionState, left: set<int>)
    requires HeaderInv(r) && forall i :: i in left ==> 0 <= i < ENTRIES
    requires forall i :: 0 <= i < ENTRIES ==> (Stale(r, i) <==> i in left)
    ensures Synced(r) <==> left == {}
  {
    SyncedIff(r);
    if Synced(r) {
      assert forall i :: i !in left;
    }
  }

  lemma SyncedAfter(r: RegionState, last: RegionState, codec: Codec, changes: seq<Change>, left: set<int>)
    requires Inv(r) && Synced(r)
    requires last == Replay(r, codec, changes) && left == LeftEntries(r, codec, changes)
    ensures HeaderInv(last) && (Synced(last) <==> left == {})
  {
    SyncedIff(r);
    LeftIsStale(r, last, codec, changes, 0);
    forall i | 0 <= i < ENTRIES
      ensures Stale(last, i) <==> i in left
    {
      LeftIsStale(r, last, codec, changes, i);
    }
    SyncedBut(last, left);
  }

  /** After any run from a new region, header and memory agree if and only if every set that was refused
      at a stored position was later made good there. */
  lemma SyncedAfterRunIff(file: seq<byte>, side: SideFiles, codec: Codec, changes: seq<Change>)
    ensures HeaderInv(Replay(Create(file, side), codec, changes))
    ensures Synced(Replay(Create(file, side), codec, changes)) <==>
            LeftEntries(Create(file, side), codec, changes) == {}
  {
    var start := Create(file, side);
    CreateOk(file, side);
    SyncedAfter(start, Replay(start, codec, changes), codec, changes, LeftEntries(start, codec, changes));
  }

  // ---- What reopening finds ----

  ghost predicate Apart(a: Location, b: Location) {
    a.Before(b) || b.Before(a)
  }

  /** No two entries of the header on disk claim the same sector. */
  ghost predicate HeaderDisjoint(file: seq<byte>)
    requires |file| >= 2 * SECTOR_SIZE
  {
    forall i, j :: 0 <= i < j < ENTRIES && !LocationAt(file, i).IsNone() && !LocationAt(file, j).IsNone() ==>
      Apart(LocationAt(file, i), LocationAt(file, j))
  }

  lemma HeaderPlausible(r: RegionState, i: nat)
    requires HeaderInv(r) && i < ENTRIES && !LocationAt(r.file, i).IsNone()
    ensures Plausible(LocationAt(r.file, i), |r.file|)
  {
    if !Stale(r, i) {
      assert Fits(r.file, r.locations[i]);
    }
  }

  /** The reopened region is sound if and only if no stale entry claims sectors of another entry. */
  lemma ReopenSoundIff(r: RegionState)
    requires HeaderInv(r)
    ensures Open(r.file, r.side).Ok?
    ensures AllocationInv(Open(r.file, r.side).value) <==> HeaderDisjoint(r.file)
  {
    var o := Open(r.file, r.side).value;
    forall i | 0 <= i < ENTRIES && !o.locations[i].IsNone()
      ensures Plausible(o.locations[i], |r.file|)
    {
      HeaderPlausible(r, i);
    }
    forall s: nat
      ensures !FreeAt(o.used, s) <==> s < 2 || Allocated(o.locations, s)
    {
      OpenedUsedMeans(o.locations, |r.file|, ENTRIES, s);
    }
    if AllocationInv(o) {
      assert forall i :: 0 <= i < ENTRIES ==> o.locations[i] == LocationAt(r.file, i);
    }
  }

  /** A set that goes through keeps the header's entries apart if and only if it does not reuse sectors
      that a stale entry still claims. */
  lemma SetKeepsApartIff(r: RegionState, codec: Codec, options: WriteOptions, pos: ChunkPos, chunk: Compound, now: u32)
    requires HeaderInv(r) && HeaderDisjoint(r.file)
    requires Prepare(codec, options, chunk).Ok?
    ensures var after := Set(r, codec, options, pos, chunk, now).1;
      && |after.file| >= 2 * SECTOR_SIZE
      && (HeaderDisjoint(after.file) <==>
            forall i :: 0 <= i < ENTRIES && i != ChunkIdx(pos) && Stale(r, i) ==>
              Apart(LocationAt(r.file, i), after.locations[ChunkIdx(pos)]))
  {
    var after := Set(r, codec, options, pos, chunk, now).1;
    SetOk(r, codec, options, pos, chunk, now);
    EffectKeepsApart(r, after, options.compression, Prepare(codec, options, chunk).value, pos, now);
  }

  lemma EffectKeepsApart(r: RegionState, after: RegionState, k: Compression, payload: seq<byte>, pos: ChunkPos,
                         now: u32)
    requires HeaderInv(r) && HeaderDisjoint(r.file)
    requires SetEffect(r, after, k, payload, pos, now)
    ensures |after.file| >= 2 * SECTOR_SIZE
    ensures HeaderDisjoint(after.file) <==>
              forall i :: 0 <= i < ENTRIES && i != ChunkIdx(pos) && Stale(r, i) ==>
                Apart(LocationAt(r.file, i), after.locations[ChunkIdx(pos)])
  {
    var p := ChunkIdx(pos);
    forall i | 0 <= i < ENTRIES && i != p && !r.locations[i].IsNone()
      ensures Apart(r.locations[i], after.locations[p])
    {
      assert after.locations[i] == r.locations[i];
    }
    KeepsApartIn(r, after, p);
  }

  lemma KeepsApartIn(r: RegionState, after: RegionState, p: nat)
    requires HeaderInv(r) && HeaderDisjoint(r.file)
    requires p < ENTRIES && |after.file| >= 2 * SECTOR_SIZE
    requires !after.locations[p].IsNone() && LocationAt(after.file, p) == after.locations[p]
    requires forall i :: 0 <= i < ENTRIES && i != p ==> LocationAt(after.file, i) == LocationAt(r.file, i)
    requires forall i :: 0 <= i < ENTRIES && i != p && !r.locations[i].IsNone() ==>
               Apart(r.locations[i], after.locations[p])
    ensures HeaderDisjoint(after.file) <==>
              forall i :: 0 <= i < ENTRIES && i != p && Stale(r, i) ==>
                Apart(LocationAt(r.file, i), after.locations[p])
  {
    var loc := after.locations[p];
    forall i | 0 <= i < ENTRIES && i != p && !Stale(r, i) && !r.locations[i].IsNone()
      ensures Apart(LocationAt(r.file, i), loc)
    {
    }
    if HeaderDisjoint(after.file) {
      forall i | 0 <= i < ENTRIES && i != p && Stale(r, i)
        ensures Apart(LocationAt(r.file, i), loc)
      {
        HeaderPlausible(r, i);
        assert LocationAt(after.file, p) == loc && !loc.IsNone();
      }
    }
  }
}
