/** What holds of every region: live ranges are disjoint and match the bitmap, records fit, and first fit
    never reaches far. */
module RegionLaws {
  import opened Bytes
  import opened Sectors
  import opened RegionModel

  // ---- Invariants ----

  ghost predicate Allocated(locations: Locations, s: nat) {
    exists i :: 0 <= i < ENTRIES && locations[i].Holds(s)
  }

  /** Live ranges lie past the header, are not empty and do not overlap; a sector is used exactly
      when it is a header sector or belongs to a live range. This one speaks of memory only. */
  ghost predicate AllocationInv(r: RegionState) {
    && (forall i :: 0 <= i < ENTRIES && !r.locations[i].IsNone() ==>
          r.locations[i].offset >= 2 && r.locations[i].count >= 1)
    && (forall i, j :: 0 <= i < j < ENTRIES && !r.locations[i].IsNone() && !r.locations[j].IsNone() ==>
          r.locations[i].Before(r.locations[j]) || r.locations[j].Before(r.locations[i]))
    && (forall s: nat :: !FreeAt(r.used, s) <==> s < 2 || Allocated(r.locations, s))
  }

  /** The record lies inside its sectors, and these inside the file. */
  ghost predicate Fits(file: seq<byte>, loc: Location) {
    && (loc.offset as int + loc.count) * SECTOR_SIZE <= |file|
    && loc.count >= 1
    && FromBe32(file[loc.offset * SECTOR_SIZE..loc.offset * SECTOR_SIZE + 4]) + 4 <= loc.count * SECTOR_SIZE
  }

  ghost predicate RecordsInv(r: RegionState) {
    && |r.file| >= 2 * SECTOR_SIZE
    && (forall i :: 0 <= i < ENTRIES && !r.locations[i].IsNone() ==> Fits(r.file, r.locations[i]))
  }

  /** The header on disk says what the tables in memory say. */
  ghost predicate Synced(r: RegionState) {
    && |r.file| >= 2 * SECTOR_SIZE
    && (forall i :: 0 <= i < ENTRIES ==> LocationAt(r.file, i) == r.locations[i])
    && (forall i :: 0 <= i < ENTRIES ==> TimestampAt(r.file, i) == r.timestamps[i])
  }

  ghost predicate Inv(r: RegionState) {
    AllocationInv(r) && RecordsInv(r)
  }

  // ---- How far first fit can reach ----

  /** The starts that a live range can force a search for at most 255 sectors to pass over: its own
      sectors, and the 254 before it, where a gap may be too short. */
  predicate InShadow(loc: Location, x: int) {
    loc.offset - 254 <= x < loc.offset as int + loc.count
  }

  ghost predicate Shadowed(locations: Locations, vacant: nat, n: nat, x: int)
    requires n <= ENTRIES
  {
    exists i :: 0 <= i < n && i != vacant && InShadow(locations[i], x)
  }

  function Interval(lo: int, hi: int): (r: set<int>)
    requires lo <= hi
    ensures |r| == hi - lo
    ensures forall x :: x in r <==> lo <= x < hi
    decreases hi - lo
  {
    if lo == hi then {} else Interval(lo, hi - 1) + {hi - 1}
  }

  lemma SubsetSize(a: set<int>, b: set<int>)
    requires a <= b
    ensures |a| <= |b|
  {
    assert b == a + (b - a);
  }

  /** A set of shadowed starts has at most 509 members for every range that casts a shadow. */
  lemma {:induction false} ShadowedSize(locations: Locations, vacant: nat, n: nat, starts: set<int>)
    requires n <= ENTRIES
    requires forall x :: x in starts ==> Shadowed(locations, vacant, n, x)
    ensures |starts| <= 509 * if vacant < n then n - 1 else n
  {
    if n == 0 {
      assert starts == {};
    } else if n - 1 == vacant {
      ShadowedSize(locations, vacant, n - 1, starts);
    } else {
      var loc := locations[n - 1];
      var last := set x | x in starts && InShadow(loc, x);
      SubsetSize(last, Interval(loc.offset - 254, loc.offset as int + loc.count));
      ShadowedSize(locations, vacant, n - 1, starts - last);
      SplitSize(starts, last);
    }
  }

  lemma SplitSize(a: set<int>, b: set<int>)
    requires b <= a
    ensures |a| == |b| + |a - b|
  {
    assert a == b + (a - b);
  }

  /** If a short search passes over a start, some live range at most 254 sectors ahead is why. */
  lemma PassedOver(r: RegionState, vacant: nat, n: nat, t: nat)
    requires AllocationInv(r)
    requires vacant < ENTRIES && r.locations[vacant].IsNone()
    requires 1 <= n <= 255
    requires 2 <= t < FirstFit(r.used, n)
    ensures Shadowed(r.locations, vacant, ENTRIES, t)
  {
    FirstFitMeans(r.used, n);
    assert !FreeRun(r.used, t, n);
    var s: nat :| t <= s < t + n && !FreeAt(r.used, s);
    var i :| 0 <= i < ENTRIES && r.locations[i].Holds(s);
    assert InShadow(r.locations[i], t);
  }

  /** Whatever was deleted before, the free gaps that first fit leaves behind are bounded by the
      number of live chunks: with one entry vacant, every start is at most 520709. */
  lemma StartBound(r: RegionState, vacant: nat, n: nat)
    requires AllocationInv(r)
    requires vacant < ENTRIES && r.locations[vacant].IsNone()
    requires 1 <= n <= 255
    ensures 2 <= FirstFit(r.used, n) <= 2 + 1023 * (255 + 254)
  {
    var start := FirstFit(r.used, n);
    FirstFitMeans(r.used, n);
    assert FreeAt(r.used, start);
    forall t | t in Interval(2, start)
      ensures Shadowed(r.locations, vacant, ENTRIES, t)
    {
      PassedOver(r, vacant, n, t);
    }
    ShadowedSize(r.locations, vacant, ENTRIES, Interval(2, start));
  }

  // ---- The allocator invariant ----

  lemma ForgetFrees(r: RegionState, i: nat, s: nat)
    requires i < ENTRIES
    requires AllocationInv(r)
    ensures !FreeAt(Forget(r, i).used, s) <==> s < 2 || Allocated(Forget(r, i).locations, s)
  {
    var loc, after := r.locations[i], Forget(r, i);
    if !loc.IsNone() {
      ClearedMeans(r.used, loc.offset, loc.offset as int + loc.count);
      if Allocated(after.locations, s) {
        var j :| 0 <= j < ENTRIES && after.locations[j].Holds(s);
        assert r.locations[j].Holds(s) && j != i;
      }
      if Allocated(r.locations, s) && !loc.Holds(s) {
        var j :| 0 <= j < ENTRIES && r.locations[j].Holds(s);
        assert after.locations[j].Holds(s);
      }
    }
  }

  lemma ForgetKeeps(r: RegionState, i: nat)
    requires i < ENTRIES
    requires AllocationInv(r)
    ensures AllocationInv(Forget(r, i))
    ensures Forget(r, i).locations == r.locations[i := NO_LOCATION]
  {
    var after := Forget(r, i);
    forall s: nat
      ensures !FreeAt(after.used, s) <==> s < 2 || Allocated(after.locations, s)
    {
      ForgetFrees(r, i, s);
    }
  }

  /** Entering a gap of `n` sectors at a vacant index keeps the invariant, and the packed entry
      loses no bits. */
  lemma EnterKeeps(r: RegionState, i: nat, n: nat)
    requires AllocationInv(r)
    requires i < ENTRIES && r.locations[i].IsNone()
    requires 1 <= n <= 255
    ensures FirstFit(r.used, n) < 0x100_0000
    ensures var start := FirstFit(r.used, n);
      AllocationInv(r.(locations := r.locations[i := Location(n, start)], used := Reserved(r.used, start, n)))
  {
    StartBound(r, i, n);
    FirstFitMeans(r.used, n);
    ReservedMeans(r.used, FirstFit(r.used, n), n);
    var start := FirstFit(r.used, n);
    var loc := Location(n, start);
    var after := r.(locations := r.locations[i := loc], used := Reserved(r.used, start, n));
    forall s: nat
      ensures !FreeAt(after.used, s) <==> s < 2 || Allocated(after.locations, s)
    {
      if Allocated(r.locations, s) {
        var j :| 0 <= j < ENTRIES && r.locations[j].Holds(s);
        assert after.locations[j].Holds(s);
      }
      if Allocated(after.locations, s) {
        var j :| 0 <= j < ENTRIES && after.locations[j].Holds(s);
        assert j != i ==> r.locations[j].Holds(s);
      }
      assert loc.Holds(s) ==> after.locations[i].Holds(s);
    }
    forall j | 0 <= j < ENTRIES && j != i && !r.locations[j].IsNone()
      ensures loc.Before(r.locations[j]) || r.locations[j].Before(loc)
    {
      GapDisjoint(r, j, start, n);
    }
  }

  lemma GapDisjoint(r: RegionState, j: nat, start: nat, n: nat)
    requires AllocationInv(r)
    requires j < ENTRIES && !r.locations[j].IsNone()
    requires n >= 1 && FreeRun(r.used, start, n)
    ensures start + n <= r.locations[j].offset || r.locations[j].offset as int + r.locations[j].count <= start
  {
    var other := r.locations[j];
    var s: nat := if start <= other.offset then other.offset else start;
    if other.Holds(s) && start <= s < start + n {
      assert FreeAt(r.used, s) && Allocated(r.locations, s);
    }
  }
}
