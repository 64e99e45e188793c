/** The sector bitmap of a region file: reserving, clearing and first-fit search.

    The bitmap is growable; a sector past its end counts as free. */
module Sectors {

  predicate FreeAt(used: seq<bool>, i: nat) {
    i < |used| ==> !used[i]
  }

  predicate FreeRun(used: seq<bool>, start: nat, n: nat) {
    forall i :: start <= i < start + n ==> FreeAt(used, i)
  }

  /** `s` is the least start of `n` consecutive free sectors. */
  predicate IsFirstFit(used: seq<bool>, n: nat, s: nat) {
    && FreeRun(used, s, n)
    && forall t: nat :: t < s ==> !FreeRun(used, t, n)
  }

  /** The least start of `n` consecutive free sectors, found by trying every start in turn. */
  function FirstFit(used: seq<bool>, n: nat): nat {
    FirstFitFrom(used, n, 0)
  }

  function FirstFitFrom(used: seq<bool>, n: nat, from: nat): nat
    decreases |used| - from
  {
    if from >= |used| || FreeRun(used, from, n) then from else FirstFitFrom(used, n, from + 1)
  }

  lemma {:induction false} FirstFitFromMeans(used: seq<bool>, n: nat, from: nat)
    requires from <= |used|
    requires forall t: nat :: t < from ==> !FreeRun(used, t, n)
    ensures FirstFitFrom(used, n, from) <= |used|
    ensures IsFirstFit(used, n, FirstFitFrom(used, n, from))
    decreases |used| - from
  {
    if from < |used| && !FreeRun(used, from, n) {
      FirstFitFromMeans(used, n, from + 1);
    }
  }

  lemma FirstFitMeans(used: seq<bool>, n: nat)
    ensures FirstFit(used, n) <= |used|
    ensures IsFirstFit(used, n, FirstFit(used, n))
  {
    FirstFitFromMeans(used, n, 0);
  }

  /** The bitmap after reserving `[start, start + count)`. */
  function Reserved(used: seq<bool>, start: nat, count: nat): seq<bool> {
    var len := if |used| < start + count then start + count else |used|;
    seq(len, i requires 0 <= i => start <= i < start + count || (i < |used| && used[i]))
  }

  lemma ReservedMeans(used: seq<bool>, start: nat, count: nat)
    ensures forall i: nat :: FreeAt(Reserved(used, start, count), i) <==>
                             FreeAt(used, i) && !(start <= i < start + count)
  {
  }

  /** The bitmap after freeing `[start, end)`. */
  function Cleared(used: seq<bool>, start: nat, end: nat): seq<bool> {
    seq(|used|, i requires 0 <= i < |used| => used[i] && !(start <= i < end))
  }

  lemma ClearedMeans(used: seq<bool>, start: nat, end: nat)
    ensures forall i: nat :: FreeAt(Cleared(used, start, end), i) <==> FreeAt(used, i) || start <= i < end
  {
  }

  // ---- Bitmaps that differ only in trailing free bits ----

  ghost predicate SameUse(a: seq<bool>, b: seq<bool>) {
    forall i: nat :: FreeAt(a, i) <==> FreeAt(b, i)
  }

  /** First fit does not look at trailing free bits. */
  lemma FirstFitIgnoresTrailing(a: seq<bool>, b: seq<bool>, n: nat)
    requires SameUse(a, b)
    ensures FirstFit(a, n) == FirstFit(b, n)
  {
    forall t: nat
      ensures FreeRun(a, t, n) <==> FreeRun(b, t, n)
    {
      assert forall i :: t <= i < t + n ==> (FreeAt(a, i) <==> FreeAt(b, i));
    }
    FirstFitMeans(a, n);
    FirstFitMeans(b, n);
    var s, t := FirstFit(a, n), FirstFit(b, n);
    assert FreeRun(b, s, n) && FreeRun(a, t, n);
  }

  // ---- The search and the update as the program performs them ----

  /** Position of the first `value` at or after `from`, or `|bits|` when there is none. */
  method FirstBit(bits: seq<bool>, from: nat, value: bool) returns (i: nat)
    requires from <= |bits|
    ensures from <= i <= |bits|
    ensures forall k :: from <= k < i ==> bits[k] != value
    ensures i < |bits| ==> bits[i] == value
  {
    i := from;
    while i < |bits| && bits[i] != value
      invariant from <= i <= |bits|
      invariant forall k :: from <= k < i ==> bits[k] != value
    {
      i := i + 1;
    }
  }

  function Resized(bits: seq<bool>, n: nat, value: bool): seq<bool> {
    if n <= |bits| then bits[..n] else bits + seq(n - |bits|, _ => value)
  }

  /** Resize truncates before it extends, so it is not obvious that no used bit is lost: the
      truncated bits all lie inside the range that the second resize sets. */
  method ReserveSectors(used: seq<bool>, sectorOffset: nat, sectorCount: nat) returns (r: seq<bool>)
    ensures r == Reserved(used, sectorOffset, sectorCount)
  {
    var start, end := sectorOffset, sectorOffset + sectorCount;
    if |used| < end {
      r := Resized(used, start, false);
      r := Resized(r, end, true);
    } else {
      r := used[..start] + seq(sectorCount, _ => true) + used[end..];
    }
  }

  /** The search loop: skip from gap to gap until one is long enough. */
  method FindFreeSectors(used: seq<bool>, numSectors: nat) returns (freeSpaceStart: nat)
    requires numSectors > 0
    ensures freeSpaceStart == FirstFit(used, numSectors)
  {
    var index := 0;
    while true
      invariant index <= |used|
      invariant forall t: nat :: t < index ==> !FreeRun(used, t, numSectors)
      decreases |used| - index
    {
      freeSpaceStart := FirstBit(used, index, false);
      forall t: nat | index <= t < freeSpaceStart
        ensures !FreeRun(used, t, numSectors)
      {
        assert !FreeAt(used, t);
      }
      if freeSpaceStart == |used| {
        break;
      }
      var freeSpaceEnd := FirstBit(used, freeSpaceStart, true);
      if freeSpaceEnd == |used| || freeSpaceEnd - freeSpaceStart >= numSectors {
        break;
      }
      forall t: nat | freeSpaceStart <= t < freeSpaceEnd
        ensures !FreeRun(used, t, numSectors)
      {
        assert !FreeAt(used, freeSpaceEnd);
      }
      index := freeSpaceEnd;
    }
    assert IsFirstFit(used, numSectors, freeSpaceStart);
    FirstFitMeans(used, numSectors);
  }
}
