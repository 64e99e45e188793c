/** The vector form of the encoder: groups are spread into sixteen lanes at once, and the number of
    bytes is read off a mask of the lanes that are not zero. */
module VarLongVector {
  import opened Leb128
  import opened Words

  const LANES := 16
  const HALF := LANES / 2

  // ---- Instructions ----

  predicate Odd(x: bv64) {
    x & 1 == 1
  }

  /** `high` moved up by one bit, with the lowest bit of `x` below it if `marked`. */
  function Deposit(marked: bool, x: bv64, high: bv64): bv64 {
    if marked then (x & 1) | (high << 1) else high << 1
  }

  /** Parallel bit deposit: the low bits of `x`, in order, at the positions set in `mask`. */
  function Pdep(x: bv64, mask: bv64): bv64
    decreases mask, x
  {
    if mask == 0 then 0
    else Deposit(Odd(mask), x, Pdep(if Odd(mask) then Halve(x) else x, Halve(mask)))
  }

  /** Signed comparison of two bytes. */
  predicate SignedLess(a: bv8, b: bv8) {
    a ^ 0x80 < b ^ 0x80
  }

  function Lane(holds: bool): bv8 {
    if holds then 0xFF else 0
  }

  /** Bit `k` is the highest bit of lane `k`. */
  function MoveMask(lanes: seq<bv8>): bv64 {
    if lanes == [] then 0
    else Deposit(true, if lanes[0] & 0x80 != 0 then 1 else 0, MoveMask(lanes[1..]))
  }

  // ---- The encoder ----

  const MINIMUM: seq<bv8> := [0xFF] + seq(LANES - 1, k => 0)

  /** One 64-bit half, its bytes in memory order. */
  function HalfVector(x: bv64, mask: bv64): (lanes: seq<bv8>)
    ensures |lanes| == HALF
  {
    LeBytes(Pdep(x, mask), HALF)
  }

  /** What lies above the first eight groups. */
  function AboveEight(x: bv64): bv64 {
    x >> 56
  }

  function Spread(x: bv64): (lanes: seq<bv8>)
    ensures |lanes| == LANES
  {
    LowHalf(x) + HighHalf(x)
  }

  function LowHalf(x: bv64): (lanes: seq<bv8>)
    ensures |lanes| == HALF
  {
    HalfVector(x, 0x7F7F_7F7F_7F7F_7F7F)
  }

  function HighHalf(x: bv64): (lanes: seq<bv8>)
    ensures |lanes| == HALF
  {
    HalfVector(AboveEight(x), 0x17F)
  }

  /** Lanes that hold something, and always the first. */
  function Exists(lanes: seq<bv8>): (exist: seq<bv8>)
    requires |lanes| == LANES
    ensures |exist| == LANES
  {
    seq(LANES, k requires 0 <= k < LANES => Lane(SignedLess(0, lanes[k])) | MINIMUM[k])
  }

  /** All lanes before lane `needed - 1` get their highest bit: the lanes numbered below `needed`,
      shifted down by one lane. */
  function Marks(needed: nat): (marks: seq<bv8>)
    ensures |marks| == LANES
  {
    var mask := seq(LANES, k => Lane(k < needed));
    var shift := mask[1..] + [0];
    seq(LANES, k requires 0 <= k < LANES => shift[k] & 0x80)
  }

  function Merge(lanes: seq<bv8>, marks: seq<bv8>): (bytes: seq<bv8>)
    requires |lanes| == |marks| == LANES
    ensures |bytes| == LANES
  {
    seq(LANES, k requires 0 <= k < LANES => lanes[k] | marks[k])
  }

  function VectorEncode(x: bv64): seq<bv8> {
    var stage1 := Spread(x);
    var bits := MoveMask(Exists(stage1));
    MaskLength(Exists(stage1));
    var leadingZeros := 32 - BitLength(bits);
    var needed := 32 - leadingZeros;
    Merge(stage1, Marks(needed))[..needed]
  }

  // ---- Spreading ----

  predicate Within(x: bv64, mask: bv64) {
    x & !mask == 0
  }

  lemma {:induction false} PdepWithin(x: bv64, mask: bv64)
    ensures Within(Pdep(x, mask), mask)
    decreases mask
  {
    if mask != 0 {
      var rest, above := if Odd(mask) then Halve(x) else x, Halve(mask);
      HalveLess(mask);
      PdepWithin(rest, above);
      DepositWithin(x, Pdep(rest, above), mask);
      PdepStep(x, mask);
    } else {
      ZeroWithin();
    }
  }

  lemma HalveLess(mask: bv64)
    requires mask != 0
    ensures Halve(mask) < mask
  {
  }

  lemma ZeroWithin()
    ensures Within(0, 0)
  {
  }

  lemma DepositWithin(x: bv64, high: bv64, mask: bv64)
    requires Within(high, Halve(mask))
    ensures Within(Deposit(Odd(mask), x, high), mask)
  {
  }

  lemma PdepStep(x: bv64, mask: bv64)
    ensures Pdep(x, mask) == Deposit(Odd(mask), x, Pdep(if Odd(mask) then Halve(x) else x, Halve(mask)))
  {
  }

  predicate OddRun(mask: bv64, k: nat) {
    k == 0 || (Odd(mask) && OddRun(Halve(mask), k - 1))
  }

  /** The lowest `k` bits of `x` below `high`. */
  function DepositRun(x: bv64, k: nat, high: bv64): bv64 {
    if k == 0 then high else Deposit(true, x, DepositRun(Halve(x), k - 1, high))
  }

  lemma {:induction false} PdepRun(x: bv64, mask: bv64, k: nat)
    requires OddRun(mask, k)
    ensures Pdep(x, mask) == DepositRun(x, k, Pdep(Halved(x, k), Halved(mask, k)))
    decreases k
  {
    if k > 0 {
      PdepStep(x, mask);
      PdepRun(Halve(x), Halve(mask), k - 1);
    }
  }

  lemma RunOfSeven(x: bv64, high: bv64)
    ensures DepositRun(x, 7, Deposit(false, 0, high)) == JoinByte(Low(x), high)
  {
    var up := Deposit(false, 0, high);
    var x2 := Halve(Halve(x));
    var x4 := Halve(Halve(x2));
    var x6 := Halve(Halve(x4));
    var d6 := Deposit(true, x6, up);
    var d4 := Deposit(true, x4, Deposit(true, Halve(x4), d6));
    var d2 := Deposit(true, x2, Deposit(true, Halve(x2), d4));
    assert DepositRun(x6, 1, up) == d6;
    assert DepositRun(x4, 3, up) == d4;
    assert DepositRun(x2, 5, up) == d2;
    SevenDeposits(x, high);
  }

  lemma SevenDeposits(x: bv64, high: bv64)
    ensures
      var x1 := Halve(x);
      var x2 := Halve(x1);
      var x3 := Halve(x2);
      var x4 := Halve(x3);
      var x5 := Halve(x4);
      var x6 := Halve(x5);
      Deposit(true, x, Deposit(true, x1, Deposit(true, x2, Deposit(true, x3, Deposit(true, x4,
        Deposit(true, x5, Deposit(true, x6, Deposit(false, 0, high)))))))) == JoinByte(Low(x), high)
  {
  }

  lemma TwoHalved(x: bv64, k: nat)
    ensures Halved(x, k + 2) == Halved(Halve(Halve(x)), k)
  {
    assert Halved(x, k + 2) == Halved(Halve(x), k + 1);
  }

  lemma TwoOdd(mask: bv64, k: nat)
    requires Odd(mask) && Odd(Halve(mask)) && OddRun(Halve(Halve(mask)), k)
    ensures OddRun(mask, k + 2)
  {
    assert OddRun(Halve(mask), k + 1);
  }

  lemma SevenOnes(mask: bv64)
    requires LowByte(mask) == 0x7F
    ensures OddRun(mask, 7)
    ensures !Odd(Halved(mask, 7)) && Halve(Halved(mask, 7)) == DropByte(mask)
  {
    var m2 := Halve(Halve(mask));
    var m4 := Halve(Halve(m2));
    var m6 := Halve(Halve(m4));
    TwoHalved(mask, 5);
    TwoHalved(m2, 3);
    TwoHalved(m4, 1);
    assert Halved(m6, 1) == Halved(Halve(m6), 0) == Halve(m6);
    SevenOdd(mask);
    assert OddRun(Halve(m6), 0);
    assert OddRun(m6, 1);
    TwoOdd(m4, 1);
    TwoOdd(m2, 3);
    TwoOdd(mask, 5);
  }

  lemma SevenOdd(mask: bv64)
    requires LowByte(mask) == 0x7F
    ensures
      var m1 := Halve(mask);
      var m2 := Halve(m1);
      var m3 := Halve(m2);
      var m4 := Halve(m3);
      var m5 := Halve(m4);
      var m6 := Halve(m5);
      && Odd(mask) && Odd(m1) && Odd(m2) && Odd(m3) && Odd(m4) && Odd(m5) && Odd(m6)
      && !Odd(Halve(m6)) && Halve(Halve(m6)) == DropByte(mask)
  {
  }

  /** A mask byte with seven ones takes one group. */
  lemma PdepByte(x: bv64, mask: bv64)
    requires LowByte(mask) == 0x7F
    ensures Pdep(x, mask) == JoinByte(Low(x), Pdep(Rest(x), DropByte(mask)))
  {
    SevenOnes(mask);
    PdepRun(x, mask, 7);
    SevenHalved(x);
    PdepStep(Rest(x), Halved(mask, 7));
    RunOfSeven(x, Pdep(Rest(x), DropByte(mask)));
  }

  /** `n` bytes of seven ones each. */
  predicate Sevens(mask: bv64, n: nat) {
    if n == 0 then mask == 0 else LowByte(mask) == 0x7F && Sevens(DropByte(mask), n - 1)
  }

  lemma BytesOfJoin(low: bv8, high: bv64, mask: bv64)
    requires Within(high, DropByte(mask))
    ensures LowByte(JoinByte(low, high)) == low
    ensures DropByte(JoinByte(low, high)) == high
  {
  }

  /** Each mask byte of seven ones lets one group through. */
  lemma {:induction false} SpreadGroup(x: bv64, mask: bv64, n: nat, k: nat)
    requires Sevens(mask, n) && k < n
    ensures LeBytes(Pdep(x, mask), n)[k] == Group(x, k)
    decreases n
  {
    var high := Pdep(Rest(x), DropByte(mask));
    PdepByte(x, mask);
    PdepWithin(Rest(x), DropByte(mask));
    BytesOfJoin(Low(x), high, mask);
    assert LeBytes(Pdep(x, mask), n) == [Low(x)] + LeBytes(high, n - 1);
    if k > 0 {
      SpreadGroup(Rest(x), DropByte(mask), n - 1, k - 1);
    }
  }

  lemma EightSevens()
    ensures Sevens(0x7F7F_7F7F_7F7F_7F7F, 8)
  {
    var m := DropByte(DropByte(DropByte(DropByte(0x7F7F_7F7F_7F7F_7F7F))));
    assert m == 0x7F7F_7F7F;
    assert Sevens(0x7F7F, 2);
    assert Sevens(DropByte(m), 3);
    assert Sevens(m, 4);
    assert Sevens(0x7F_7F7F_7F7F, 5);
    assert Sevens(0x7F7F_7F7F_7F7F, 6);
    assert Sevens(0x7F_7F7F_7F7F_7F7F, 7);
  }

  /** The top bit of `x`, alone in its byte. */
  lemma TopByte(z: bv64, k: nat)
    requires z <= 1 && k < HALF - 1
    ensures LeBytes(Pdep(z, 1), HALF - 1)[k] == Group(z, k)
  {
    assert Pdep(z, 1) == z by {
      PdepStep(z, 1);
      OneBit(z);
    }
    OneBit(z);
    if k > 0 {
      ZeroBytes(HALF - 2, k - 1);
      ZeroGroups(k - 1);
    }
  }

  lemma OneBit(z: bv64)
    requires z <= 1
    ensures Odd(1) && Halve(1) == 0 && Deposit(true, z, 0) == z
    ensures LowByte(z) == Low(z) && DropByte(z) == 0 && Rest(z) == 0
  {
  }

  lemma {:induction false} ZeroBytes(n: nat, k: nat)
    requires k < n
    ensures LeBytes(0, n)[k] == 0
  {
    if k > 0 {
      ZeroBytes(n - 1, k - 1);
    }
  }

  lemma TopGroups(y: bv64, mask: bv64, k: nat)
    requires LowByte(mask) == 0x7F && DropByte(mask) == 1
    requires Rest(y) <= 1
    requires k < HALF
    ensures HalfVector(y, mask)[k] == Group(y, k)
  {
    var high := Pdep(Rest(y), 1);
    PdepByte(y, mask);
    PdepWithin(Rest(y), 1);
    BytesOfJoin(Low(y), high, mask);
    assert HalfVector(y, mask) == [Low(y)] + LeBytes(high, HALF - 1);
    if k > 0 {
      TopByte(Rest(y), k - 1);
    }
  }

  lemma TopMask(x: bv64)
    ensures LowByte(0x17F) == 0x7F && DropByte(0x17F) == 1
    ensures Rest(AboveEight(x)) <= 1
  {
  }

  lemma EightRests(x: bv64)
    ensures Rest(Rest(Rest(Rest(Rest(Rest(Rest(Rest(x)))))))) == AboveEight(x)
  {
  }

  lemma GroupsAbove(x: bv64, k: nat)
    ensures Group(x, k + 8) == Group(AboveEight(x), k)
  {
    var x2 := Rest(Rest(x));
    var x4 := Rest(Rest(x2));
    var x6 := Rest(Rest(x4));
    assert Group(x, k + 8) == Group(x2, k + 6) == Group(x4, k + 4) == Group(x6, k + 2);
    EightRests(x);
    assert Group(x6, k + 2) == Group(Rest(Rest(x6)), k);
  }

  lemma LowGroups(x: bv64, k: nat)
    requires k < HALF
    ensures LowHalf(x)[k] == Group(x, k)
  {
    EightSevens();
    SpreadGroup(x, 0x7F7F_7F7F_7F7F_7F7F, HALF, k);
  }

  lemma HighGroups(x: bv64, k: nat)
    requires k < HALF
    ensures HighHalf(x)[k] == Group(x, k + HALF)
  {
    TopMask(x);
    TopGroups(AboveEight(x), 0x17F, k);
    GroupsAbove(x, k);
  }

  /** Every lane holds its group. */
  lemma SpreadMeans(x: bv64, k: nat)
    requires k < LANES
    ensures Spread(x)[k] == Group(x, k)
  {
    if k < HALF {
      LowGroups(x, k);
    } else {
      HighGroups(x, k - HALF);
    }
  }

  // ---- Counting lanes ----

  lemma SixRests(x: bv64, bit: bv64)
    requires Rest(Rest(Rest(Rest(Rest(Rest(x)))))) == 0
    ensures Halve(Deposit(true, bit, x)) == x
  {
  }

  /** A short word loses nothing when a bit is put below it. */
  lemma DepositBelow(x: bv64, bit: bv64)
    requires BitLength(x) <= 32
    ensures Halve(Deposit(true, bit, x)) == x
  {
    LengthOfRest(x);
    LengthOfRest(Rest(x));
    LengthOfRest(Rest(Rest(x)));
    LengthOfRest(Rest(Rest(Rest(x))));
    LengthOfRest(Rest(Rest(Rest(Rest(x)))));
    LengthOfRest(Rest(Rest(Rest(Rest(Rest(x))))));
    SixRests(x, bit);
  }

  lemma {:induction false} MaskLength(lanes: seq<bv8>)
    requires |lanes| <= 32
    ensures BitLength(MoveMask(lanes)) <= |lanes|
  {
    if lanes != [] {
      MaskLength(lanes[1..]);
      DepositBelow(MoveMask(lanes[1..]), if lanes[0] & 0x80 != 0 then 1 else 0);
    }
  }

  lemma {:induction false} NoLength(x: bv64)
    ensures BitLength(x) == 0 <==> x == 0
  {
  }

  lemma DepositZero(b: bool, high: bv64)
    requires Halve(Deposit(true, if b then 1 else 0, high)) == high
    ensures Deposit(true, if b then 1 else 0, high) == 0 <==> !b && high == 0
  {
  }

  /** The length of the mask names the last lane whose highest bit is set. */
  lemma {:induction false} LastLane(lanes: seq<bv8>, k: nat)
    requires k < |lanes| <= 32
    ensures k >= BitLength(MoveMask(lanes)) ==> lanes[k] & 0x80 == 0
    ensures k + 1 == BitLength(MoveMask(lanes)) ==> lanes[k] & 0x80 != 0
  {
    var high := MoveMask(lanes[1..]);
    var b := lanes[0] & 0x80 != 0;
    MaskLength(lanes[1..]);
    DepositBelow(high, if b then 1 else 0);
    DepositZero(b, high);
    NoLength(high);
    if k > 0 {
      LastLane(lanes[1..], k - 1);
    }
  }

  // ---- The encoder writes LEB128 ----

  lemma LaneHolds(lane: bv8, minimum: bv8)
    requires lane & 0x80 == 0
    ensures minimum == 0 ==> ((Lane(SignedLess(0, lane)) | minimum) & 0x80 != 0 <==> lane != 0)
    ensures minimum == 0xFF ==> (Lane(SignedLess(0, lane)) | minimum) & 0x80 != 0
  {
  }

  lemma {:induction false} GroupIsLow(x: bv64, k: nat)
    ensures Group(x, k) & 0x80 == 0
  {
    if k == 0 {
      LowFacts(x);
    } else {
      GroupIsLow(Rest(x), k - 1);
    }
  }

  lemma ExistsLane(lanes: seq<bv8>, k: nat)
    requires |lanes| == LANES && k < LANES
    requires lanes[k] & 0x80 == 0
    ensures Exists(lanes)[k] & 0x80 != 0 <==> k == 0 || lanes[k] != 0
  {
    LaneHolds(lanes[k], MINIMUM[k]);
  }

  lemma ExistsMeans(x: bv64, k: nat)
    requires k < LANES
    ensures Exists(Spread(x))[k] & 0x80 != 0 <==> k == 0 || Group(x, k) != 0
  {
    SpreadMeans(x, k);
    GroupIsLow(x, k);
    ExistsLane(Spread(x), k);
  }

  lemma LaneCount(lanes: seq<bv8>, n: nat)
    requires 1 <= n <= |lanes| <= 32
    requires lanes[n - 1] & 0x80 != 0
    requires forall k :: n <= k < |lanes| ==> lanes[k] & 0x80 == 0
    ensures BitLength(MoveMask(lanes)) == n
  {
    MaskLength(lanes);
    LastLane(lanes, n - 1);
    var length := BitLength(MoveMask(lanes));
    if length > n {
      LastLane(lanes, length - 1);
    }
  }

  lemma LebShort(x: bv64)
    ensures |Leb(x)| <= 10
  {
    AllFit(x);
    LebLength(x, 10);
  }

  lemma LanesAround(x: bv64, k: nat)
    requires |Leb(x)| - 1 <= k < LANES
    ensures Exists(Spread(x))[k] & 0x80 != 0 <==> k == |Leb(x)| - 1
  {
    ExistsMeans(x, k);
    if k == |Leb(x)| - 1 {
      LebTop(x);
    } else {
      LebEnds(x, k);
    }
  }

  /** The mask gives the length of the encoding. */
  lemma NeededIsLength(x: bv64)
    ensures |Leb(x)| <= 10
    ensures BitLength(MoveMask(Exists(Spread(x)))) == |Leb(x)|
  {
    LebShort(x);
    var exist, n := Exists(Spread(x)), |Leb(x)|;
    forall k: nat | n - 1 <= k < LANES ensures exist[k] & 0x80 != 0 <==> k == n - 1 {
      LanesAround(x, k);
    }
    LaneCount(exist, n);
  }

  lemma MarkMeans(needed: nat, k: nat)
    requires needed <= LANES && k < LANES
    ensures Marks(needed)[k] == if k + 1 < needed then CONTINUE else 0
  {
    var mask := seq(LANES, i => Lane(i < needed));
    var shift := mask[1..] + [0];
    assert shift[k] == Lane(k + 1 < needed);
    LaneBit(k + 1 < needed);
  }

  lemma LaneBit(holds: bool)
    ensures Lane(holds) & 0x80 == if holds then CONTINUE else 0
  {
  }

  /** The first lanes, marked, are the encoding. */
  lemma MergedIsLeb(x: bv64, lanes: seq<bv8>)
    requires |lanes| == LANES && |Leb(x)| <= LANES
    requires forall k :: 0 <= k < LANES ==> lanes[k] == Group(x, k)
    ensures Merge(lanes, Marks(|Leb(x)|))[..|Leb(x)|] == Leb(x)
  {
    var n := |Leb(x)|;
    var bytes := Merge(lanes, Marks(n));
    forall k | 0 <= k < n ensures bytes[k] == Leb(x)[k] {
      MarkMeans(n, k);
      LebGroups(x, k);
      OrZero(Group(x, k));
    }
    assert bytes[..n] == Leb(x);
  }

  /** The vector form writes what the portable form writes. */
  lemma VectorIsPortable(x: bv64)
    ensures VectorEncode(x) == Leb(x)
  {
    NeededIsLength(x);
    forall k | 0 <= k < LANES ensures Spread(x)[k] == Group(x, k) {
      SpreadMeans(x, k);
    }
    MergedIsLeb(x, Spread(x));
  }
}
