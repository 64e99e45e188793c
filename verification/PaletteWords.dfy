/** The words of a paletted section as 64-bit patterns: shifting and masking them takes the fields that
    `Palette` takes by division and remainder. */
module PaletteWords {
  import opened Words
  import opened Palette

  predicate IsOdd(w: bv64) {
    w & 1 == 1
  }

  /** The number that the bits of a word stand for. */
  function Number(w: bv64): nat
    decreases w
  {
    if w == 0 then 0 else LowBit(w) + 2 * Number(Halve(w))
  }

  /** The `2^bits - 1` of the program. */
  function Mask(bits: bv6): bv64 {
    (1 << bits) - 1
  }

  function MaskedWord(w: bv64, mask: bv64): bv64 {
    w & mask
  }

  function ShiftedWord(w: bv64, k: bv6): bv64 {
    w >> k
  }

  function LowBit(w: bv64): nat {
    if IsOdd(w) then 1 else 0
  }

  lemma HalfNumber(w: bv64, half: bv64)
    requires half == Halve(w)
    ensures Number(w) == LowBit(w) + 2 * Number(half)
  {
    if w == 0 {
      assert Halve(0) == 0 && !IsOdd(0);
    }
  }

  // ---- The number is the value ----

  function Value(w: bv64): nat {
    w as int
  }

  lemma OddValue(w: bv64)
    ensures Value(w | 1) == 2 * Value(w >> 1) + 1
  {
  }

  lemma EvenValue(w: bv64)
    ensures Value(w & 0xFFFF_FFFF_FFFF_FFFE) == 2 * Value(w >> 1)
  {
  }

  lemma OddOrEven(w: bv64)
    ensures IsOdd(w) ==> w | 1 == w
    ensures !IsOdd(w) ==> w & 0xFFFF_FFFF_FFFF_FFFE == w
  {
  }

  lemma SameValue(a: bv64, b: bv64, value: nat)
    requires a == b && Value(a) == value
    ensures Value(b) == value
  {
  }

  lemma HalfValue(w: bv64, half: bv64)
    requires half == Halve(w)
    ensures Value(w) == LowBit(w) + 2 * Value(half)
  {
    OddOrEven(w);
    if IsOdd(w) {
      OddValue(w);
      SameValue(w | 1, w, 2 * Value(half) + 1);
    } else {
      EvenValue(w);
      SameValue(w & 0xFFFF_FFFF_FFFF_FFFE, w, 2 * Value(half));
    }
  }

  lemma HalfIsLess(w: bv64)
    requires w != 0
    ensures Halve(w) < w
  {
  }

  lemma ZeroValue()
    ensures Value(0) == 0
  {
  }

  lemma SameSum(a: int, b: int, low: int, aHalf: int, bHalf: int)
    requires a == low + 2 * aHalf && b == low + 2 * bHalf && aHalf == bHalf
    ensures a == b
  {
  }

  lemma {:induction false} NumberIsValue(w: bv64)
    ensures Number(w) == Value(w)
    decreases w
  {
    if w == 0 {
      ZeroValue();
    } else {
      var half := Halve(w);
      HalfIsLess(w);
      NumberIsValue(half);
      HalfNumber(w, half);
      HalfValue(w, half);
      SameSum(Number(w), Value(w), LowBit(w), Number(half), Value(half));
    }
  }

  // ---- Shifting ----

  lemma ShiftStep(w: bv64, k: bv6)
    requires k > 0
    ensures ShiftedWord(w, k) == Halve(ShiftedWord(w, k - 1))
  {
    if k <= 16 {
      ShortShift(w, k);
    } else if k <= 32 {
      MiddleShift(w, k);
    } else {
      LongShift(w, k);
    }
  }

  lemma ShortShift(w: bv64, k: bv6)
    requires 0 < k <= 16
    ensures ShiftedWord(w, k) == Halve(ShiftedWord(w, k - 1))
  {
  }

  lemma MiddleShift(w: bv64, k: bv6)
    requires 16 < k <= 32
    ensures ShiftedWord(w, k) == Halve(ShiftedWord(w, k - 1))
  {
  }

  lemma LongShift(w: bv64, k: bv6)
    requires 32 < k
    ensures ShiftedWord(w, k) == Halve(ShiftedWord(w, k - 1))
  {
  }

  lemma NoShift(w: bv64)
    ensures ShiftedWord(w, 0) == w
  {
  }

  lemma OneLower(k: bv6)
    requires k > 0
    ensures (k - 1) as int == k as int - 1
  {
  }

  lemma ShiftedOnce(n: nat, k: nat)
    requires k > 0
    ensures Shifted(n, k) == Shifted(n, k - 1) / 2
  {
    PowerPositive(2, k);
    PowerPositive(2, k - 1);
    PowerSum(2, k - 1, 1);
    DivTwice(n, Power(2, k - 1), 2, Power(2, k));
  }

  /** Shifting a word divides its number by the power of two. */
  lemma {:induction false} ShiftNumber(w: bv64, k: bv6)
    ensures Number(ShiftedWord(w, k)) == Shifted(Number(w), k as int)
    decreases k
  {
    if k == 0 {
      NoShift(w);
    } else {
      ShiftNumber(w, k - 1);
      OneLower(k);
      ShiftStep(w, k);
      HalfNumber(ShiftedWord(w, k - 1), ShiftedWord(w, k));
      ShiftedOnce(Number(w), k as int);
    }
  }

  // ---- Masking ----

  lemma MaskStep(w: bv64, bits: bv6)
    requires bits > 0
    ensures Halve(MaskedWord(w, Mask(bits))) == MaskedWord(Halve(w), Mask(bits - 1))
    ensures IsOdd(MaskedWord(w, Mask(bits))) <==> IsOdd(w)
  {
  }

  lemma NoMask(w: bv64)
    ensures MaskedWord(w, Mask(0)) == 0
  {
  }

  lemma MaskedOnce(low: nat, high: nat, bits: nat)
    requires low < 2 && bits > 0
    ensures Masked(low + 2 * high, bits) == low + 2 * Masked(high, bits - 1)
  {
    var p := Power(2, bits - 1);
    PowerPositive(2, bits - 1);
    PowerPositive(2, bits);
    DoubledRemainder(low, high, p);
  }

  lemma DoubledRemainder(low: nat, high: nat, p: nat)
    requires low < 2 && p > 0
    ensures (low + 2 * high) % (2 * p) == low + 2 * (high % p)
  {
    var q, r := high / p, high % p;
    assert high == q * p + r;
    Associates(q, 2, p);
    Associates(2, q, p);
    DivModUnique(low + 2 * high, 2 * p, q, low + 2 * r);
  }

  /** Masking a word leaves the remainder of its number by the power of two. */
  lemma {:induction false} MaskNumber(w: bv64, bits: bv6)
    ensures Number(MaskedWord(w, Mask(bits))) == Masked(Number(w), bits as int)
    decreases bits
  {
    if bits == 0 {
      NoMask(w);
    } else {
      MaskNumber(Halve(w), bits - 1);
      OneLower(bits);
      MaskStep(w, bits);
      HalfNumber(w, Halve(w));
      HalfNumber(MaskedWord(w, Mask(bits)), MaskedWord(Halve(w), Mask(bits - 1)));
      MaskedOnce(LowBit(w), Number(Halve(w)), bits as int);
    }
  }

  // ---- Fields ----

  lemma FieldNumber(w: bv64, shift: bv6, width: bv6, bits: nat, j: nat)
    requires shift as int == bits * j && width as int == bits
    ensures Number(MaskedWord(ShiftedWord(w, shift), Mask(width))) == Field(Number(w), bits, j)
  {
    ShiftNumber(w, shift);
    MaskNumber(ShiftedWord(w, shift), width);
  }

  /** Shifting a word right by `bits * j` and masking it with `2^bits - 1` gives field `j` of its value. */
  lemma FieldBits(w: bv64, shift: bv6, width: bv6, bits: nat, j: nat)
    requires shift as int == bits * j && width as int == bits
    ensures ((w >> shift) & ((1 << width) - 1)) as int == Field(w as int, bits, j)
  {
    var field := MaskedWord(ShiftedWord(w, shift), Mask(width));
    FieldNumber(w, shift, width, bits, j);
    NumberIsValue(w);
    NumberIsValue(field);
  }
}
