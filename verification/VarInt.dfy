/** Variable-length encoding of 32-bit integers: the encoder that spreads all groups at once over a
    64-bit word, and decoding. All values are bit patterns, so the sign plays no part. */
module VarInt {
  import opened Leb128
  import opened LebReading
  import opened Words
  import opened Wrappers

  const MAX_SIZE := 5

  /** The pattern, without sign extension. */
  function Pattern(x: bv32): bv64 {
    x as bv64
  }

  // ---- Encoding ----

  function SignExtend(x: bv32): bv64 {
    if x & 0x8000_0000 == 0 then x as bv64 else 0xFFFF_FFFF_0000_0000 | (x as bv64)
  }

  function Stage1(x: bv64): bv64 {
    (x & 0x7F) | ((x & 0x3F80) << 1) | ((x & 0x1F_C000) << 2) | ((x & 0xFE0_0000) << 3) | ((x & 0xF000_0000) << 4)
  }

  function BytesNeeded(stage1: bv64): int {
    var leading := 64 - BitLength(stage1);
    8 - (leading - 1) / 8
  }

  /** The highest bit of every byte but the last. */
  function MsbMask(needed: int): bv64
    requires 1 <= needed <= 8
  {
    0x8080_8080_8080_8080 & (0xFFFF_FFFF_FFFF_FFFF >> ((8 - needed + 1) * 8 - 1))
  }

  function Encode(x: bv32): seq<bv8> {
    var stage1 := Stage1(SignExtend(x));
    var needed := BytesNeeded(stage1);

    NeededIsLength(x);
    LeBytes(Or(stage1, MsbMask(needed)), 8)[..needed]
  }

  // ---- Spreading ----

  /** The masks leave out the sign extension. */
  lemma SignIsMasked(x: bv32)
    ensures Stage1(SignExtend(x)) == Stage1(Pattern(x))
    ensures Pattern(x) <= 0xFFFF_FFFF
  {
  }

  /** The groups `a` to `e`, a byte each. */
  function Five(a: bv8, b: bv8, c: bv8, d: bv8, e: bv8): bv64 {
    JoinByte(a, JoinByte(b, JoinByte(c, JoinByte(d, JoinByte(e, 0)))))
  }

  lemma Stage1IsFive(z: bv64)
    requires z <= 0xFFFF_FFFF
    ensures
      var z1 := Rest(z);
      var z2 := Rest(z1);
      var z3 := Rest(z2);
      var z4 := Rest(z3);
      Stage1(z) == Five(Low(z), Low(z1), Low(z2), Low(z3), Low(z4))
  {
  }

  lemma FiveGroups(z: bv64)
    requires z <= 0xFFFF_FFFF
    ensures Rest(Rest(Rest(Rest(Rest(z))))) == 0
  {
  }

  lemma DropFive(a: bv8, b: bv8, c: bv8, d: bv8, e: bv8)
    ensures LowByte(Five(a, b, c, d, e)) == a
    ensures DropByte(Five(a, b, c, d, e)) == Five(b, c, d, e, 0)
    ensures Five(0, 0, 0, 0, 0) == 0
  {
  }

  /** The bytes of `s` are the groups of `z`, and there are at most `n`. */
  predicate Spread(s: bv64, z: bv64, n: nat) {
    if n == 0 then s == 0 && z == 0
    else LowByte(s) == Low(z) && Spread(DropByte(s), Rest(z), n - 1)
  }

  lemma FiveSpreads(z: bv64, z1: bv64, z2: bv64, z3: bv64, z4: bv64)
    requires z1 == Rest(z) && z2 == Rest(z1) && z3 == Rest(z2) && z4 == Rest(z3) && Rest(z4) == 0
    ensures Spread(Five(Low(z), Low(z1), Low(z2), Low(z3), Low(z4)), z, 5)
  {
    var a, b, c, d, e := Low(z), Low(z1), Low(z2), Low(z3), Low(z4);
    DropFive(a, b, c, d, e);
    DropFive(b, c, d, e, 0);
    DropFive(c, d, e, 0, 0);
    DropFive(d, e, 0, 0, 0);
    DropFive(e, 0, 0, 0, 0);
    assert Spread(Five(e, 0, 0, 0, 0), z4, 1);
    assert Spread(Five(d, e, 0, 0, 0), z3, 2);
    assert Spread(Five(c, d, e, 0, 0), z2, 3);
    assert Spread(Five(b, c, d, e, 0), z1, 4);
  }

  lemma Stage1Spreads(x: bv32)
    ensures Spread(Stage1(SignExtend(x)), Pattern(x), 5)
  {
    var z := Pattern(x);
    var z1 := Rest(z);
    var z2 := Rest(z1);
    var z3 := Rest(z2);
    SignIsMasked(x);
    Stage1IsFive(z);
    FiveGroups(z);
    FiveSpreads(z, z1, z2, z3, Rest(z3));
  }

  lemma {:induction false} SpreadZero(s: bv64, z: bv64, n: nat)
    requires Spread(s, z, n)
    ensures s == 0 <==> z == 0
  {
    if n > 0 {
      var s1, z1 := DropByte(s), Rest(z);
      SpreadZero(s1, z1, n - 1);
      ZeroParts(s, s1, z, z1);
    }
  }

  lemma ZeroParts(s: bv64, s1: bv64, z: bv64, z1: bv64)
    requires s1 == DropByte(s) && z1 == Rest(z)
    requires LowByte(s) == Low(z) && (s1 == 0 <==> z1 == 0)
    ensures s == 0 <==> z == 0
  {
  }

  /** Byte `k` of the spread word is group `k`. */
  lemma {:induction false} SpreadGroup(s: bv64, z: bv64, n: nat, k: nat)
    requires Spread(s, z, n)
    requires k < n
    ensures ByteOf(s, k) == Group(z, k)
  {
    if k > 0 {
      SpreadGroup(DropByte(s), Rest(z), n - 1, k - 1);
    }
  }

  // ---- Counting bytes ----

  lemma {:induction false} SpreadLength(s: bv64, z: bv64, n: nat)
    requires Spread(s, z, n)
    ensures BitLength(s) < 8 * n || n == 0
    ensures BytesNeeded(s) == |Leb(z)|
    ensures n > 0 ==> |Leb(z)| <= n
  {
    if n > 0 {
      var s1, z1 := DropByte(s), Rest(z);
      SpreadLength(s1, z1, n - 1);
      SpreadZero(s1, z1, n - 1);
      if s1 == 0 {
        LastByte(s, z);
        NeededLast(s);
      } else {
        NeededMore(s, s1);
      }
    }
  }

  lemma NeededMore(s: bv64, s1: bv64)
    requires s1 == DropByte(s) != 0
    ensures BitLength(s) == 8 + BitLength(s1) && BytesNeeded(s) == 1 + BytesNeeded(s1)
  {
    LengthOfDrop(s);
  }

  lemma NeededLast(s: bv64)
    requires Rest(s) == 0
    ensures BitLength(s) <= 7 && BytesNeeded(s) == 1
  {
    LengthOfRest(s);
  }

  lemma LastByte(s: bv64, z: bv64)
    requires LowByte(s) == Low(z) && DropByte(s) == 0
    ensures Rest(s) == 0
  {
  }

  lemma NeededIsLength(x: bv32)
    ensures BitLength(Stage1(SignExtend(x))) < 64
    ensures BytesNeeded(Stage1(SignExtend(x))) == |Leb(Pattern(x))| <= MAX_SIZE
  {
    Stage1Spreads(x);
    SpreadLength(Stage1(SignExtend(x)), Pattern(x), 5);
  }

  // ---- The encoder writes LEB128 ----

  lemma Marks(needed: nat, k: nat)
    requires k < needed <= MAX_SIZE
    ensures ByteOf(MsbMask(needed), k) == if k + 1 < needed then CONTINUE else 0
  {
    assert MsbMask(1) == 0;
    assert MsbMask(2) == 0x80;
    assert MsbMask(3) == 0x8080;
    assert MsbMask(4) == 0x80_8080;
    assert MsbMask(5) == 0x8080_8080;
  }

  function OrByte(a: bv8, b: bv8): bv8 {
    a | b
  }

  lemma OrParts(a: bv64, b: bv64)
    ensures LowByte(Or(a, b)) == OrByte(LowByte(a), LowByte(b))
    ensures DropByte(Or(a, b)) == Or(DropByte(a), DropByte(b))
  {
  }

  lemma {:induction false} OrBytes(a: bv64, b: bv64, k: nat)
    ensures ByteOf(Or(a, b), k) == OrByte(ByteOf(a, k), ByteOf(b, k))
  {
    OrParts(a, b);
    if k > 0 {
      OrBytes(DropByte(a), DropByte(b), k - 1);
    }
  }

  /** The encoder writes the LEB128 form of the 32-bit pattern, in as many bytes as announced, at most
      five. */
  lemma EncodeIsLeb(x: bv32)
    ensures Encode(x) == Leb(Pattern(x))
    ensures |Encode(x)| == WrittenSize(Pattern(x)) <= MAX_SIZE
  {
    NeededIsLength(x);
    WrittenSizeIsLength(Pattern(x));
    Stage1Spreads(x);
    MarkedIsLeb(Stage1(SignExtend(x)), Pattern(x));
  }

  /** The spread word, its bytes marked, holds the encoding. */
  lemma MarkedIsLeb(s: bv64, z: bv64)
    requires Spread(s, z, 5) && |Leb(z)| <= MAX_SIZE
    ensures LeBytes(Or(s, MsbMask(|Leb(z)|)), 8)[..|Leb(z)|] == Leb(z)
  {
    var n := |Leb(z)|;
    var marked := LeBytes(Or(s, MsbMask(n)), 8);
    forall k | 0 <= k < n ensures marked[k] == Leb(z)[k] {
      MarkedByte(s, z, MsbMask(n), n, k);
    }
    assert marked[..n] == Leb(z);
  }

  lemma MarkedByte(s: bv64, z: bv64, mask: bv64, n: nat, k: nat)
    requires Spread(s, z, 5) && n == |Leb(z)| <= MAX_SIZE
    requires mask == MsbMask(n) && k < n
    ensures LeBytes(Or(s, mask), 8)[k] == Leb(z)[k]
  {
    LeBytesAt(Or(s, mask), 8, k);
    OrBytes(s, mask, k);
    SpreadGroup(s, z, 5, k);
    Marks(n, k);
    LebGroups(z, k);
    OrZero(Group(z, k));
  }

  // ---- Decoding ----

  function Low32(x: bv64): bv32 {
    (x & 0xFFFF_FFFF) as bv32
  }

  function Narrow(d: Decoded): Result<(bv32, seq<bv8>), DecodeError> {
    match d
    case Err(e) => Err(e)
    case Ok(value) => Ok((Low32(value.0), value.1))
  }

  /** At most five bytes, and of what they say the low 32 bits. */
  function Decode(bytes: seq<bv8>): Result<(bv32, seq<bv8>), DecodeError> {
    Narrow(Value(bytes, MAX_SIZE))
  }

  function Or32(a: bv32, b: bv32): bv32 {
    a | b
  }

  function Raise32(x: bv32): bv32 {
    x << 7
  }

  function Up32(x: bv32, i: nat): bv32 {
    if i == 0 then x else Raise32(Up32(x, i - 1))
  }

  lemma NarrowParts(a: bv64, b: bv64)
    ensures Low32(Raise(a)) == Raise32(Low32(a))
    ensures Low32(Or(a, b)) == Or32(Low32(a), Low32(b))
  {
  }

  lemma {:induction false} NarrowUp(x: bv64, i: nat)
    ensures Low32(Up(x, i)) == Up32(Low32(x), i)
  {
    if i > 0 {
      NarrowUp(x, i - 1);
      NarrowParts(Up(x, i - 1), 0);
    }
  }

  /** The loop, in 32 bits: `wide` is what 64 bits would hold. */
  method DecodeLoop(bytes: seq<bv8>) returns (r: Result<(bv32, seq<bv8>), DecodeError>)
    ensures r == Decode(bytes)
  {
    var val: bv32, rest := 0, bytes;
    ghost var wide: bv64 := 0;
    OrLaws(0, 0, 0);
    for i := 0 to MAX_SIZE
      invariant Value(bytes, MAX_SIZE) == Above(wide, i, Value(rest, MAX_SIZE - i))
      invariant val == Low32(wide)
    {
      if rest == [] {
        return Err(Incomplete);
      }
      var byte := rest[0];
      AboveStep(wide, i, byte, rest[1..], Value(rest[1..], MAX_SIZE - i - 1));
      rest := rest[1..];
      NarrowUp(Data(byte), i);
      NarrowParts(wide, Up(Data(byte), i));
      wide := Or(wide, Up(Data(byte), i));
      val := Or32(val, Up32(Low32(Data(byte)), i));
      if byte & CONTINUE == 0 {
        return Ok((val, rest));
      }
    }
    return Err(TooLarge);
  }

  lemma PatternFits(x: bv32)
    ensures FitsIn(Pattern(x), MAX_SIZE)
  {
    var z := Pattern(x);
    var z3 := Rest(Rest(Rest(z)));
    SignIsMasked(x);
    Stage1IsFive(z);
    assert FitsIn(Rest(Rest(z3)), 0);
    assert FitsIn(z3, 2);
    assert FitsIn(Rest(Rest(z)), 3);
  }

  lemma LowOfPattern(x: bv32)
    ensures Low32(Pattern(x)) == x
  {
  }

  /** Decoding inverts encoding and leaves whatever follows unread. */
  lemma RoundTrip(x: bv32, suffix: seq<bv8>)
    ensures Decode(Encode(x) + suffix) == Ok((x, suffix))
  {
    EncodeIsLeb(x);
    PatternFits(x);
    ValueOfLeb(Pattern(x), MAX_SIZE, suffix);
    LowOfPattern(x);
  }
}
