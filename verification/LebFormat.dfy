/** Unsigned LEB128 in plain numbers: what the bytes of an encoding are worth, and which bytes a decoder takes and
    what it makes of them. */
module LebFormat {
  import opened Wrappers
  import opened Words
  import opened Leb128
  import opened LebReading
  import W = PaletteWords
  import Palette
  import VarInt
  import VarLong

  // ---- What the bytes are worth ----

  /** Seven bits of each byte, the first byte lowest. */
  function Worth(bytes: seq<bv8>): nat {
    if bytes == [] then 0 else bytes[0] as int % 128 + 128 * Worth(bytes[1..])
  }

  lemma LowSeven(x: bv64)
    ensures
      var x1 := Halve(x);
      var x2 := Halve(x1);
      var x3 := Halve(x2);
      var x4 := Halve(x3);
      var x5 := Halve(x4);
      var x6 := Halve(x5);
      Low(x) as int == W.LowBit(x) + 2 * W.LowBit(x1) + 4 * W.LowBit(x2) + 8 * W.LowBit(x3) + 16 * W.LowBit(x4)
                       + 32 * W.LowBit(x5) + 64 * W.LowBit(x6)
  {
  }

  /** Seven steps of halving. */
  lemma SevenSums(v: int, v1: int, v2: int, v3: int, v4: int, v5: int, v6: int, v7: int, low: int,
                  b0: int, b1: int, b2: int, b3: int, b4: int, b5: int, b6: int)
    requires v == b0 + 2 * v1 && v1 == b1 + 2 * v2 && v2 == b2 + 2 * v3 && v3 == b3 + 2 * v4
    requires v4 == b4 + 2 * v5 && v5 == b5 + 2 * v6 && v6 == b6 + 2 * v7
    requires low == b0 + 2 * b1 + 4 * b2 + 8 * b3 + 16 * b4 + 32 * b5 + 64 * b6
    ensures v == low + 128 * v7
  {
  }

  lemma RestValue(x: bv64, rest: bv64)
    requires rest == Rest(x)
    ensures W.Value(x) == Low(x) as int + 128 * W.Value(rest)
  {
    var x1 := Halve(x);
    var x2 := Halve(x1);
    var x3 := Halve(x2);
    var x4 := Halve(x3);
    var x5 := Halve(x4);
    var x6 := Halve(x5);
    SevenHalves(x);
    W.HalfValue(x, x1);
    W.HalfValue(x1, x2);
    W.HalfValue(x2, x3);
    W.HalfValue(x3, x4);
    W.HalfValue(x4, x5);
    W.HalfValue(x5, x6);
    W.HalfValue(x6, rest);
    LowSeven(x);
    SevenSums(W.Value(x), W.Value(x1), W.Value(x2), W.Value(x3), W.Value(x4), W.Value(x5), W.Value(x6), W.Value(rest),
              Low(x) as int, W.LowBit(x), W.LowBit(x1), W.LowBit(x2), W.LowBit(x3), W.LowBit(x4), W.LowBit(x5),
              W.LowBit(x6));
  }

  lemma Marked(byte: bv8)
    ensures byte & CONTINUE == 0 <==> byte as int < 128
    ensures (byte & 0x7F) as int == byte as int % 128
  {
  }

  function Mark(byte: bv8): bv8 {
    byte | CONTINUE
  }

  lemma LowByteIs(x: bv64)
    ensures Low(x) as int < 128 && Mark(Low(x)) as int == Low(x) as int + 128
  {
  }

  lemma WorthCons(byte: bv8, tail: seq<bv8>)
    ensures Worth([byte] + tail) == byte as int % 128 + 128 * Worth(tail)
  {
    assert ([byte] + tail)[1..] == tail;
  }

  /** All bytes but the last are at least 128. */
  ghost predicate WellMarked(bytes: seq<bv8>) {
    forall k :: 0 <= k < |bytes| ==> (bytes[k] as int >= 128 <==> k < |bytes| - 1)
  }

  lemma MarkedCons(byte: bv8, tail: seq<bv8>)
    requires byte as int >= 128 && tail != [] && WellMarked(tail)
    ensures WellMarked([byte] + tail)
  {
    var all := [byte] + tail;
    forall k | 0 <= k < |all|
      ensures all[k] as int >= 128 <==> k < |all| - 1
    {
      assert k > 0 ==> all[k] == tail[k - 1];
    }
  }

  lemma LebUnfolds(x: bv64)
    ensures Leb(x) == if Rest(x) == 0 then [Low(x)] else [Mark(Low(x))] + Leb(Rest(x))
  {
  }

  lemma LowOfMarked(byte: int, low: nat)
    requires byte == low + 128 && low < 128
    ensures byte % 128 == low
  {
  }

  /** One more byte below an encoding. */
  lemma LongerWorth(byte: bv8, low: nat, tail: seq<bv8>, value: nat, high: nat)
    requires byte as int == low + 128 && low < 128 && tail != []
    requires Worth(tail) == high && WellMarked(tail) && value == low + 128 * high
    ensures Worth([byte] + tail) == value && WellMarked([byte] + tail)
  {
    WorthCons(byte, tail);
    LowOfMarked(byte as int, low);
    MarkedCons(byte, tail);
  }

  lemma LastWorth(byte: bv8)
    requires byte as int < 128
    ensures Worth([byte]) == byte as int && WellMarked([byte])
  {
    WorthCons(byte, []);
    assert [byte] + [] == [byte];
  }

  lemma {:induction false} LebIsWorth(x: bv64)
    ensures Worth(Leb(x)) == W.Value(x) && WellMarked(Leb(x))
    decreases x
  {
    var rest, last := Rest(x), Low(x);
    RestValue(x, rest);
    LowByteIs(x);
    LebUnfolds(x);
    if rest == 0 {
      W.ZeroValue();
      LastWorth(last);
    } else {
      RestIsLess(x);
      LebIsWorth(rest);
      LongerWorth(Mark(last), last as int, Leb(rest), W.Value(x), W.Value(rest));
    }
  }

  lemma RestIsLess(x: bv64)
    requires Rest(x) != 0
    ensures Rest(x) < x
  {
  }

  /** The bytes of an encoding: all but the last are at least 128, and together they are worth the number. */
  lemma LebWorth(x: bv64)
    ensures Worth(Leb(x)) == x as int
    ensures forall k :: 0 <= k < |Leb(x)| ==> (Leb(x)[k] as int >= 128 <==> k < |Leb(x)| - 1)
  {
    LebIsWorth(x);
  }

  // ---- What a decoder takes ----

  /** The first `n` bytes are all at least 128. */
  ghost predicate AllMarked(bytes: seq<bv8>, n: nat) {
    n <= |bytes| && forall k :: 0 <= k < n ==> bytes[k] as int >= 128
  }

  lemma MarkedTail(bytes: seq<bv8>, n: nat)
    requires AllMarked(bytes, n) && n > 0
    ensures AllMarked(bytes[1..], n - 1) && bytes[0] as int >= 128
  {
  }

  /** One byte of reading. */
  lemma ReaderStep(bytes: seq<bv8>, limit: nat)
    requires limit > 0 && bytes != []
    ensures bytes[0] as int < 128 ==> Value(bytes, limit) == Ok((Join(bytes[0], 0), bytes[1..]))
    ensures bytes[0] as int >= 128 ==>
      var tail := Value(bytes[1..], limit - 1);
      Value(bytes, limit) == if tail.Ok? then Ok((Join(bytes[0], tail.value.0), tail.value.1)) else tail
  {
    Marked(bytes[0]);
  }

  /** A reader of at most `limit` bytes takes those up to the first that is less than 128. If there is none among
      so many, the number is too large, or if there are not so many bytes, it is incomplete. */
  lemma {:induction false} ReaderFails(bytes: seq<bv8>, limit: nat, n: nat)
    requires AllMarked(bytes, n) && n <= limit
    ensures n == limit ==> Value(bytes, limit) == Err(TooLarge)
    ensures n == |bytes| < limit ==> Value(bytes, limit) == Err(Incomplete)
    decreases n
  {
    if n > 0 {
      MarkedTail(bytes, n);
      ReaderFails(bytes[1..], limit - 1, n - 1);
      ReaderStep(bytes, limit);
    }
  }

  lemma {:induction false} ReaderTakes(bytes: seq<bv8>, limit: nat, n: nat)
    requires AllMarked(bytes, n) && n < limit && n < |bytes| && bytes[n] as int < 128
    ensures Value(bytes, limit).Ok? && Value(bytes, limit).value.1 == bytes[n + 1..]
    decreases n
  {
    ReaderStep(bytes, limit);
    if n > 0 {
      MarkedTail(bytes, n);
      ReaderTakes(bytes[1..], limit - 1, n - 1);
      assert bytes[1..][n..] == bytes[n + 1..];
    }
  }

  // ---- What a decoder makes of them ----

  function Low57(x: bv64): bv64 {
    x & 0x1FF_FFFF_FFFF_FFFF
  }

  lemma JoinedLow(byte: bv8, high: bv64)
    ensures Low(Join(byte, high)) == byte & 0x7F
  {
  }

  lemma JoinedRest(byte: bv8, high: bv64)
    ensures Rest(Join(byte, high)) == Low57(high)
  {
  }

  lemma Low57IsMasked(x: bv64)
    ensures Low57(x) == W.MaskedWord(x, W.Mask(57))
  {
  }

  lemma Power57()
    ensures Palette.Power(2, 57) == 0x200_0000_0000_0000
  {
    Palette.PowerSum(2, 10, 9);
    assert Palette.Power(2, 10) == 0x400 && Palette.Power(2, 9) == 0x200;
    Palette.PowerSum(2, 19, 19);
    Palette.PowerSum(2, 38, 19);
  }

  lemma Low57Value(x: bv64)
    ensures W.Value(Low57(x)) == W.Value(x) % 0x200_0000_0000_0000
  {
    Low57IsMasked(x);
    W.MaskNumber(x, 57);
    W.NumberIsValue(x);
    W.NumberIsValue(Low57(x));
    Power57();
  }

  lemma Wraps(low: nat, high: nat)
    requires low < 128
    ensures low + 128 * (high % 0x200_0000_0000_0000) == (low + 128 * high) % 0x1_0000_0000_0000_0000
  {
  }

  lemma JoinValue(byte: bv8, high: bv64)
    ensures W.Value(Join(byte, high)) == (byte as int % 128 + 128 * W.Value(high)) % 0x1_0000_0000_0000_0000
  {
    JoinedLow(byte, high);
    JoinedRest(byte, high);
    RestValue(Join(byte, high), Low57(high));
    Marked(byte);
    Low57Value(high);
    Wraps(byte as int % 128, W.Value(high));
  }

  lemma SameRemainder(a: nat, b: nat, k: nat)
    requires b == a + k * 0x1_0000_0000_0000_0000
    ensures a % 0x1_0000_0000_0000_0000 == b % 0x1_0000_0000_0000_0000
  {
    var q, p := a / 0x1_0000_0000_0000_0000, b / 0x1_0000_0000_0000_0000;
    assert p == q + k;
  }

  lemma WrapsTwice(low: nat, high: nat, all: nat)
    requires all == low + 128 * high
    ensures (low + 128 * (high % 0x1_0000_0000_0000_0000)) % 0x1_0000_0000_0000_0000
            == all % 0x1_0000_0000_0000_0000
  {
    var q, r := high / 0x1_0000_0000_0000_0000, high % 0x1_0000_0000_0000_0000;
    SameRemainder(low + 128 * r, all, 128 * q);
  }

  /** What is read is worth the bytes taken, as far as 64 bits go. */
  lemma {:induction false} ReaderWorth(bytes: seq<bv8>, limit: nat, n: nat)
    requires AllMarked(bytes, n) && n < limit && n < |bytes| && bytes[n] as int < 128
    ensures Value(bytes, limit).Ok?
    ensures W.Value(Value(bytes, limit).value.0) == Worth(bytes[..n + 1]) % 0x1_0000_0000_0000_0000
    decreases n
  {
    ReaderStep(bytes, limit);
    var tail := bytes[1..];
    assert bytes[..n + 1] == [bytes[0]] + tail[..n];
    WorthCons(bytes[0], tail[..n]);
    if n == 0 {
      JoinValue(bytes[0], 0);
      W.ZeroValue();
    } else {
      MarkedTail(bytes, n);
      ReaderWorth(tail, limit - 1, n - 1);
      JoinValue(bytes[0], Value(tail, limit - 1).value.0);
      WrapsTwice(bytes[0] as int % 128, Worth(tail[..n]), Worth(bytes[..n + 1]));
    }
  }

  /** The decoder of 64-bit integers takes at most ten bytes. */
  lemma LongDecodes(bytes: seq<bv8>, n: nat)
    requires AllMarked(bytes, n)
    ensures n == 10 ==> VarLong.Decode(bytes) == Err(TooLarge)
    ensures n == |bytes| < 10 ==> VarLong.Decode(bytes) == Err(Incomplete)
    ensures n < |bytes| && n < 10 && bytes[n] as int < 128 ==>
      && VarLong.Decode(bytes).Ok? && VarLong.Decode(bytes).value.1 == bytes[n + 1..]
      && VarLong.Decode(bytes).value.0 as int == Worth(bytes[..n + 1]) % 0x1_0000_0000_0000_0000
  {
    if n <= 10 {
      ReaderFails(bytes, 10, n);
    }
    if n < |bytes| && n < 10 && bytes[n] as int < 128 {
      ReaderTakes(bytes, 10, n);
      ReaderWorth(bytes, 10, n);
    }
  }

  // ---- 32 bits ----

  lemma Low32IsMasked(x: bv64)
    ensures VarInt.Low32(x) as bv64 == W.MaskedWord(x, W.Mask(32))
  {
  }

  lemma Power32()
    ensures Palette.Power(2, 32) == 0x1_0000_0000
  {
    assert Palette.Power(2, 8) == 0x100;
    Palette.PowerSum(2, 8, 8);
    Palette.PowerSum(2, 16, 16);
  }

  lemma Widened(x: bv32)
    ensures (x as bv64) as int == x as int
  {
  }

  lemma Low32Value(x: bv64)
    ensures VarInt.Low32(x) as int == W.Value(x) % 0x1_0000_0000
  {
    Low32IsMasked(x);
    W.MaskNumber(x, 32);
    W.NumberIsValue(x);
    W.NumberIsValue(W.MaskedWord(x, W.Mask(32)));
    Widened(VarInt.Low32(x));
    Power32();
  }

  lemma NarrowRemainder(all: nat)
    ensures all % 0x1_0000_0000_0000_0000 % 0x1_0000_0000 == all % 0x1_0000_0000
  {
  }

  /** The decoder of 32-bit integers takes at most five bytes. */
  lemma IntDecodes(bytes: seq<bv8>, n: nat)
    requires AllMarked(bytes, n)
    ensures n == 5 ==> VarInt.Decode(bytes) == Err(TooLarge)
    ensures n == |bytes| < 5 ==> VarInt.Decode(bytes) == Err(Incomplete)
    ensures n < |bytes| && n < 5 && bytes[n] as int < 128 ==>
      && VarInt.Decode(bytes).Ok? && VarInt.Decode(bytes).value.1 == bytes[n + 1..]
      && VarInt.Decode(bytes).value.0 as int == Worth(bytes[..n + 1]) % 0x1_0000_0000
  {
    if n <= 5 {
      ReaderFails(bytes, 5, n);
    }
    if n < |bytes| && n < 5 && bytes[n] as int < 128 {
      ReaderTakes(bytes, 5, n);
      ReaderWorth(bytes, 5, n);
      Low32Value(Value(bytes, 5).value.0);
      NarrowRemainder(Worth(bytes[..n + 1]));
    }
  }

  /** The encoding of a 32-bit integer is worth its pattern. */
  lemma IntWorth(x: bv32)
    ensures Worth(VarInt.Encode(x)) == x as int
    ensures forall k :: 0 <= k < |VarInt.Encode(x)| ==>
      (VarInt.Encode(x)[k] as int >= 128 <==> k < |VarInt.Encode(x)| - 1)
  {
    VarInt.EncodeIsLeb(x);
    LebIsWorth(VarInt.Pattern(x));
    Widened(x);
  }
}
