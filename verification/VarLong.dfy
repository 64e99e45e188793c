/** Variable-length encoding of 64-bit integers: the portable loop, the vector form, and decoding.
    All values are bit patterns, so the sign plays no part. */
module VarLong {
  import opened Leb128
  import opened LebReading
  import opened Wrappers

  const MAX_SIZE := 10

  // ---- The portable loop ----

  lemma GuardMeansLast(x: bv64)
    ensures x & 0xFFFF_FFFF_FFFF_FF80 == 0 <==> Rest(x) == 0
    ensures Rest(x) == 0 ==> x < 0x100
    ensures x & 0xFFFF_FFFF_FFFF_FF80 == 0 ==> x < 0x100 && x as bv8 == Low(x)
  {
  }

  method EncodePortable(x: bv64) returns (bytes: seq<bv8>)
    ensures bytes == Leb(x)
  {
    var val := x;
    bytes := [];
    while true
      invariant bytes + Leb(val) == Leb(x)
      decreases val
    {
      GuardMeansLast(val);
      if val & 0xFFFF_FFFF_FFFF_FF80 == 0 {
        bytes := bytes + [val as bv8];
        return;
      }
      bytes := bytes + [Low(val) | CONTINUE];
      val := Rest(val);
    }
  }

  // ---- Decoding ----

  function Decode(bytes: seq<bv8>): Decoded {
    Value(bytes, MAX_SIZE)
  }

  /** The loop: or in each byte's group at its place, and stop at a byte without continuation bit. */
  method DecodeLoop(bytes: seq<bv8>) returns (r: Decoded)
    ensures r == Decode(bytes)
  {
    var val: bv64, rest := 0, bytes;
    OrLaws(0, 0, 0);
    for i := 0 to MAX_SIZE
      invariant Decode(bytes) == Above(val, i, Value(rest, MAX_SIZE - i))
    {
      if rest == [] {
        return Err(Incomplete);
      }
      var byte := rest[0];
      ghost var tail := Value(rest[1..], MAX_SIZE - i - 1);
      AboveStep(val, i, byte, rest[1..], tail);
      rest := rest[1..];
      val := Or(val, Up(Data(byte), i));
      if byte & CONTINUE == 0 {
        return Ok((val, rest));
      }
    }
    return Err(TooLarge);
  }

  /** Decoding inverts encoding, reads exactly the encoded bytes, and these are at most ten. */
  lemma RoundTrip(x: bv64, suffix: seq<bv8>)
    ensures Decode(Leb(x) + suffix) == Ok((x, suffix))
    ensures |Leb(x)| <= MAX_SIZE
  {
    AllFit(x);
    LebLength(x, MAX_SIZE);
    ValueOfLeb(x, MAX_SIZE, suffix);
  }
}
