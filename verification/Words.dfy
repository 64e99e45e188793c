/** The bits and bytes of a 64-bit word. */
module Words {
  // ---- Counting bits ----

  function Halve(x: bv64): bv64 {
    x >> 1
  }

  /** The number of bits up to the highest one. A word of `w` bits has `w - BitLength` leading
      zeros. */
  function BitLength(x: bv64): nat
    decreases x
  {
    if x == 0 then 0 else 1 + BitLength(Halve(x))
  }

  function Halved(x: bv64, k: nat): bv64 {
    if k == 0 then x else Halved(Halve(x), k - 1)
  }

  lemma {:induction false} LengthHalved(x: bv64, k: nat)
    ensures Halved(x, k) == 0 ==> BitLength(x) <= k
    ensures Halved(x, k) != 0 ==> BitLength(x) == k + BitLength(Halved(x, k))
    decreases k
  {
    if k > 0 {
      LengthHalved(Halve(x), k - 1);
      if x == 0 {
        ZeroHalved(k);
      }
    }
  }

  lemma {:induction false} ZeroHalved(k: nat)
    ensures Halved(0, k) == 0
  {
    if k > 0 {
      ZeroHalved(k - 1);
    }
  }

  // ---- Bytes ----

  function LowByte(x: bv64): bv8 {
    (x & 0xFF) as bv8
  }

  function DropByte(x: bv64): bv64 {
    x >> 8
  }

  /** The low `n` bytes, lowest first. */
  function LeBytes(x: bv64, n: nat): (bytes: seq<bv8>)
    ensures |bytes| == n
  {
    if n == 0 then [] else [LowByte(x)] + LeBytes(DropByte(x), n - 1)
  }

  function ByteOf(x: bv64, k: nat): bv8 {
    if k == 0 then LowByte(x) else ByteOf(DropByte(x), k - 1)
  }

  lemma {:induction false} LeBytesAt(x: bv64, n: nat, k: nat)
    requires k < n
    ensures LeBytes(x, n)[k] == ByteOf(x, k)
  {
    assert LeBytes(x, n) == [LowByte(x)] + LeBytes(DropByte(x), n - 1);
    if k > 0 {
      LeBytesAt(DropByte(x), n - 1, k - 1);
    }
  }

  /** A byte below `high`. */
  function JoinByte(low: bv8, high: bv64): bv64 {
    (low as bv64) | (high << 8)
  }

  lemma EightHalves(x: bv64)
    ensures Halve(Halve(Halve(Halve(Halve(Halve(Halve(Halve(x)))))))) == DropByte(x)
  {
  }

  lemma LengthOfDrop(x: bv64)
    ensures DropByte(x) == 0 ==> BitLength(x) <= 8
    ensures DropByte(x) != 0 ==> BitLength(x) == 8 + BitLength(DropByte(x))
  {
    var x2 := Halve(Halve(x));
    var x4 := Halve(Halve(x2));
    var x6 := Halve(Halve(x4));
    assert Halved(x, 8) == Halved(x2, 6) == Halved(x4, 4) == Halved(x6, 2);
    assert Halved(x6, 2) == Halved(Halve(x6), 1) == Halve(Halve(x6));
    EightHalves(x);
    LengthHalved(x, 8);
  }

  lemma OrZero(byte: bv8)
    ensures byte | 0 == byte
  {
  }
}
