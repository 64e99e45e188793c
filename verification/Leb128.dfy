/** Unsigned LEB128 (section 7.6 of DWARF Version 5) of 64-bit patterns: seven bits at a time, lowest
    first, every byte but the last carrying the continuation bit. */
module Leb128 {
  import opened Words

  const CONTINUE: bv8 := 0x80

  /** The lowest seven bits. */
  function Low(x: bv64): bv8 {
    (x & 0x7F) as bv8
  }

  function Rest(x: bv64): bv64 {
    x >> 7
  }

  /** One group up; bits pushed past the top are lost. */
  function Raise(x: bv64): bv64 {
    x << 7
  }

  function Or(x: bv64, y: bv64): bv64 {
    x | y
  }

  /** The seven data bits of a byte. */
  function Data(byte: bv8): bv64 {
    (byte & 0x7F) as bv64
  }

  /** A byte's group below `high`. */
  function Join(byte: bv8, high: bv64): bv64 {
    Or(Data(byte), Raise(high))
  }

  function Leb(x: bv64): (bytes: seq<bv8>)
    ensures bytes != []
    decreases x
  {
    if Rest(x) == 0 then [Low(x)] else [Low(x) | CONTINUE] + Leb(Rest(x))
  }

  lemma LowFacts(x: bv64)
    ensures Low(x) & CONTINUE == 0
    ensures (Low(x) | CONTINUE) & CONTINUE != 0
  {
  }

  lemma LowData(x: bv64)
    ensures Data(Low(x)) == Data(Low(x) | CONTINUE) == x & 0x7F
  {
  }

  lemma LowAndRest(x: bv64)
    ensures Or(x & 0x7F, Raise(Rest(x))) == x
  {
  }

  lemma JoinLow(x: bv64)
    ensures Join(Low(x), Rest(x)) == x
    ensures Join(Low(x) | CONTINUE, Rest(x)) == x
  {
    LowData(x);
    LowAndRest(x);
  }

  /** At most `n` groups of seven bits are needed. */
  predicate FitsIn(x: bv64, n: nat) {
    if n == 0 then x == 0 else FitsIn(Rest(x), n - 1)
  }

  function Rest3(x: bv64): bv64 {
    Rest(Rest(Rest(x)))
  }

  lemma NoneLeft(x: bv64)
    ensures Rest(Rest3(Rest3(Rest3(x)))) == 0
  {
  }

  lemma FitsThree(x: bv64, n: nat)
    requires FitsIn(Rest3(x), n)
    ensures FitsIn(x, n + 3)
  {
    assert FitsIn(Rest(Rest(x)), n + 1);
    assert FitsIn(Rest(x), n + 2);
  }

  lemma AllFit(x: bv64)
    ensures FitsIn(x, 10)
  {
    var x3 := Rest3(x);
    var x6 := Rest3(x3);
    var x9 := Rest3(x6);
    assert FitsIn(x9, 1) by {
      NoneLeft(x);
      assert FitsIn(Rest(x9), 0);
    }
    FitsThree(x6, 1);
    FitsThree(x3, 4);
    FitsThree(x, 7);
  }

  lemma {:induction false} ZeroFits(n: nat)
    ensures FitsIn(0, n)
  {
    if n > 0 {
      ZeroFits(n - 1);
    }
  }

  /** The encoding has as many bytes as there are groups up to the highest that is not zero, and one
      byte for zero. */
  lemma {:induction false} LebLength(x: bv64, n: nat)
    requires n >= 1
    ensures |Leb(x)| <= n <==> FitsIn(x, n)
  {
    if n > 1 {
      if Rest(x) == 0 {
        ZeroFits(n - 1);
      } else {
        LebLength(Rest(x), n - 1);
      }
    } else {
      assert FitsIn(x, 1) <==> FitsIn(Rest(x), 0);
    }
  }

  /** The `k`-th group of seven bits. */
  function Group(x: bv64, k: nat): bv8 {
    if k == 0 then Low(x) else Group(Rest(x), k - 1)
  }

  /** The bytes of the encoding are the groups, all but the last marked. */
  lemma {:induction false} LebGroups(x: bv64, k: nat)
    requires k < |Leb(x)|
    ensures Leb(x)[k] == if k == |Leb(x)| - 1 then Group(x, k) else Group(x, k) | CONTINUE
  {
    if k > 0 {
      LebGroups(Rest(x), k - 1);
    }
  }

  lemma {:induction false} ZeroGroups(k: nat)
    ensures Group(0, k) == 0
  {
    if k > 0 {
      ZeroGroups(k - 1);
    }
  }

  lemma LowOfLast(x: bv64)
    requires x != 0 && Rest(x) == 0
    ensures Low(x) != 0
  {
  }

  /** The encoding ends at the highest group that is not zero, or at the first. */
  lemma {:induction false} LebTop(x: bv64)
    ensures |Leb(x)| == 1 || Group(x, |Leb(x)| - 1) != 0
  {
    if Rest(x) != 0 {
      LebTop(Rest(x));
      if Rest(Rest(x)) == 0 {
        LowOfLast(Rest(x));
      }
    }
  }

  lemma {:induction false} LebEnds(x: bv64, k: nat)
    requires k >= |Leb(x)|
    ensures Group(x, k) == 0
  {
    if Rest(x) == 0 {
      ZeroGroups(k - 1);
    } else {
      LebEnds(Rest(x), k - 1);
    }
  }

  // ---- Length ----

  lemma SevenHalves(x: bv64)
    ensures Halve(Halve(Halve(Halve(Halve(Halve(Halve(x))))))) == Rest(x)
  {
  }

  lemma SevenHalved(x: bv64)
    ensures Halved(x, 7) == Rest(x)
  {
    var x2 := Halve(Halve(x));
    var x4 := Halve(Halve(x2));
    var x6 := Halve(Halve(x4));
    assert Halved(x, 7) == Halved(x2, 5) == Halved(x4, 3) == Halved(x6, 1) == Halve(x6);
    SevenHalves(x);
  }

  lemma LengthOfRest(x: bv64)
    ensures Rest(x) == 0 ==> BitLength(x) <= 7
    ensures Rest(x) != 0 ==> BitLength(x) == 7 + BitLength(Rest(x))
  {
    SevenHalved(x);
    LengthHalved(x, 7);
  }

  /** One byte for zero, and otherwise one for every seven bits begun. */
  function WrittenSize(x: bv64): nat {
    if x == 0 then 1 else (BitLength(x) - 1) / 7 + 1
  }

  lemma {:induction false} WrittenSizeIsLength(x: bv64)
    ensures WrittenSize(x) == |Leb(x)|
    decreases x
  {
    LengthOfRest(x);
    if Rest(x) != 0 {
      WrittenSizeIsLength(Rest(x));
    }
  }
}
