/** Reading unsigned LEB128: what a run of bytes says, and the step of a loop that reads it. */
module LebReading {
  import opened Leb128
  import opened Wrappers

  datatype DecodeError = Incomplete | TooLarge

  /** A value and the bytes left unread. */
  type Decoded = Result<(bv64, seq<bv8>), DecodeError>

  /** What at most `n` bytes say. */
  function Value(bytes: seq<bv8>, n: nat): Decoded {
    if n == 0 then Err(TooLarge)
    else if bytes == [] then Err(Incomplete)
    else if bytes[0] & CONTINUE == 0 then Ok((Join(bytes[0], 0), bytes[1..]))
    else
      match Value(bytes[1..], n - 1)
      case Err(e) => Err(e)
      case Ok(d) => Ok((Join(bytes[0], d.0), d.1))
  }

  lemma {:induction false} ValueOfLeb(x: bv64, n: nat, suffix: seq<bv8>)
    requires n > 0 && FitsIn(x, n)
    ensures Value(Leb(x) + suffix, n) == Ok((x, suffix))
  {
    var bytes := Leb(x) + suffix;
    LowFacts(x);
    JoinLow(x);
    if Rest(x) == 0 {
      assert bytes[1..] == suffix;
    } else {
      assert bytes[1..] == Leb(Rest(x)) + suffix;
      ValueOfLeb(Rest(x), n - 1, suffix);
    }
  }

  // ---- Reading in a loop ----

  /** `x` moved up by `i` groups. */
  function Up(x: bv64, i: nat): bv64 {
    if i == 0 then x else Raise(Up(x, i - 1))
  }

  lemma OrUnderRaise(a: bv64, b: bv64)
    ensures Raise(Or(a, b)) == Or(Raise(a), Raise(b))
  {
  }

  lemma OrLaws(a: bv64, b: bv64, c: bv64)
    ensures Or(Or(a, b), c) == Or(a, Or(b, c))
    ensures Or(a, 0) == a == Or(0, a)
  {
  }

  lemma {:induction false} UpZero(i: nat)
    ensures Up(0, i) == 0
  {
    if i > 0 {
      UpZero(i - 1);
    }
  }

  lemma UpUnfolds(x: bv64, i: nat)
    ensures Up(x, i + 1) == Raise(Up(x, i))
  {
  }

  lemma {:induction false} UpOr(low: bv64, high: bv64, i: nat)
    ensures Up(Or(low, Raise(high)), i) == Or(Up(low, i), Up(high, i + 1))
  {
    if i == 0 {
      UpUnfolds(high, 0);
    } else {
      UpUnfolds(low, i - 1);
      UpUnfolds(high, i);
      UpUnfolds(Or(low, Raise(high)), i - 1);
      UpOr(low, high, i - 1);
      OrUnderRaise(Up(low, i - 1), Up(high, i));
    }
  }

  /** What has been read so far, with `d` put above its `i` groups. */
  function Above(val: bv64, i: nat, d: Decoded): Decoded {
    match d
    case Err(e) => Err(e)
    case Ok(value) => Ok((Or(val, Up(value.0, i)), value.1))
  }

  lemma AboveStep(val: bv64, i: nat, byte: bv8, left: seq<bv8>, tail: Decoded)
    ensures Above(val, i, Ok((Join(byte, 0), left))) == Ok((Or(val, Up(Data(byte), i)), left))
    ensures tail.Ok? ==>
              Above(val, i, Ok((Join(byte, tail.value.0), tail.value.1)))
              == Above(Or(val, Up(Data(byte), i)), i + 1, tail)
  {
    UpOr(Data(byte), 0, i);
    UpZero(i + 1);
    OrLaws(val, Up(Data(byte), i), 0);
    OrLaws(Up(Data(byte), i), 0, 0);
    if tail.Ok? {
      UpOr(Data(byte), tail.value.0, i);
      OrLaws(val, Up(Data(byte), i), Up(tail.value.0, i + 1));
    }
  }
}
