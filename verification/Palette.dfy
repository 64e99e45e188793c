/** The paletted cells of a chunk section: indices into a palette, packed into 64-bit words so that
    no index straddles two words. Words are numbers here, and a field is taken out by division and
    remainder; `PaletteWords.FieldBits` shows that shifting and masking the word gives the same. */
module Palette {
  import opened Wrappers

  // ---- Powers and widths ----

  function Power(base: nat, n: nat): nat {
    if n == 0 then 1 else base * Power(base, n - 1)
  }

  lemma {:induction false} PowerPositive(base: nat, n: nat)
    requires base > 0
    ensures Power(base, n) > 0
  {
    if n > 0 {
      PowerPositive(base, n - 1);
    }
  }

  lemma {:induction false} PowerSum(base: nat, m: nat, n: nat)
    ensures Power(base, m + n) == Power(base, m) * Power(base, n)
  {
    if m > 0 {
      PowerSum(base, m - 1, n);
      Associates(base, Power(base, m - 1), Power(base, n));
    }
  }

  lemma Associates(a: nat, b: nat, c: nat)
    ensures a * (b * c) == (a * b) * c
  {
  }

  lemma {:induction false} PowerGrows(m: nat, n: nat)
    requires m <= n
    ensures Power(2, m) <= Power(2, n)
  {
    if m < n {
      PowerGrows(m, n - 1);
    }
  }

  /** The number of bits of `n` up to its highest one. */
  function BitWidth(n: nat): nat {
    if n == 0 then 0 else 1 + BitWidth(n / 2)
  }

  /** It is the least width that can hold `n`. */
  lemma {:induction false} WidthIsLeast(n: nat, bits: nat)
    ensures BitWidth(n) <= bits <==> n < Power(2, bits)
  {
    if n > 0 && bits > 0 {
      WidthIsLeast(n / 2, bits - 1);
    } else if n == 0 {
      PowerPositive(2, bits);
    }
  }

  // ---- Sections ----

  datatype Shape = Shape(side: nat, minBits: nat) {
    function Cells(): nat {
      side * side * side
    }

    function Bits(paletteLen: nat): (bits: nat)
      requires paletteLen > 1
      ensures bits > 0
    {
      var width := BitWidth(paletteLen - 1);
      if width < minBits then minBits else width
    }
  }

  const BLOCKS := Shape(16, 4)
  const BIOMES := Shape(4, 0)

  datatype SectionError = BadPaletteLen | MissingData | BadLongCount | BadPaletteIndex

  function PerLong(bits: nat): nat
    requires bits > 0
  {
    64 / bits
  }

  function LongCount(cells: nat, bits: nat): nat
    requires 0 < bits <= 64
  {
    (cells + PerLong(bits) - 1) / PerLong(bits)
  }

  /** Shifted right by `k` bits. */
  function Shifted(n: nat, k: nat): nat {
    PowerPositive(2, k);
    n / Power(2, k)
  }

  /** The lowest `bits` bits. */
  function Masked(n: nat, bits: nat): nat {
    PowerPositive(2, bits);
    n % Power(2, bits)
  }

  /** Field `j` of a word. */
  function Field(word: nat, bits: nat, j: nat): nat {
    Masked(Shifted(word, bits * j), bits)
  }

  /** The packed index of cell `i`. */
  function IndexAt(data: seq<nat>, bits: nat, i: nat): nat
    requires 0 < bits <= 64
    requires i / PerLong(bits) < |data|
  {
    Field(data[i / PerLong(bits)], bits, i % PerLong(bits))
  }

  predicate Known(shape: Shape) {
    shape == BLOCKS || shape == BIOMES
  }

  lemma BitsBounded(shape: Shape, paletteLen: nat)
    requires Known(shape)
    requires 1 < paletteLen <= shape.Cells()
    ensures shape.Bits(paletteLen) <= 12
  {
    assert Power(2, 12) == 4096;
    WidthIsLeast(paletteLen - 1, 12);
  }

  ghost predicate AllIndicesBelow(data: seq<nat>, bits: nat, cells: nat, paletteLen: nat)
    requires 0 < bits <= 64
    requires |data| == LongCount(cells, bits)
  {
    forall i: nat :: i < cells ==> i / PerLong(bits) < |data| && IndexAt(data, bits, i) < paletteLen
  }

  /** Whether a section is accepted, and why not. */
  ghost function Verdict(paletteLen: nat, data: Option<seq<nat>>, shape: Shape): Option<SectionError>
    requires Known(shape)
  {
    if !(1 <= paletteLen < shape.Cells()) then Some(BadPaletteLen)
    else if paletteLen == 1 then None
    else if data.None? then Some(MissingData)
    else
      BitsBounded(shape, paletteLen);
      var bits := shape.Bits(paletteLen);
      if |data.value| != LongCount(shape.Cells(), bits) then Some(BadLongCount)
      else if AllIndicesBelow(data.value, bits, shape.Cells(), paletteLen) then None
      else Some(BadPaletteIndex)
  }

  /** The palette index of cell `i` in an accepted section. */
  ghost function CellIndex(paletteLen: nat, data: Option<seq<nat>>, shape: Shape, i: nat): (index: nat)
    requires Known(shape)
    requires Verdict(paletteLen, data, shape) == None
    requires i < shape.Cells()
    ensures index < paletteLen
  {
    if paletteLen == 1 then 0
    else
      BitsBounded(shape, paletteLen);
      IndexAt(data.value, shape.Bits(paletteLen), i)
  }

  // ---- Coordinates ----

  function X(i: nat, side: nat): nat
    requires side > 0
  {
    i % side
  }

  function Z(i: nat, side: nat): nat
    requires side > 0
  {
    i / side % side
  }

  function Y(i: nat, side: nat): nat
    requires side > 0
  {
    i / (side * side)
  }

  function Cell(x: nat, y: nat, z: nat, side: nat): nat {
    x + z * side + y * (side * side)
  }

  lemma Digits(d: nat, x: nat, y: nat, z: nat, i: nat)
    requires x < d && z < d
    requires i == x + z * d + y * (d * d)
    ensures i % d == x && i / d % d == z && i / (d * d) == y
  {
    assert z * d + y * (d * d) == (z + y * d) * d by {
      Associates(y, d, d);
      Distributes(z, y * d, d);
    }
    DivModUnique(i, d, z + y * d, x);
    DivModUnique(z + y * d, d, y, z);
    Smaller(x, z, d);
    DivModUnique(i, d * d, y, x + z * d);
  }

  lemma Distributes(a: nat, b: nat, c: nat)
    ensures (a + b) * c == a * c + b * c
  {
  }

  lemma Smaller(x: nat, z: nat, d: nat)
    requires x < d && z < d
    ensures x + z * d < d * d
  {
    Times(z + 1, d, d);
    Distributes(z, 1, d);
  }

  lemma Times(a: nat, b: nat, c: nat)
    requires a <= b
    ensures a * c <= b * c
  {
  }

  lemma DivModUnique(n: nat, d: nat, q: nat, r: nat)
    requires r < d && n == q * d + r
    ensures n / d == q && n % d == r
  {
    assert n == n / d * d + n % d;
    Unique(d, q, r, n / d, n % d);
  }

  lemma Unique(d: nat, q: nat, r: nat, q2: nat, r2: nat)
    requires r < d && r2 < d
    requires q * d + r == q2 * d + r2
    ensures q == q2 && r == r2
  {
    Distributes(q, 1, d);
    Distributes(q2, 1, d);
    if q < q2 {
      Times(q + 1, q2, d);
    } else if q2 < q {
      Times(q2 + 1, q, d);
    }
  }

  /** Splitting a number at two digits leaves nothing out. */
  lemma DigitsOf(d: nat, i: nat)
    requires d > 0
    ensures i == i % d + i / d % d * d + i / (d * d) * (d * d)
  {
    var x, q := i % d, i / d;
    var z, y := q % d, q / d;
    assert i == q * d + x;
    assert q == y * d + z;
    JoinDigits(d, x, y, z, q, i);
    Digits(d, x, y, z, i);
  }

  lemma JoinDigits(d: nat, x: nat, y: nat, z: nat, q: nat, i: nat)
    requires i == q * d + x && q == y * d + z
    ensures i == x + z * d + y * (d * d)
  {
    Distributes(y * d, z, d);
    Associates(y, d, d);
  }

  /** Counting cells and naming them by coordinates are inverse to each other, for both shapes. */
  lemma CellInverse(shape: Shape, i: nat)
    requires Known(shape)
    requires i < shape.Cells()
    ensures X(i, shape.side) < shape.side && Y(i, shape.side) < shape.side && Z(i, shape.side) < shape.side
    ensures Cell(X(i, shape.side), Y(i, shape.side), Z(i, shape.side), shape.side) == i
  {
    DigitsOf(shape.side, i);
    YBelow(shape.side, i);
  }

  lemma YBelow(side: nat, i: nat)
    requires side > 0 && i < side * side * side
    ensures Y(i, side) < side
  {
    DigitsOf(side, i);
    Associates(side, side, side);
    if Y(i, side) >= side {
      Times(side, Y(i, side), side * side);
    }
  }

  lemma CoordinatesInverse(shape: Shape, x: nat, y: nat, z: nat)
    requires Known(shape)
    requires x < shape.side && y < shape.side && z < shape.side
    ensures
      var i := Cell(x, y, z, shape.side);
      i < shape.Cells() && X(i, shape.side) == x && Y(i, shape.side) == y && Z(i, shape.side) == z
  {
    Digits(shape.side, x, y, z, Cell(x, y, z, shape.side));
    Smaller(x, z, shape.side);
    CellBelow(shape.side, x + z * shape.side, y);
  }

  lemma CellBelow(side: nat, within: nat, y: nat)
    requires within < side * side && y < side
    ensures within + y * (side * side) < side * side * side
  {
    Times(y + 1, side, side * side);
    Distributes(y, 1, side * side);
    Associates(side, side, side);
  }

  // ---- Reading ----

  /** The palette index of the cell at some coordinates. */
  ghost function IndexOf(paletteLen: nat, data: Option<seq<nat>>, shape: Shape, x: nat, y: nat, z: nat): (index: nat)
    requires Known(shape)
    requires Verdict(paletteLen, data, shape) == None
    requires x < shape.side && y < shape.side && z < shape.side
    ensures index < paletteLen
  {
    CoordinatesInverse(shape, x, y, z);
    CellIndex(paletteLen, data, shape, Cell(x, y, z, shape.side))
  }

  /** All cells hold what their indices say. */
  ghost predicate Filled<T>(palette: seq<T>, data: seq<nat>, bits: nat, shape: Shape, cells: array3<T>)
    requires Known(shape)
    requires cells.Length0 == cells.Length1 == cells.Length2 == shape.side
    requires 0 < bits <= 64 && |data| == LongCount(shape.Cells(), bits)
    reads cells
  {
    forall k: nat :: k < shape.Cells() ==>
      && k / PerLong(bits) < |data|
      && IndexAt(data, bits, k) < |palette|
      && Holds(cells, shape.side, k, palette[IndexAt(data, bits, k)])
  }

  ghost predicate HoldsAll<T>(cells: array3<T>, side: nat, values: seq<T>)
    requires side > 0
    requires cells.Length0 == cells.Length1 == cells.Length2 == side
    reads cells
  {
    forall k: nat :: k < |values| ==> Holds(cells, side, k, values[k])
  }

  /** What the indices of the first cells say. */
  ghost predicate Said<T>(palette: seq<T>, data: seq<nat>, bits: nat, values: seq<T>)
    requires 0 < bits <= 64
  {
    forall k: nat :: k < |values| ==>
      && k / PerLong(bits) < |data|
      && IndexAt(data, bits, k) < |palette|
      && values[k] == palette[IndexAt(data, bits, k)]
  }

  ghost predicate Holds<T>(cells: array3<T>, side: nat, k: nat, value: T)
    requires side > 0
    requires cells.Length0 == cells.Length1 == cells.Length2 == side
    reads cells
  {
    && X(k, side) < side && Y(k, side) < side && Z(k, side) < side
    && cells[X(k, side), Y(k, side), Z(k, side)] == value
  }

  lemma FieldPlace(perLong: nat, l: nat, j: nat)
    requires j < perLong
    ensures (l * perLong + j) / perLong == l
    ensures (l * perLong + j) % perLong == j
  {
    DivModUnique(l * perLong + j, perLong, l, j);
  }

  lemma FilledAt<T>(palette: seq<T>, data: seq<nat>, bits: nat, shape: Shape, cells: array3<T>,
                    x: nat, y: nat, z: nat)
    requires Known(shape)
    requires cells.Length0 == cells.Length1 == cells.Length2 == shape.side
    requires 0 < bits <= 64 && |data| == LongCount(shape.Cells(), bits)
    requires Filled(palette, data, bits, shape, cells)
    requires x < shape.side && y < shape.side && z < shape.side
    ensures
      var i := Cell(x, y, z, shape.side);
      && i / PerLong(bits) < |data|
      && IndexAt(data, bits, i) < |palette|
      && cells[x, y, z] == palette[IndexAt(data, bits, i)]
  {
    CoordinatesInverse(shape, x, y, z);
  }

  function Min(a: nat, b: nat): nat {
    if a < b then a else b
  }

  lemma CellsApart(shape: Shape, i: nat, k: nat)
    requires Known(shape)
    requires i < shape.Cells() && k < shape.Cells() && i != k
    ensures X(i, shape.side) != X(k, shape.side) || Y(i, shape.side) != Y(k, shape.side)
            || Z(i, shape.side) != Z(k, shape.side)
  {
    CellInverse(shape, i);
    CellInverse(shape, k);
  }

  /** Put `value` in cell `i`, after the cells that hold `values`. */
  method PutCell<T>(shape: Shape, ghost values: seq<T>, i: nat, value: T, cells: array3<T>)
    requires Known(shape)
    requires cells.Length0 == cells.Length1 == cells.Length2 == shape.side
    requires |values| == i < shape.Cells()
    requires HoldsAll(cells, shape.side, values)
    modifies cells
    ensures HoldsAll(cells, shape.side, values + [value])
  {
    CellInverse(shape, i);
    cells[X(i, shape.side), Y(i, shape.side), Z(i, shape.side)] := value;
    forall k: nat | k < i
      ensures Holds(cells, shape.side, k, values[k])
    {
      CellsApart(shape, k, i);
    }
  }

  method ReadLongs<T>(palette: seq<T>, data: seq<nat>, bits: nat, shape: Shape, cells: array3<T>)
    returns (r: Option<SectionError>)
    requires Known(shape)
    requires cells.Length0 == cells.Length1 == cells.Length2 == shape.side
    requires 0 < bits <= 64 && |data| == LongCount(shape.Cells(), bits)
    modifies cells
    ensures r == if AllIndicesBelow(data, bits, shape.Cells(), |palette|) then None else Some(BadPaletteIndex)
    ensures r == None ==> Filled(palette, data, bits, shape, cells)
  {
    var size, perLong := shape.Cells(), PerLong(bits);
    var i: nat := 0;
    ghost var values: seq<T> := [];
    for l := 0 to |data|
      invariant i == |values| == Min(l * perLong, size)
      invariant Said(palette, data, bits, values) && HoldsAll(cells, shape.side, values)
    {
      for j := 0 to perLong
        invariant i == |values| == Min(l * perLong + j, size)
        invariant Said(palette, data, bits, values) && HoldsAll(cells, shape.side, values)
      {
        if i >= size {
          break;
        }
        FieldPlace(perLong, l, j);
        var index := Field(data[l], bits, j);
        if index >= |palette| {
          return Some(BadPaletteIndex);
        }
        PutCell(shape, values, i, palette[index], cells);
        values := values + [palette[index]];
        i := i + 1;
      }
      NextLong(l, perLong);
    }
    LongsSuffice(size, bits);
    return None;
  }

  lemma NextLong(l: nat, perLong: nat)
    ensures (l + 1) * perLong == l * perLong + perLong
  {
  }

  lemma LongsSuffice(cells: nat, bits: nat)
    requires 0 < bits <= 64
    ensures LongCount(cells, bits) * PerLong(bits) >= cells
  {
  }

  method ReadSection<T>(palette: seq<T>, data: Option<seq<nat>>, shape: Shape, cells: array3<T>)
    returns (r: Option<SectionError>)
    requires Known(shape)
    requires cells.Length0 == cells.Length1 == cells.Length2 == shape.side
    modifies cells
    ensures r == Verdict(|palette|, data, shape)
    ensures r == None ==>
      forall x, y, z :: 0 <= x < shape.side && 0 <= y < shape.side && 0 <= z < shape.side ==>
        cells[x, y, z] == palette[IndexOf(|palette|, data, shape, x, y, z)]
  {
    var size := shape.Cells();
    if !(1 <= |palette| < size) {
      return Some(BadPaletteLen);
    }
    if |palette| == 1 {
      forall x, y, z | 0 <= x < shape.side && 0 <= y < shape.side && 0 <= z < shape.side {
        cells[x, y, z] := palette[0];
      }
      return None;
    }
    if data.None? {
      return Some(MissingData);
    }
    BitsBounded(shape, |palette|);
    var bits := shape.Bits(|palette|);
    if |data.value| != LongCount(size, bits) {
      return Some(BadLongCount);
    }
    r := ReadLongs(palette, data.value, bits, shape, cells);
    if r == None {
      forall x, y, z | 0 <= x < shape.side && 0 <= y < shape.side && 0 <= z < shape.side
        ensures cells[x, y, z] == palette[IndexOf(|palette|, data, shape, x, y, z)]
      {
        FilledAt(palette, data.value, bits, shape, cells, x, y, z);
      }
    }
  }

  // ---- Packing ----

  /** Indices in one word, the first lowest. */
  function PackWord(indices: seq<nat>, bits: nat): nat {
    if indices == [] then 0 else indices[0] + Power(2, bits) * PackWord(indices[1..], bits)
  }

  function Pack(indices: seq<nat>, bits: nat): seq<nat>
    requires 0 < bits <= 64
    decreases |indices|
  {
    if indices == [] then []
    else if |indices| <= PerLong(bits) then [PackWord(indices, bits)]
    else [PackWord(indices[..PerLong(bits)], bits)] + Pack(indices[PerLong(bits)..], bits)
  }

  predicate AllBelow(indices: seq<nat>, bound: nat) {
    forall k :: 0 <= k < |indices| ==> indices[k] < bound
  }

  /** A word holds no more than 64 bits. */
  lemma {:induction false} PackWordBound(indices: seq<nat>, bits: nat)
    requires AllBelow(indices, Power(2, bits))
    ensures PackWord(indices, bits) < Power(2, bits * |indices|)
  {
    if indices != [] {
      PackWordBound(indices[1..], bits);
      OneMoreField(bits, |indices| - 1);
      DigitBelow(indices[0], Power(2, bits), PackWord(indices[1..], bits), Power(2, bits * (|indices| - 1)));
    }
  }

  lemma OneMoreField(bits: nat, n: nat)
    ensures Power(2, bits * (n + 1)) == Power(2, bits) * Power(2, bits * n)
  {
    Times(0, n, bits);
    assert bits * (n + 1) == bits + bits * n;
    PowerSum(2, bits, bits * n);
  }

  lemma DigitBelow(low: nat, base: nat, high: nat, bound: nat)
    requires low < base && high < bound
    ensures low + base * high < base * bound
  {
    Times(high + 1, bound, base);
    Distributes(high, 1, base);
  }

  /** Field `j` of a packed word is index `j`. */
  lemma {:induction false} FieldOfPack(indices: seq<nat>, bits: nat, j: nat)
    requires AllBelow(indices, Power(2, bits))
    requires j < |indices|
    ensures Field(PackWord(indices, bits), bits, j) == indices[j]
  {
    var base, high := Power(2, bits), PackWord(indices[1..], bits);
    DivModUnique(PackWord(indices, bits), base, high, indices[0]);
    if j > 0 {
      FieldOfPack(indices[1..], bits, j - 1);
      FieldStep(PackWord(indices, bits), bits, j);
    }
  }

  lemma ShiftTwice(word: nat, bits: nat, j: nat)
    requires j > 0
    ensures Power(2, bits) > 0 && Power(2, bits * (j - 1)) > 0 && Power(2, bits * j) > 0
    ensures word / Power(2, bits) / Power(2, bits * (j - 1)) == word / Power(2, bits * j)
  {
    PowerPositive(2, bits);
    PowerPositive(2, bits * (j - 1));
    PowerPositive(2, bits * j);
    OneMoreField(bits, j - 1);
    DivTwice(word, Power(2, bits), Power(2, bits * (j - 1)), Power(2, bits * j));
  }

  lemma FieldStep(word: nat, bits: nat, j: nat)
    requires j > 0
    requires Power(2, bits) > 0
    ensures Field(word, bits, j) == Field(word / Power(2, bits), bits, j - 1)
  {
    ShiftTwice(word, bits, j);
  }

  lemma DivTwice(n: nat, a: nat, b: nat, c: nat)
    requires a > 0 && b > 0 && c > 0 && c == a * b
    ensures n / a / b == n / c
  {
    var m, s := n / a, n % a;
    var q, r := m / b, m % b;
    assert n == m * a + s;
    assert m == q * b + r;
    TwoDigits(n, a, b, c, m, s, q, r);
    DivModUnique(n, c, q, r * a + s);
  }

  lemma TwoDigits(n: nat, a: nat, b: nat, c: nat, m: nat, s: nat, q: nat, r: nat)
    requires n == m * a + s && s < a
    requires m == q * b + r && r < b
    requires c == a * b
    ensures n == q * c + (r * a + s)
    ensures r * a + s < c
  {
    Times(r + 1, b, a);
    Distributes(r, 1, a);
    Distributes(q * b, r, a);
    Associates(q, b, a);
  }

  lemma OneLess(n: nat, d: nat)
    requires n >= d > 0
    ensures n / d == (n - d) / d + 1 && n % d == (n - d) % d
  {
    var q, r := (n - d) / d, (n - d) % d;
    assert n - d == q * d + r;
    Distributes(q, 1, d);
    DivModUnique(n, d, q + 1, r);
  }

  lemma Small(n: nat, d: nat)
    requires n < d
    ensures n / d == 0 && n % d == n
  {
    DivModUnique(n, d, 0, n);
  }

  /** Packing takes as many words as a section expects. */
  lemma {:induction false} PackCount(indices: seq<nat>, bits: nat)
    requires 0 < bits <= 64
    ensures |Pack(indices, bits)| == LongCount(|indices|, bits)
    decreases |indices|
  {
    CountLongs(|indices|, bits);
    if |indices| > PerLong(bits) {
      PackCount(indices[PerLong(bits)..], bits);
    }
  }

  lemma CountLongs(cells: nat, bits: nat)
    requires 0 < bits <= 64
    ensures cells == 0 ==> LongCount(cells, bits) == 0
    ensures 0 < cells <= PerLong(bits) ==> LongCount(cells, bits) == 1
    ensures cells > PerLong(bits) ==> LongCount(cells, bits) == 1 + LongCount(cells - PerLong(bits), bits)
  {
    var per := PerLong(bits);
    if cells == 0 {
      Small(per - 1, per);
    } else {
      OneLess(cells + per - 1, per);
      if cells <= per {
        Small(cells - 1, per);
      }
    }
  }

  /** Unpacking finds every index again. */
  lemma {:induction false} PackIndex(indices: seq<nat>, bits: nat, i: nat)
    requires 0 < bits <= 64
    requires AllBelow(indices, Power(2, bits))
    requires i < |indices|
    ensures i / PerLong(bits) < |Pack(indices, bits)|
    ensures IndexAt(Pack(indices, bits), bits, i) == indices[i]
    decreases |indices|
  {
    var per := PerLong(bits);
    if i < per {
      Small(i, per);
      if |indices| <= per {
        FieldOfPack(indices, bits, i);
      } else {
        FieldOfPack(indices[..per], bits, i);
      }
    } else {
      PackIndex(indices[per..], bits, i - per);
      NextWord(Pack(indices, bits), bits, i);
      assert Pack(indices, bits)[1..] == Pack(indices[per..], bits);
    }
  }

  lemma NextWord(data: seq<nat>, bits: nat, i: nat)
    requires 0 < bits <= 64
    requires data != [] && i >= PerLong(bits)
    requires (i - PerLong(bits)) / PerLong(bits) < |data[1..]|
    ensures i / PerLong(bits) < |data|
    ensures IndexAt(data, bits, i) == IndexAt(data[1..], bits, i - PerLong(bits))
  {
    OneLess(i, PerLong(bits));
  }

  // ---- Reading back what was packed ----

  /** Every word fits in 64 bits. */
  lemma {:induction false} PackFits(indices: seq<nat>, bits: nat, l: nat)
    requires 0 < bits <= 64
    requires AllBelow(indices, Power(2, bits))
    requires l < |Pack(indices, bits)|
    ensures Pack(indices, bits)[l] < Power(2, 64)
    decreases |indices|
  {
    var per := PerLong(bits);
    if l > 0 {
      PackFits(indices[per..], bits, l - 1);
    } else {
      var first := if |indices| <= per then indices else indices[..per];
      PackWordBound(first, bits);
      WordBits(bits, |first|);
      PowerGrows(bits * |first|, 64);
    }
  }

  lemma WordBits(bits: nat, n: nat)
    requires 0 < bits <= 64 && n <= PerLong(bits)
    ensures bits * n <= 64
  {
    Times(n, PerLong(bits), bits);
  }

  /** What is stored for a section: nothing but the palette when there is one entry. */
  function Stored(paletteLen: nat, indices: seq<nat>, shape: Shape): Option<seq<nat>>
    requires Known(shape) && 1 <= paletteLen <= shape.Cells()
  {
    if paletteLen == 1 then None
    else
      BitsBounded(shape, paletteLen);
      Some(Pack(indices, shape.Bits(paletteLen)))
  }

  /** The width is enough for every index of the palette. */
  lemma WidthSuffices(paletteLen: nat, indices: seq<nat>, shape: Shape)
    requires paletteLen > 1 && AllBelow(indices, paletteLen)
    ensures AllBelow(indices, Power(2, shape.Bits(paletteLen)))
  {
    var width := BitWidth(paletteLen - 1);
    WidthIsLeast(paletteLen - 1, width);
    PowerGrows(width, shape.Bits(paletteLen));
  }

  lemma PackedVerdict(paletteLen: nat, indices: seq<nat>, shape: Shape)
    requires Known(shape) && 1 < paletteLen < shape.Cells()
    requires |indices| == shape.Cells() && AllBelow(indices, paletteLen)
    ensures Verdict(paletteLen, Stored(paletteLen, indices, shape), shape) == None
    ensures forall i: nat :: i < shape.Cells() ==>
      CellIndex(paletteLen, Stored(paletteLen, indices, shape), shape, i) == indices[i]
  {
    BitsBounded(shape, paletteLen);
    WidthSuffices(paletteLen, indices, shape);
    var bits := shape.Bits(paletteLen);
    PackCount(indices, bits);
    forall i: nat | i < shape.Cells()
      ensures i / PerLong(bits) < |Pack(indices, bits)|
      ensures IndexAt(Pack(indices, bits), bits, i) == indices[i]
    {
      PackIndex(indices, bits, i);
    }
  }

  /** What was stored is read back cell by cell, exactly when the palette has fewer entries than the
      section has cells; a palette with an entry for every cell is refused. */
  lemma ReadsBack(paletteLen: nat, indices: seq<nat>, shape: Shape)
    requires Known(shape) && 1 <= paletteLen <= shape.Cells()
    requires |indices| == shape.Cells() && AllBelow(indices, paletteLen)
    ensures Verdict(paletteLen, Stored(paletteLen, indices, shape), shape) == None
            <==> paletteLen < shape.Cells()
    ensures paletteLen < shape.Cells() ==>
      forall i: nat :: i < shape.Cells() ==>
        CellIndex(paletteLen, Stored(paletteLen, indices, shape), shape, i) == indices[i]
  {
    if 1 < paletteLen < shape.Cells() {
      PackedVerdict(paletteLen, indices, shape);
    }
  }
}
