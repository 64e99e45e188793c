/** The format of paletted sections in plain numbers: how wide the indices are, how many longs a section has, and
    which bits of which long belong to a cell. */
module PaletteFormat {
  import opened Wrappers
  import opened Palette

  /** How wide an index is, how many a long holds, and how many longs there are. */
  datatype Layout = Layout(bits: nat, perLong: nat, longs: nat)

  /** Of a section of 4096 blocks, by the length of its palette. Four bits are the least. */
  function BlockLayout(n: nat): Layout {
    if n <= 16 then Layout(4, 16, 256)
    else if n <= 32 then Layout(5, 12, 342)
    else if n <= 64 then Layout(6, 10, 410)
    else if n <= 128 then Layout(7, 9, 456)
    else if n <= 256 then Layout(8, 8, 512)
    else if n <= 512 then Layout(9, 7, 586)
    else if n <= 1024 then Layout(10, 6, 683)
    else if n <= 2048 then Layout(11, 5, 820)
    else Layout(12, 5, 820)
  }

  /** Of a section of 64 biomes. */
  function BiomeLayout(n: nat): Layout {
    if n <= 2 then Layout(1, 64, 1)
    else if n <= 4 then Layout(2, 32, 2)
    else if n <= 8 then Layout(3, 21, 4)
    else if n <= 16 then Layout(4, 16, 4)
    else if n <= 32 then Layout(5, 12, 6)
    else Layout(6, 10, 7)
  }

  /** The `bits` bits of a long from `bits * j` on. */
  function BitsAt(long: nat, bits: nat, j: nat): nat {
    PowerPositive(2, bits * j);
    PowerPositive(2, bits);
    long / Power(2, bits * j) % Power(2, bits)
  }

  lemma FieldIsBits(long: nat, bits: nat, j: nat)
    ensures Field(long, bits, j) == BitsAt(long, bits, j)
  {
  }

  /** The verdict on a section, by its layout. */
  ghost function Judged(n: nat, data: Option<seq<nat>>, cells: nat, layout: Layout): Option<SectionError>
    requires layout.perLong > 0
  {
    if n == 0 || n >= cells then Some(BadPaletteLen)
    else if n == 1 then None
    else if data.None? then Some(MissingData)
    else if |data.value| != layout.longs then Some(BadLongCount)
    else if AllBitsBelow(data.value, layout.bits, layout.perLong, cells, n) then None
    else Some(BadPaletteIndex)
  }

  // ---- Widths ----

  lemma Powers()
    ensures Power(2, 0) == 1 && Power(2, 1) == 2 && Power(2, 2) == 4 && Power(2, 3) == 8 && Power(2, 4) == 16
    ensures Power(2, 5) == 32 && Power(2, 6) == 64 && Power(2, 7) == 128 && Power(2, 8) == 256
    ensures Power(2, 9) == 512 && Power(2, 10) == 1024 && Power(2, 11) == 2048 && Power(2, 12) == 4096
  {
  }

  lemma WidthBetween(n: nat, b: nat)
    requires n > 1 && b > 0 && Power(2, b - 1) < n <= Power(2, b)
    ensures BitWidth(n - 1) == b
  {
    WidthIsLeast(n - 1, b);
    WidthIsLeast(n - 1, b - 1);
  }

  lemma BlockBits(n: nat)
    requires 1 < n < 4096
    ensures BLOCKS.Bits(n) == BlockLayout(n).bits
  {
    Powers();
    if n <= 16 {
      WidthIsLeast(n - 1, 4);
    } else {
      WidthBetween(n, BlockLayout(n).bits);
    }
  }

  lemma BiomeBits(n: nat)
    requires 1 < n < 64
    ensures BIOMES.Bits(n) == BiomeLayout(n).bits
  {
    Powers();
    WidthBetween(n, BiomeLayout(n).bits);
  }

  lemma BlockLongs(n: nat)
    ensures var l := BlockLayout(n); PerLong(l.bits) == l.perLong && LongCount(4096, l.bits) == l.longs
  {
  }

  lemma BiomeLongs(n: nat)
    ensures var l := BiomeLayout(n); PerLong(l.bits) == l.perLong && LongCount(64, l.bits) == l.longs
  {
  }

  /** The indices of the first cells are all below `n`. */
  predicate AllBitsBelow(data: seq<nat>, bits: nat, perLong: nat, cells: nat, n: nat)
    requires perLong > 0
  {
    forall i: nat :: i < cells ==> BitsBelow(data, bits, perLong, i, n)
  }

  lemma IndexIsBits(data: seq<nat>, bits: nat, perLong: nat, i: nat)
    requires 0 < bits <= 64 && perLong == PerLong(bits) > 0 && i / perLong < |data|
    ensures IndexAt(data, bits, i) == BitsAt(data[i / perLong], bits, i % perLong)
  {
    FieldIsBits(data[i / perLong], bits, i % perLong);
  }

  predicate BitsBelow(data: seq<nat>, bits: nat, perLong: nat, i: nat, n: nat)
    requires perLong > 0
  {
    i / perLong < |data| && BitsAt(data[i / perLong], bits, i % perLong) < n
  }

  lemma BelowAt(data: seq<nat>, bits: nat, perLong: nat, i: nat, n: nat)
    requires 0 < bits <= 64 && perLong == PerLong(bits) > 0
    ensures i / PerLong(bits) < |data| && IndexAt(data, bits, i) < n <==> BitsBelow(data, bits, perLong, i, n)
  {
    if i / perLong < |data| {
      IndexIsBits(data, bits, perLong, i);
    }
  }

  lemma BelowIff(data: seq<nat>, bits: nat, perLong: nat, cells: nat, n: nat)
    requires 0 < bits <= 64 && perLong == PerLong(bits) > 0 && |data| == LongCount(cells, bits)
    ensures AllIndicesBelow(data, bits, cells, n) <==> AllBitsBelow(data, bits, perLong, cells, n)
  {
    forall i: nat
      ensures i / PerLong(bits) < |data| && IndexAt(data, bits, i) < n <==> BitsBelow(data, bits, perLong, i, n)
    {
      BelowAt(data, bits, perLong, i, n);
    }
  }

  // ---- Sections ----

  /** A block section is judged by the table of block layouts. */
  lemma BlocksJudged(n: nat, data: Option<seq<nat>>)
    ensures Verdict(n, data, BLOCKS) == Judged(n, data, 4096, BlockLayout(n))
  {
    if 1 < n < 4096 && data.Some? {
      var l := BlockLayout(n);
      BlockBits(n);
      BlockLongs(n);
      if |data.value| == l.longs {
        BelowIff(data.value, l.bits, l.perLong, 4096, n);
      }
    }
  }

  /** A biome section is judged by the table of biome layouts. */
  lemma BiomesJudged(n: nat, data: Option<seq<nat>>)
    ensures Verdict(n, data, BIOMES) == Judged(n, data, 64, BiomeLayout(n))
  {
    if 1 < n < 64 && data.Some? {
      var l := BiomeLayout(n);
      BiomeBits(n);
      BiomeLongs(n);
      if |data.value| == l.longs {
        BelowIff(data.value, l.bits, l.perLong, 64, n);
      }
    }
  }

  /** Block (x, y, z) of an accepted section is number `x + 16 z + 256 y`. */
  lemma BlockAt(n: nat, data: Option<seq<nat>>, x: nat, y: nat, z: nat)
    requires Verdict(n, data, BLOCKS) == None && x < 16 && y < 16 && z < 16
    ensures var i, l := x + 16 * z + 256 * y, BlockLayout(n);
      if n == 1 then IndexOf(n, data, BLOCKS, x, y, z) == 0
      else
        && data.Some? && i / l.perLong < |data.value|
        && IndexOf(n, data, BLOCKS, x, y, z) == BitsAt(data.value[i / l.perLong], l.bits, i % l.perLong)
  {
    BlocksJudged(n, data);
    if n > 1 {
      BlockBits(n);
      BlockLongs(n);
      IndexIsBits(data.value, BlockLayout(n).bits, BlockLayout(n).perLong, x + 16 * z + 256 * y);
    }
  }

  /** Biome (x, y, z) of an accepted section is number `x + 4 z + 16 y`. */
  lemma BiomeAt(n: nat, data: Option<seq<nat>>, x: nat, y: nat, z: nat)
    requires Verdict(n, data, BIOMES) == None && x < 4 && y < 4 && z < 4
    ensures var i, l := x + 4 * z + 16 * y, BiomeLayout(n);
      if n == 1 then IndexOf(n, data, BIOMES, x, y, z) == 0
      else
        && data.Some? && i / l.perLong < |data.value|
        && IndexOf(n, data, BIOMES, x, y, z) == BitsAt(data.value[i / l.perLong], l.bits, i % l.perLong)
  {
    BiomesJudged(n, data);
    if n > 1 {
      BiomeBits(n);
      BiomeLongs(n);
      IndexIsBits(data.value, BiomeLayout(n).bits, BiomeLayout(n).perLong, x + 4 * z + 16 * y);
    }
  }
}
