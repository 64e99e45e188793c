/** Byte strings, big-endian words and positioned writes on a file's contents. */
module Bytes {

  type byte = b: int | 0 <= b < 0x100

  type u32 = n: int | 0 <= n < 0x1_0000_0000

  // ---- Big-endian 32-bit words ----

  function Be16(v: int): (r: seq<byte>)
    requires 0 <= v < 0x1_0000
    ensures |r| == 2 && r[0] as int * 0x100 + r[1] == v
  {
    [v / 0x100, v % 0x100]
  }

  function Be32(v: u32): (r: seq<byte>)
    ensures |r| == 4
    ensures FromBe32(r) == v
  {
    Be16(v / 0x1_0000) + Be16(v % 0x1_0000)
  }

  function FromBe32(s: seq<byte>): u32
    requires |s| == 4
  {
    (s[0] as int * 0x100 + s[1]) * 0x1_0000 + (s[2] as int * 0x100 + s[3])
  }

  function Zeros(n: nat): (r: seq<byte>)
    ensures |r| == n
  {
    seq(n, _ => 0)
  }

  // ---- Positioned writes ----

  /** The contents of `file` after seeking to `at` and writing `data`.
      Writing past the end first extends the file with zeros. */
  function WriteAt(file: seq<byte>, at: nat, data: seq<byte>): seq<byte> {
    if data == [] then file
    else
      var base := if at <= |file| then file else file + Zeros(at - |file|);
      base[..at] + data + (if at + |data| <= |base| then base[at + |data|..] else [])
  }

  /** Byte by byte: the written range holds the data, the rest is as before, holes are zero. */
  lemma WriteAtMeans(file: seq<byte>, at: nat, data: seq<byte>)
    ensures var r := WriteAt(file, at, data);
      && |r| == (if data == [] || at + |data| <= |file| then |file| else at + |data|)
      && forall i :: 0 <= i < |r| ==>
           r[i] == if at <= i < at + |data| then data[i - at] else if i < |file| then file[i] else 0
  {
  }

  /** Two consecutive writes are one write of the concatenation. */
  lemma WriteAtConcat(file: seq<byte>, at: nat, a: seq<byte>, b: seq<byte>)
    requires a != []
    ensures WriteAt(WriteAt(file, at, a), at + |a|, b) == WriteAt(file, at, a + b)
  {
    var first := WriteAt(file, at, a);
    var both, whole := WriteAt(first, at + |a|, b), WriteAt(file, at, a + b);
    WriteAtMeans(file, at, a);
    WriteAtMeans(first, at + |a|, b);
    WriteAtMeans(file, at, a + b);
    assert |both| == |whole|;
    forall i | 0 <= i < |both| ensures both[i] == whole[i] {
    }
  }

  /** A write leaves every slice it does not overlap as it was. */
  lemma WriteAtFrame(file: seq<byte>, at: nat, data: seq<byte>, lo: nat, hi: nat)
    requires lo <= hi <= |file|
    requires hi <= at || at + |data| <= lo
    ensures |file| <= |WriteAt(file, at, data)|
    ensures at + |data| <= |file| ==> |WriteAt(file, at, data)| == |file|
    ensures WriteAt(file, at, data)[lo..hi] == file[lo..hi]
  {
    WriteAtMeans(file, at, data);
  }

  /** What was written is what is read back. */
  lemma WriteAtRead(file: seq<byte>, at: nat, data: seq<byte>)
    requires data != []
    ensures at + |data| <= |WriteAt(file, at, data)|
    ensures |file| <= |WriteAt(file, at, data)|
    ensures at + |data| <= |file| ==> |WriteAt(file, at, data)| == |file|
    ensures WriteAt(file, at, data)[at..at + |data|] == data
  {
    WriteAtMeans(file, at, data);
  }
}
