/** The byte cache of an entity's initial tracked data: entries one after another and a terminator,
    with a table of the entries' lengths. It stands for a map from indices to entries. */
module TrackedData {
  import opened Bytes
  import opened Wrappers

  const TERMINATOR: byte := 0xFF

  /** The bytes of an entry, its index and type among them. */
  datatype Entry = Entry(index: byte, bytes: seq<byte>) {
    predicate Valid() {
      2 <= |bytes| < 0x1_0000_0000 && bytes[0] == index
    }
  }

  // ---- The cache as a list of entries ----

  function Concat(entries: seq<Entry>): seq<byte> {
    if entries == [] then [] else entries[0].bytes + Concat(entries[1..])
  }

  predicate Distinct(entries: seq<Entry>) {
    forall i, j :: 0 <= i < j < |entries| ==> entries[i].index != entries[j].index
  }

  /** Where `index` is first found, or the length. */
  function Position(entries: seq<Entry>, index: byte): (pos: nat)
    ensures pos <= |entries|
    ensures pos < |entries| ==> entries[pos].index == index
  {
    if entries == [] || entries[0].index == index then 0 else 1 + Position(entries[1..], index)
  }

  lemma {:induction false} PositionIsFirst(entries: seq<Entry>, index: byte, k: nat)
    requires k < |entries| && entries[k].index == index
    ensures Position(entries, index) <= k
  {
    if entries[0].index != index {
      PositionIsFirst(entries[1..], index, k - 1);
    }
  }

  ghost function AsMap(entries: seq<Entry>): map<byte, seq<byte>> {
    map index: byte | 0 <= index < 256 && Position(entries, index) < |entries| ::
      entries[Position(entries, index)].bytes
  }

  function Without(entries: seq<Entry>, pos: nat): seq<Entry>
    requires pos < |entries|
  {
    entries[..pos] + entries[pos + 1..]
  }

  /** The list without the entry of that index, the others in their order. */
  function Removed(entries: seq<Entry>, index: byte): seq<Entry> {
    var pos := Position(entries, index);
    if pos < |entries| then Without(entries, pos) else entries
  }

  lemma {:induction false} ConcatSplit(a: seq<Entry>, b: seq<Entry>)
    ensures Concat(a + b) == Concat(a) + Concat(b)
  {
    if a == [] {
      assert a + b == b;
    } else {
      assert (a + b)[1..] == a[1..] + b;
      ConcatSplit(a[1..], b);
    }
  }

  lemma AsMapAt(entries: seq<Entry>, k: nat)
    requires Distinct(entries) && k < |entries|
    ensures entries[k].index in AsMap(entries) && AsMap(entries)[entries[k].index] == entries[k].bytes
  {
    PositionIsFirst(entries, entries[k].index, k);
  }

  lemma NotFound(entries: seq<Entry>, index: byte)
    requires forall k :: 0 <= k < |entries| ==> entries[k].index != index
    ensures index !in AsMap(entries) && AsMap(entries) - {index} == AsMap(entries)
    ensures Removed(entries, index) == entries
  {
  }

  lemma FoundAt(entries: seq<Entry>, index: byte, pos: nat)
    requires pos < |entries| && entries[pos].index == index
    requires forall k :: 0 <= k < pos ==> entries[k].index != index
    ensures Removed(entries, index) == Without(entries, pos)
  {
    PositionIsFirst(entries, index, pos);
  }

  lemma StaysIn(entries: seq<Entry>, pos: nat, k: nat)
    requires Distinct(entries) && pos < |entries|
    requires k < |entries| && k != pos
    ensures Distinct(Without(entries, pos))
    ensures entries[k].index != entries[pos].index
    ensures entries[k].index in AsMap(Without(entries, pos))
    ensures AsMap(Without(entries, pos))[entries[k].index] == entries[k].bytes
  {
    var left, j := Without(entries, pos), if k < pos then k else k - 1;
    assert left[j] == entries[k];
    AsMapAt(left, j);
  }

  /** Taking an entry out of the list takes its index out of the map. */
  lemma RemoveMeans(entries: seq<Entry>, pos: nat)
    requires Distinct(entries) && pos < |entries|
    ensures Distinct(Without(entries, pos))
    ensures AsMap(Without(entries, pos)) == AsMap(entries) - {entries[pos].index}
  {
    var left := Without(entries, pos);
    var a, b := AsMap(left), AsMap(entries) - {entries[pos].index};
    forall index | index in a ensures index in b && a[index] == b[index] {
      var j := Position(left, index);
      var k := if j < pos then j else j + 1;
      assert left[j] == entries[k];
      StaysIn(entries, pos, k);
      AsMapAt(entries, k);
    }
    forall index | index in b ensures index in a {
      StaysIn(entries, pos, Position(entries, index));
    }
  }

  lemma StaysAt(entries: seq<Entry>, entry: Entry, k: nat)
    requires Distinct(entries + [entry]) && k < |entries|
    ensures entries[k].index in AsMap(entries + [entry])
    ensures AsMap(entries + [entry])[entries[k].index] == entries[k].bytes
  {
    assert (entries + [entry])[k] == entries[k];
    AsMapAt(entries + [entry], k);
  }

  /** Appending an entry with a new index adds it to the map. */
  lemma AppendMeans(entries: seq<Entry>, entry: Entry)
    requires Distinct(entries) && entry.index !in AsMap(entries)
    ensures Distinct(entries + [entry])
    ensures AsMap(entries + [entry]) == AsMap(entries)[entry.index := entry.bytes]
  {
    forall k: nat | k < |entries| ensures entries[k].index != entry.index {
      AsMapAt(entries, k);
    }
    var more := entries + [entry];
    var a, b := AsMap(more), AsMap(entries)[entry.index := entry.bytes];
    assert more[|entries|] == entry;
    AsMapAt(more, |entries|);
    forall index | index in a ensures index in b && a[index] == b[index] {
      var k := Position(more, index);
      if k < |entries| {
        StaysAt(entries, entry, k);
        AsMapAt(entries, k);
      }
    }
    forall index | index in b && index != entry.index ensures index in a {
      StaysAt(entries, entry, Position(entries, index));
    }
  }

  lemma EmptyMap(entries: seq<Entry>)
    requires Distinct(entries)
    ensures AsMap(entries) == map[] <==> entries == []
  {
    if entries != [] {
      AsMapAt(entries, 0);
    }
  }

  // ---- The cache ----

  /** The bytes and the table of lengths stand for `entries`. Before the first insertion there is no
      terminator. */
  ghost predicate StandFor(data: seq<byte>, table: seq<(byte, int)>, entries: seq<Entry>) {
    && (forall k :: 0 <= k < |entries| ==> entries[k].Valid())
    && Distinct(entries)
    && |table| == |entries|
    && (forall k :: 0 <= k < |entries| ==> table[k] == (entries[k].index, |entries[k].bytes|))
    && (data == Concat(entries) + [TERMINATOR] || (data == [] && entries == []))
  }

  lemma ConcatNext(entries: seq<Entry>, pos: nat)
    requires pos < |entries|
    ensures Concat(entries[..pos + 1]) == Concat(entries[..pos]) + entries[pos].bytes
  {
    assert entries[..pos + 1] == entries[..pos] + [entries[pos]];
    ConcatSplit(entries[..pos], [entries[pos]]);
    assert Concat([entries[pos]]) == entries[pos].bytes + [];
  }

  /** An entry's bytes lie between those of the entries before and after it. */
  lemma Split(entries: seq<Entry>, pos: nat)
    requires pos < |entries|
    ensures Concat(entries) == Concat(entries[..pos]) + entries[pos].bytes + Concat(entries[pos + 1..])
  {
    assert entries == entries[..pos + 1] + entries[pos + 1..];
    ConcatSplit(entries[..pos + 1], entries[pos + 1..]);
    ConcatNext(entries, pos);
  }

  lemma Cut(data: seq<byte>, before: seq<byte>, middle: seq<byte>, after: seq<byte>)
    requires data == before + middle + after + [TERMINATOR]
    ensures data[..|before|] + data[|before| + |middle|..] == before + after + [TERMINATOR]
  {
  }

  lemma Drain(data: seq<byte>, table: seq<(byte, int)>, entries: seq<Entry>, pos: nat, start: nat)
    requires StandFor(data, table, entries) && pos < |entries|
    requires start == |Concat(entries[..pos])|
    ensures start + table[pos].1 <= |data|
    ensures StandFor(data[..start] + data[start + table[pos].1..], table[..pos] + table[pos + 1..],
                     Without(entries, pos))
    ensures AsMap(Without(entries, pos)) == AsMap(entries) - {entries[pos].index}
    ensures entries[pos].index in AsMap(entries)
  {
    Split(entries, pos);
    RemoveMeans(entries, pos);
    AsMapAt(entries, pos);
    ConcatSplit(entries[..pos], entries[pos + 1..]);
    Cut(data, Concat(entries[..pos]), entries[pos].bytes, Concat(entries[pos + 1..]));
    WithoutLengths(table, entries, pos);
  }

  lemma WithoutLengths(table: seq<(byte, int)>, entries: seq<Entry>, pos: nat)
    requires pos < |table| == |entries|
    requires forall k :: 0 <= k < |entries| ==> entries[k].Valid()
    requires forall k :: 0 <= k < |entries| ==> table[k] == (entries[k].index, |entries[k].bytes|)
    ensures var left, short := Without(entries, pos), table[..pos] + table[pos + 1..];
      && |short| == |left|
      && forall k :: 0 <= k < |left| ==> left[k].Valid() && short[k] == (left[k].index, |left[k].bytes|)
  {
    var left, short := Without(entries, pos), table[..pos] + table[pos + 1..];
    forall k | 0 <= k < |left|
      ensures left[k].Valid() && short[k] == (left[k].index, |left[k].bytes|)
    {
      var j := if k < pos then k else k + 1;
      assert left[k] == entries[j] && short[k] == table[j];
    }
  }

  /** Removing the last byte, if there is one. */
  function Pop(data: seq<byte>): seq<byte> {
    if data == [] then [] else data[..|data| - 1]
  }

  lemma Popped(data: seq<byte>, table: seq<(byte, int)>, entries: seq<Entry>)
    requires StandFor(data, table, entries)
    ensures Pop(data) == Concat(entries)
  {
  }

  lemma Extend(data: seq<byte>, table: seq<(byte, int)>, entries: seq<Entry>, entry: Entry)
    requires StandFor(data, table, entries)
    requires entry.Valid() && entry.index !in AsMap(entries)
    ensures StandFor(Pop(data) + entry.bytes + [TERMINATOR], table + [(entry.index, |entry.bytes|)], entries + [entry])
    ensures AsMap(entries + [entry]) == AsMap(entries)[entry.index := entry.bytes]
  {
    Popped(data, table, entries);
    AppendMeans(entries, entry);
    ConcatSplit(entries, [entry]);
    assert Concat([entry]) == entry.bytes + [];
  }

  lemma Replaced(m: map<byte, seq<byte>>, index: byte, bytes: seq<byte>)
    ensures (m - {index})[index := bytes] == m[index := bytes]
  {
  }

  class TrackedData {
    var initData: seq<byte>
    var initEntries: seq<(byte, int)>
    /** The entries in the cache. */
    ghost var entries: seq<Entry>

    ghost predicate Valid()
      reads this
    {
      StandFor(initData, initEntries, entries)
    }

    ghost function Map(): map<byte, seq<byte>>
      reads this
    {
      AsMap(entries)
    }

    constructor ()
      ensures Valid() && Map() == map[] && initData == []
    {
      initData, initEntries, entries := [], [], [];
      EmptyMap([]);
    }

    /** What is sent to a client that starts to see the entity. */
    function InitData(): (data: Option<seq<byte>>)
      requires Valid()
      reads this
      ensures data == if Map() == map[] then None else Some(Concat(entries) + [0xFF])
    {
      EmptyMap(entries);
      if |initData| > 1 then Some(initData) else None
    }

    method RemoveInitValue(index: byte) returns (found: bool)
      requires Valid()
      modifies this
      ensures Valid()
      ensures found <==> index in old(Map())
      ensures Map() == old(Map()) - {index}
      ensures entries == Removed(old(entries), index)
    {
      var start := 0;
      for pos := 0 to |initEntries|
        invariant initEntries == old(initEntries) && initData == old(initData) && entries == old(entries)
        invariant start == |Concat(entries[..pos])|
        invariant forall k :: 0 <= k < pos ==> entries[k].index != index
      {
        var (idx, len) := initEntries[pos];
        if idx == index {
          FoundAt(entries, index, pos);
          Drain(initData, initEntries, entries, pos, start);
          var end := start + len;
          initData := initData[..start] + initData[end..];
          initEntries := initEntries[..pos] + initEntries[pos + 1..];
          entries := Without(entries, pos);
          return true;
        }
        ConcatNext(entries, pos);
        start := start + len;
      }
      NotFound(entries, index);
      return false;
    }

    /** `encoded` is what encoding the value wrote, complete or not. The entry goes last. */
    method InsertInitValue(index: byte, typeId: byte, encoded: seq<byte>)
      requires Valid()
      requires index != TERMINATOR
      requires |encoded| + 2 < 0x1_0000_0000
      modifies this
      ensures Valid()
      ensures Map() == old(Map())[index := [index, typeId] + encoded]
      ensures entries == Removed(old(entries), index) + [Entry(index, [index, typeId] + encoded)]
    {
      var _ := RemoveInitValue(index);
      ghost var entry := Entry(index, [index, typeId] + encoded);
      Extend(initData, initEntries, entries, entry);
      Replaced(old(Map()), index, entry.bytes);
      initData := Pop(initData);
      var lenBefore := |initData|;
      initData := initData + ([index, typeId] + encoded);
      var len := |initData| - lenBefore;
      initEntries := initEntries + [(index, len)];
      initData := initData + [TERMINATOR];
      entries := entries + [entry];
    }
  }
}
