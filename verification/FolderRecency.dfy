/** Which regions a folder keeps open: those used last. */
module FolderRecency {
  import opened RegionModel
  import opened FolderModel

  /** How many uses ago a region was used; `used` names the latest use first. */
  function Age(used: seq<RegionPos>, region: RegionPos): nat
    requires region in used
  {
    if used[0] == region then 0 else 1 + Age(used[1..], region)
  }

  /** The cache holds each of the last `capacity` regions used, the latest first, and no other. */
  ghost predicate Recent<V>(cache: Lru<V>, capacity: nat, used: seq<RegionPos>) {
    && |cache| <= capacity
    && (forall i :: 0 <= i < |cache| ==> cache[i].0 in used)
    && (forall i, j :: 0 <= i < j < |cache| ==> Younger(used, cache[i].0, cache[j].0))
    && (forall region :: region in used && !Holds(cache, region) ==>
          |cache| == capacity && forall i :: 0 <= i < |cache| ==> Younger(used, cache[i].0, region))
  }

  ghost predicate Younger(used: seq<RegionPos>, a: RegionPos, b: RegionPos) {
    a in used && b in used && Age(used, a) < Age(used, b)
  }

  ghost predicate Holds<V>(cache: Lru<V>, region: RegionPos) {
    exists i :: 0 <= i < |cache| && cache[i].0 == region
  }

  /** The regions used, the latest first. An operation on a region that fails to open is not a use. */
  function Uses(f: Folder, codec: Codec, ops: seq<Operation>): seq<RegionPos>
    decreases |ops|
  {
    if ops == [] then []
    else
      Uses(Step(f, codec, ops[0]).1, codec, ops[1..]) + Use(f, RegionOf(ops[0].pos))
  }

  function Use(f: Folder, region: RegionPos): seq<RegionPos> {
    if Fetch(f, region).0.Ok? then [region] else []
  }

  // ---- Without ----

  /** What is left are the other entries in their order. */
  lemma {:induction false} WithoutMeans<V>(cache: Lru<V>, region: RegionPos, used: seq<RegionPos>)
    requires forall i, j :: 0 <= i < j < |cache| ==> Younger(used, cache[i].0, cache[j].0)
    ensures
      var rest := Without(cache, region);
      && (forall i :: 0 <= i < |rest| ==> rest[i].0 != region && Holds(cache, rest[i].0))
      && (forall i, j :: 0 <= i < j < |rest| ==> Younger(used, rest[i].0, rest[j].0))
      && (forall key :: Holds(cache, key) && key != region ==> Holds(rest, key))
      && |rest| == if Holds(cache, region) then |cache| - 1 else |cache|
  {
    if cache != [] {
      var first, tail := cache[0], cache[1..];
      WithoutMeans(tail, region, used);
      var rest := Without(tail, region);
      forall key
        ensures Holds(cache, key) <==> first.0 == key || Holds(tail, key)
        ensures Holds([first] + rest, key) <==> first.0 == key || Holds(rest, key)
      {
        HoldsCons(first, tail, key);
        HoldsCons(first, rest, key);
      }
    }
  }

  lemma HoldsCons<V>(first: (RegionPos, V), tail: Lru<V>, key: RegionPos)
    ensures Holds([first] + tail, key) <==> first.0 == key || Holds(tail, key)
  {
    var all := [first] + tail;
    assert all[0] == first;
    if i :| 0 <= i < |tail| && tail[i].0 == key {
      assert all[i + 1].0 == key;
    }
  }

  // ---- A use ----

  /** `later` are the uses so far with `region` the latest. */
  ghost predicate UsedNow(used: seq<RegionPos>, later: seq<RegionPos>, region: RegionPos) {
    && later != [] && later[0] == region
    && (later == used || later == [region] + used)
  }

  lemma AgeAfter(used: seq<RegionPos>, later: seq<RegionPos>, region: RegionPos, a: RegionPos, b: RegionPos)
    requires UsedNow(used, later, region)
    ensures Younger(used, a, b) && a != region && b != region ==> Younger(later, a, b)
    ensures a in used && a != region ==> Younger(later, region, a)
  {
    if later != used {
      assert later[1..] == used;
    }
  }

  /** Inserting or replacing the entry of a region just used. */
  lemma PutRecent<V>(cache: Lru<V>, capacity: nat, region: RegionPos, entry: V, used: seq<RegionPos>,
                     later: seq<RegionPos>)
    requires Recent(cache, capacity, used) && UsedNow(used, later, region) && capacity > 0
    ensures Recent(Put(cache, capacity, region, entry), capacity, later)
  {
    var rest := Without(cache, region);
    var all := [(region, entry)] + rest;
    var kept := Put(cache, capacity, region, entry);
    WithoutMeans(cache, region, used);
    forall i, j | 0 <= i < j < |all|
      ensures Younger(later, all[i].0, all[j].0)
    {
      AgeAfter(used, later, region, all[i].0, all[j].0);
      AgeAfter(used, later, region, all[j].0, all[j].0);
    }
    forall key | key in later && !Holds(kept, key)
      ensures |kept| == capacity && forall i :: 0 <= i < |kept| ==> Younger(later, kept[i].0, key)
    {
      PutEvicts(cache, capacity, region, entry, used, later, key);
    }
  }

  /** A region used that is not kept was used before all that are. */
  lemma PutEvicts<V>(cache: Lru<V>, capacity: nat, region: RegionPos, entry: V, used: seq<RegionPos>,
                     later: seq<RegionPos>, key: RegionPos)
    requires Recent(cache, capacity, used) && UsedNow(used, later, region) && capacity > 0
    requires key in later && !Holds(Put(cache, capacity, region, entry), key)
    ensures
      var kept := Put(cache, capacity, region, entry);
      |kept| == capacity && forall i :: 0 <= i < |kept| ==> Younger(later, kept[i].0, key)
  {
    var rest := Without(cache, region);
    var all := [(region, entry)] + rest;
    var kept := Put(cache, capacity, region, entry);
    WithoutMeans(cache, region, used);
    assert kept[0].0 == region;
    if Holds(cache, key) {
      var m :| 0 <= m < |rest| && rest[m].0 == key;
      assert all[m + 1].0 == key;
      forall i | 0 <= i < |kept|
        ensures all[i].0 != key
      {
        assert kept[i] == all[i];
      }
      assert m + 1 >= |kept|;
    }
    forall i | 0 <= i < |kept|
      ensures Younger(later, kept[i].0, key)
    {
      assert kept[i] == all[i];
      AgeAfter(used, later, region, kept[i].0, key);
      AgeAfter(used, later, region, key, key);
    }
  }

  // ---- Runs ----

  lemma StepRecent(f: Folder, codec: Codec, op: Operation, used: seq<RegionPos>)
    requires Recent(f.cache, f.capacity, used) && f.capacity > 0
    ensures
      var region, g := RegionOf(op.pos), Step(f, codec, op).1;
      && g.capacity == f.capacity
      && Recent(g.cache, g.capacity, Use(f, region) + used)
  {
    var region := RegionOf(op.pos);
    var later := [region] + used;
    var (fetched, g) := Fetch(f, region);
    if fetched.Err? {
      assert [] + used == used;
    } else {
      FetchRecent(f, region, used);
      forall entry: Entry
        ensures Recent(Put(g.cache, g.capacity, region, entry), g.capacity, later)
      {
        PutRecent(g.cache, g.capacity, region, entry, later, later);
      }
    }
  }

  lemma FetchRecent(f: Folder, region: RegionPos, used: seq<RegionPos>)
    requires Recent(f.cache, f.capacity, used) && f.capacity > 0 && Fetch(f, region).0.Ok?
    ensures
      var g := Fetch(f, region).1;
      g.capacity == f.capacity && Recent(g.cache, g.capacity, [region] + used)
  {
    forall entry: Entry
      ensures Recent(Put(f.cache, f.capacity, region, entry), f.capacity, [region] + used)
    {
      PutRecent(f.cache, f.capacity, region, entry, used, [region] + used);
    }
  }

  lemma {:induction false} RunRecent(f: Folder, codec: Codec, ops: seq<Operation>, used: seq<RegionPos>)
    requires Recent(f.cache, f.capacity, used) && f.capacity > 0
    ensures
      var g := Run(f, codec, ops).1;
      g.capacity == f.capacity && Recent(g.cache, g.capacity, Uses(f, codec, ops) + used)
    decreases |ops|
  {
    if ops == [] {
      assert [] + used == used;
    } else {
      var use, g := Use(f, RegionOf(ops[0].pos)), Step(f, codec, ops[0]).1;
      StepRecent(f, codec, ops[0], used);
      RunRecent(g, codec, ops[1..], use + used);
      RunUnfolds(f, codec, ops, g);
      Associates(Uses(g, codec, ops[1..]), use, used);
    }
  }

  lemma RunUnfolds(f: Folder, codec: Codec, ops: seq<Operation>, g: Folder)
    requires ops != [] && g == Step(f, codec, ops[0]).1
    ensures Run(f, codec, ops).1 == Run(g, codec, ops[1..]).1
    ensures Uses(f, codec, ops) == Uses(g, codec, ops[1..]) + Use(f, RegionOf(ops[0].pos))
  {
  }

  lemma Associates(a: seq<RegionPos>, b: seq<RegionPos>, c: seq<RegionPos>)
    ensures (a + b) + c == a + (b + c)
  {
  }

  /** After any run the open regions are those used last, as many as there is room for, the latest first. */
  lemma EveryRunRecent(disk: Disk, capacity: nat, codec: Codec, ops: seq<Operation>)
    requires capacity > 0
    ensures
      var f := Folder(disk, [], capacity);
      Recent(Run(f, codec, ops).1.cache, capacity, Uses(f, codec, ops))
  {
    var f := Folder(disk, [], capacity);
    RunRecent(f, codec, ops, []);
    assert Uses(f, codec, ops) + [] == Uses(f, codec, ops);
  }
}
