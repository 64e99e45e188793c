/** What a click does to the number of items, of all kinds together and of each kind, and where the
    stacks come from that it produces. */
module ClickLaws {
  import opened Wrappers
  import opened Items
  import opened Clicks

  // ---- Slots named more than once ----

  /** No slot is named twice. The validator does not check this. */
  ghost predicate DistinctSlots(p: ClickPacket) {
    forall j, k :: 0 <= j < k < |p.changes| ==> p.changes[j].idx != p.changes[k].idx
  }

  /** No later change names the same slot; this is the one that counts. */
  predicate IsLast(p: ClickPacket, k: nat)
    requires k < |p.changes|
  {
    forall j :: k < j < |p.changes| ==> p.changes[j].idx != p.changes[k].idx
  }

  predicate LastIn(changes: seq<SlotChange>, k: nat)
    requires k < |changes|
  {
    forall j :: k < j < |changes| ==> changes[j].idx != changes[k].idx
  }

  // ---- Applying changes, by the books ----

  /** What the changes from the `i`-th on come to: each slot named counts once, by its last change. */
  function FinalDelta(m: Measure, w: Window, changes: seq<SlotChange>, i: nat): int
    requires w.Valid() && i <= |changes|
    requires forall k :: 0 <= k < |changes| ==> w.Names(changes[k].idx)
    decreases |changes| - i
  {
    if i == |changes| then 0
    else
      assert w.Names(changes[i].idx);
      (if LastIn(changes, i) then changes[i].stack.Of(m) - w.Slot(changes[i].idx).Of(m) else 0)
      + FinalDelta(m, w, changes, i + 1)
  }

  ghost predicate NamedFrom(changes: seq<SlotChange>, i: nat, idx: int) {
    exists k :: i <= k < |changes| && changes[k].idx == idx
  }

  /** Windows that differ in one slot differ in what the changes come to by that slot, if it is named. */
  lemma {:induction false} FinalDeltaShift(m: Measure, w: Window, v: Window, changes: seq<SlotChange>, i: nat, idx: nat)
    requires w.Valid() && v.Valid() && i <= |changes|
    requires forall k :: 0 <= k < |changes| ==> w.Names(changes[k].idx) && v.Names(changes[k].idx)
    requires w.Names(idx) && v.Names(idx)
    requires forall other: nat :: w.Names(other) && v.Names(other) && other != idx ==> v.Slot(other) == w.Slot(other)
    ensures FinalDelta(m, v, changes, i) == FinalDelta(m, w, changes, i)
            + if NamedFrom(changes, i, idx) then w.Slot(idx).Of(m) - v.Slot(idx).Of(m) else 0
    decreases |changes| - i
  {
    if i < |changes| {
      FinalDeltaShift(m, w, v, changes, i + 1, idx);
      NamedStep(changes, i, idx);
      assert w.Names(changes[i].idx);
    }
  }

  lemma NamedStep(changes: seq<SlotChange>, i: nat, idx: int)
    requires i < |changes|
    ensures NamedFrom(changes, i, idx) <==> changes[i].idx == idx || NamedFrom(changes, i + 1, idx)
    ensures changes[i].idx == idx ==> (LastIn(changes, i) <==> !NamedFrom(changes, i + 1, idx))
  {
  }

  /** The sequence of writes changes every count by what its last changes come to. */
  lemma {:induction false} ApplyTotal(m: Measure, w: Window, changes: seq<SlotChange>, i: nat)
    requires w.Valid() && i <= |changes|
    requires forall k :: 0 <= k < |changes| ==> w.Names(changes[k].idx)
    ensures Apply(w, changes[i..]).Count(m) == w.Count(m) + FinalDelta(m, w, changes, i)
    decreases |changes| - i
  {
    if i < |changes| {
      var idx, stack := changes[i].idx, changes[i].stack;
      assert w.Names(idx);
      var v := w.SetSlot(idx, stack);
      SetSlotEffect(m, w, idx, stack);
      assert changes[i..][1..] == changes[i + 1..];
      ApplyTotal(m, v, changes, i + 1);
      FinalDeltaShift(m, w, v, changes, i + 1, idx);
      NamedStep(changes, i, idx);
    }
  }

  // ---- What a packet puts where ----

  /** What the `k`-th change puts into its slot, by the packet and the state before: the stack that it
      names; but a double click keeps the kind of the slot. */
  function Put(p: ClickPacket, w: Window, k: nat, m: Measure): nat
    requires w.Valid() && Readable(p, w) && k < |p.changes|
  {
    var hashed, current := p.changes[k].stack, w.Slot(p.changes[k].idx);
    if p.mode != DoubleClick then hashed.Of(m)
    else if hashed.IsEmpty() || current.item == Air || !m.Covers(current.item) then 0
    else hashed.count
  }

  /** What ends up on the cursor: the stack that the packet names; but a click on the margin leaves the
      cursor alone. */
  function Carried(p: ClickPacket, cursor: ItemStack, m: Measure): nat {
    if p.mode == Click && p.slotIdx == -1 then cursor.Of(m) else p.carried.Of(m)
  }

  /** Modes whose changes are carried out. */
  predicate CarriesOut(p: ClickPacket) {
    p.mode != CreativeMiddleClick && p.mode != DropKey && !(p.mode == Click && p.slotIdx == SLOT_OUTSIDE)
  }

  lemma RecountOf(source: ItemStack, hashed: HashedStack, m: Measure)
    requires Recount(source, hashed).Some?
    ensures Recount(source, hashed).value.Of(m) == hashed.Of(m)
  {
  }

  lemma ChangeItems(p: ClickPacket, w: Window, cursor: ItemStack, k: nat, m: Measure)
    requires w.Valid() && Readable(p, w) && k < |p.changes|
    requires Guard(p, w, cursor) && CarriesOut(p)
    requires UnhashChange(p, w, cursor, k).Some?
    ensures UnhashChange(p, w, cursor, k).value.Of(m) == Put(p, w, k, m)
  {
    var hashed, current := p.changes[k].stack, w.Slot(p.changes[k].idx);
    match p.mode
    case Click =>
      if IsSwap(p, w, cursor) {
        assert SameStack(hashed, cursor);
      } else if Recount(cursor, hashed).Some? {
        RecountOf(cursor, hashed, m);
      } else if Recount(current, hashed).Some? {
        RecountOf(current, hashed, m);
      }
    case ShiftClick =>
      assert !hashed.IsEmpty() ==> hashed.item == w.Slot(p.slotIdx).item;
    case Hotbar =>
      if !hashed.IsEmpty() {
        RecountOf(w.Slot(p.changes[1 - k].idx), hashed, m);
      }
    case Drag =>
      if Recount(cursor, hashed).Some? {
        RecountOf(cursor, hashed, m);
      } else {
        RecountOf(current, hashed, m);
      }
    case _ =>
  }

  lemma {:induction false} FindSourceOf(p: ClickPacket, w: Window, from: nat, m: Measure)
    requires w.Valid() && Readable(p, w) && from <= |p.changes| && !p.carried.IsEmpty()
    ensures FindSource(p, w, from).Some? ==> FindSource(p, w, from).value.Of(m) == p.carried.Of(m)
    decreases |p.changes| - from
  {
    if from < |p.changes| {
      FindSourceOf(p, w, from + 1, m);
    }
  }

  lemma CursorItems(p: ClickPacket, w: Window, cursor: ItemStack, m: Measure)
    requires w.Valid() && Readable(p, w) && Guard(p, w, cursor) && CarriesOut(p)
    requires UnhashCursor(p, w, cursor).Some?
    ensures UnhashCursor(p, w, cursor).value.Of(m) == Carried(p, cursor, m)
  {
    if p.mode == DoubleClick && !p.carried.IsEmpty() {
      FindSourceOf(p, w, 0, m);
    }
  }

  // ---- The balance of a packet ----

  function SlotsBalance(p: ClickPacket, w: Window, m: Measure, i: nat): int
    requires w.Valid() && Readable(p, w) && i <= |p.changes|
    decreases |p.changes| - i
  {
    if i == |p.changes| then 0
    else (if IsLast(p, i) then Put(p, w, i, m) - w.Slot(p.changes[i].idx).Of(m) else 0)
         + SlotsBalance(p, w, m, i + 1)
  }

  /** What the packet, if it is carried out, comes to: known from the packet and the state before. */
  function Balance(p: ClickPacket, w: Window, cursor: ItemStack, m: Measure): int
    requires w.Valid() && Readable(p, w)
  {
    SlotsBalance(p, w, m, 0) + Carried(p, cursor, m) - cursor.Of(m)
  }

  lemma {:induction false} FinalIsBalance(p: ClickPacket, w: Window, cursor: ItemStack, changes: seq<SlotChange>,
                                          m: Measure, i: nat)
    requires w.Valid() && Readable(p, w) && i <= |p.changes| == |changes|
    requires Guard(p, w, cursor) && CarriesOut(p)
    requires forall k :: 0 <= k < |changes| ==>
      && changes[k].idx == p.changes[k].idx && w.Names(changes[k].idx)
      && UnhashChange(p, w, cursor, k) == Some(changes[k].stack)
    ensures FinalDelta(m, w, changes, i) == SlotsBalance(p, w, m, i)
    decreases |p.changes| - i
  {
    if i < |p.changes| {
      FinalIsBalance(p, w, cursor, changes, m, i + 1);
      ChangeItems(p, w, cursor, i, m);
      assert LastIn(changes, i) <==> IsLast(p, i) by {
        assert forall j :: 0 <= j < |changes| ==> changes[j].idx == p.changes[j].idx;
      }
    }
  }

  /** Carried out, a packet changes every count by exactly its balance. */
  lemma AppliedTotal(p: ClickPacket, w: Window, cursor: ItemStack, verdict: Verdict, m: Measure)
    requires w.Valid() && !CheckPanics(p, w, cursor) && CarriesOut(p)
    requires Validate(p, w, cursor) == Some(verdict)
    ensures Readable(p, w)
    ensures forall k :: 0 <= k < |verdict.changes| ==> w.Names(verdict.changes[k].idx)
    ensures Apply(w, verdict.changes).Count(m) + verdict.cursor.Of(m) ==
            w.Count(m) + cursor.Of(m) + Balance(p, w, cursor, m)
  {
    UnhashedNames(p, w, cursor, |p.changes|);
    assert verdict.changes[0..] == verdict.changes;
    ApplyTotal(m, w, verdict.changes, 0);
    FinalIsBalance(p, w, cursor, verdict.changes, m, 0);
    CursorItems(p, w, cursor, m);
  }

  lemma DropTotal(world: World, idx: nat, whole: bool, m: Measure)
    requires world.window.Valid() && world.window.Names(idx)
    ensures DropFrom(world, idx, whole).Count(m) == world.Count(m)
    ensures DropFrom(world, idx, whole).window.Valid()
  {
    var stack := world.window.Slot(idx);
    if whole || stack.count == 1 {
      SetSlotEffect(m, world.window, idx, EMPTY);
      SumAppend(m, world.dropped, stack);
    } else if !stack.IsEmpty() {
      SetSlotEffect(m, world.window, idx, stack.WithCount(stack.count - 1));
      SumAppend(m, world.dropped, stack.WithCount(1));
    }
  }

  /** The click is accepted, in step, and its changes are carried out. */
  ghost predicate Applied(world: World, p: ClickPacket)
    requires world.window.Valid() && !Panics(p, world)
  {
    Validate(p, world.window, world.cursor).Some? && world.stateId == p.stateId && CarriesOut(p)
  }

  /** A creative click that is accepted and in step clears the cursor. */
  ghost predicate Clears(world: World, p: ClickPacket)
    requires world.window.Valid() && !Panics(p, world)
  {
    && Validate(p, world.window, world.cursor).Some? && world.stateId == p.stateId
    && p.mode == CreativeMiddleClick
  }

  ghost function Effect(world: World, p: ClickPacket, m: Measure): int
    requires world.window.Valid() && !Panics(p, world)
  {
    if Applied(world, p) then
      Balance(p, world.window, world.cursor, m)
    else if Clears(world, p) then -(world.cursor.Of(m) as int)
    else 0
  }

  lemma AppliedEffect(world: World, p: ClickPacket, m: Measure)
    requires world.window.Valid() && !Panics(p, world) && Applied(world, p)
    ensures Handle(world, p).Count(m) == world.Count(m) + Effect(world, p, m)
  {
    var verdict := Validate(p, world.window, world.cursor).value;
    AppliedTotal(p, world.window, world.cursor, verdict, m);
  }

  /** Any packet at all: what it does to the items of the player, the open inventory, the cursor and
      everything dropped, of all kinds together or of one. */
  lemma HandleEffect(world: World, p: ClickPacket, m: Measure)
    requires world.window.Valid() && !Panics(p, world)
    ensures Handle(world, p).Count(m) == world.Count(m) + Effect(world, p, m)
  {
    if Applied(world, p) {
      AppliedEffect(world, p, m);
    } else if Validate(p, world.window, world.cursor).Some? {
      if p.mode == Click {
        SumAppend(m, world.dropped, world.cursor);
      } else if p.mode == DropKey && p.slotIdx != SLOT_OUTSIDE {
        DropTotal(world, p.slotIdx, p.button == 1, m);
      }
    }
  }

  // ---- All kinds together ----

  /** Collecting by double click can lose items: a count asked for in a slot whose kind is air is
      no item at all. No other mode does. */
  predicate Vanishes(p: ClickPacket, w: Window, k: nat)
    requires w.Valid() && Readable(p, w) && k < |p.changes|
  {
    p.mode == DoubleClick && !p.changes[k].stack.IsEmpty() && w.Slot(p.changes[k].idx).item == Air
  }

  /** What the packet's own sum counts and the server does not: the items that vanish, and all of the
      changes that a later change of the same slot replaces. */
  function Missing(p: ClickPacket, w: Window, i: nat): int
    requires w.Valid() && Readable(p, w) && i <= |p.changes|
    decreases |p.changes| - i
  {
    if i == |p.changes| then 0
    else
      (if !IsLast(p, i) then p.changes[i].stack.Items() - w.Slot(p.changes[i].idx).Items()
       else if Vanishes(p, w, i) then p.changes[i].stack.Items() as int
       else 0)
      + Missing(p, w, i + 1)
  }

  lemma {:induction false} SlotsMissing(p: ClickPacket, w: Window, i: nat)
    requires w.Valid() && Readable(p, w) && i <= |p.changes|
    ensures SlotsBalance(p, w, Everything, i) + SlotDelta(p, w, i) == SlotDelta(p, w, |p.changes|) - Missing(p, w, i)
    decreases |p.changes| - i
  {
    if i < |p.changes| {
      SlotsMissing(p, w, i + 1);
    }
  }

  /** Where changes are carried out, the packet asks for no net change. */
  lemma GuardBalances(p: ClickPacket, w: Window, cursor: ItemStack)
    requires w.Valid() && Readable(p, w) && Guard(p, w, cursor) && CarriesOut(p)
    ensures NetDelta(p, w, cursor) == 0
  {
    assert p.changes == [] ==> SlotDelta(p, w, |p.changes|) == 0;
    assert |p.changes| == 1 ==>
      SlotDelta(p, w, 1) == SlotDelta(p, w, 0) + p.changes[0].stack.Items() - w.Slot(p.changes[0].idx).Items();
  }

  /** All kinds together, a packet changes the number of items by what is missing from its sum. */
  lemma BalanceIsMissing(p: ClickPacket, w: Window, cursor: ItemStack)
    requires w.Valid() && Readable(p, w) && Guard(p, w, cursor) && CarriesOut(p)
    ensures Balance(p, w, cursor, Everything) == -Missing(p, w, 0)
  {
    SlotsMissing(p, w, 0);
    GuardBalances(p, w, cursor);
    if p.mode == Click && p.slotIdx == -1 {
      assert SlotDelta(p, w, |p.changes|) == 0;
    }
  }

  lemma {:induction false} MissingIsLost(p: ClickPacket, w: Window, i: nat)
    requires w.Valid() && Readable(p, w) && i <= |p.changes| && DistinctSlots(p)
    ensures Missing(p, w, i) >= 0
    ensures Missing(p, w, i) == 0 <==> forall k :: i <= k < |p.changes| ==> !Vanishes(p, w, k)
    decreases |p.changes| - i
  {
    if i < |p.changes| {
      MissingIsLost(p, w, i + 1);
    }
  }

  /** A double click is carried out that asks for items in slots whose kind is air, or a creative
      click that clears a cursor with items on it. */
  ghost predicate LosesItems(world: World, p: ClickPacket)
    requires world.window.Valid() && !Panics(p, world)
  {
    || (Applied(world, p)
        && (exists k :: 0 <= k < |p.changes| && Vanishes(p, world.window, k)))
    || (Clears(world, p) && !world.cursor.IsEmpty())
  }

  /** One packet with distinct slots: all kinds together there are never more items than before, and
      fewer only in the two ways above. */
  lemma HandleConserves(world: World, p: ClickPacket)
    requires world.window.Valid() && !Panics(p, world) && DistinctSlots(p)
    ensures Handle(world, p).Count(Everything) <= world.Count(Everything)
    ensures Handle(world, p).Count(Everything) == world.Count(Everything) <==> !LosesItems(world, p)
  {
    HandleEffect(world, p, Everything);
    if Applied(world, p) {
      BalanceIsMissing(p, world.window, world.cursor);
      MissingIsLost(p, world.window, 0);
    }
  }

  /** Any packet, also one that names slots twice: the number of items stays if and only if nothing is
      missing from the packet's sum. */
  lemma HandleConservesIff(world: World, p: ClickPacket)
    requires world.window.Valid() && !Panics(p, world)
    requires Applied(world, p)
    ensures Readable(p, world.window)
    ensures Handle(world, p).Count(Everything) == world.Count(Everything) - Missing(p, world.window, 0)
  {
    HandleEffect(world, p, Everything);
    BalanceIsMissing(p, world.window, world.cursor);
  }

  // ---- Runs ----

  /** The shape of a window: whether an inventory is open, and how large it is. */
  function Shape(w: Window): (nat, Option<nat>) {
    (|w.player|, if w.above.Some? then Some(|w.above.value|) else None)
  }

  lemma {:induction false} ApplyKeepsShape(w: Window, changes: seq<SlotChange>)
    requires w.Valid() && forall k :: 0 <= k < |changes| ==> w.Names(changes[k].idx)
    ensures Shape(Apply(w, changes)) == Shape(w)
    decreases |changes|
  {
    if changes != [] {
      assert w.Names(changes[0].idx);
      SetSlotEffect(Everything, w, changes[0].idx, changes[0].stack);
      ApplyKeepsShape(w.SetSlot(changes[0].idx, changes[0].stack), changes[1..]);
    }
  }

  lemma HandleKeepsShape(world: World, p: ClickPacket)
    requires world.window.Valid() && !Panics(p, world)
    ensures Handle(world, p).window.Valid() && Shape(Handle(world, p).window) == Shape(world.window)
  {
    var verdict := Validate(p, world.window, world.cursor);
    if verdict.Some? {
      if p.mode != DropKey {
        if p.mode != CreativeMiddleClick {
          UnhashedNames(p, world.window, world.cursor, |p.changes|);
        }
        ApplyKeepsShape(world.window, verdict.value.changes);
      }
    }
  }

  /** No packet of the run panics in the state that it finds. */
  predicate NonePanics(world: World, packets: seq<ClickPacket>)
    requires world.window.Valid()
    decreases |packets|
  {
    packets == [] ||
    (&& !Panics(packets[0], world)
     && (HandleKeepsShape(world, packets[0]);
         NonePanics(Handle(world, packets[0]), packets[1..])))
  }

  function HandleAll(world: World, packets: seq<ClickPacket>): World
    requires world.window.Valid() && NonePanics(world, packets)
    decreases |packets|
  {
    if packets == [] then world
    else
      HandleKeepsShape(world, packets[0]);
      HandleAll(Handle(world, packets[0]), packets[1..])
  }

  /** Over any run of packets with distinct slots there are never more items, all kinds together; and
      not fewer either when no packet is a double click or a creative click. */
  lemma {:induction false} RunsConserve(world: World, packets: seq<ClickPacket>)
    requires world.window.Valid()
    requires NonePanics(world, packets) && forall k :: 0 <= k < |packets| ==> DistinctSlots(packets[k])
    ensures HandleAll(world, packets).Count(Everything) <= world.Count(Everything)
    ensures (forall k :: 0 <= k < |packets| ==>
               packets[k].mode != DoubleClick && packets[k].mode != CreativeMiddleClick)
      ==> HandleAll(world, packets).Count(Everything) == world.Count(Everything)
    decreases |packets|
  {
    if packets != [] {
      HandleKeepsShape(world, packets[0]);
      HandleConserves(world, packets[0]);
      var rest := packets[1..];
      assert forall k :: 0 <= k < |rest| ==> rest[k] == packets[k + 1];
      RunsConserve(Handle(world, packets[0]), rest);
    }
  }

  /** What all the packets of a run come to, each in the state that it finds. */
  ghost function RunEffect(world: World, packets: seq<ClickPacket>, m: Measure): int
    requires world.window.Valid() && NonePanics(world, packets)
    decreases |packets|
  {
    if packets == [] then 0
    else
      HandleKeepsShape(world, packets[0]);
      Effect(world, packets[0], m) + RunEffect(Handle(world, packets[0]), packets[1..], m)
  }

  /** Over any run, the items of each kind change by exactly what its packets come to for that kind. */
  lemma {:induction false} RunsBalance(world: World, packets: seq<ClickPacket>, m: Measure)
    requires world.window.Valid() && NonePanics(world, packets)
    ensures HandleAll(world, packets).Count(m) == world.Count(m) + RunEffect(world, packets, m)
    decreases |packets|
  {
    if packets != [] {
      HandleKeepsShape(world, packets[0]);
      HandleEffect(world, packets[0], m);
      RunsBalance(Handle(world, packets[0]), packets[1..], m);
    }
  }

  // ---- Provenance ----

  predicate SameMake(a: ItemStack, b: ItemStack) {
    a.item == b.item && a.components == b.components
  }

  /** No items, or items of a kind and with components that were in the window or on the cursor. */
  ghost predicate WasThere(w: Window, cursor: ItemStack, stack: ItemStack)
    requires w.Valid()
  {
    stack.IsEmpty() || SameMake(stack, cursor) || exists idx: nat :: w.Names(idx) && SameMake(stack, w.Slot(idx))
  }

  lemma SlotWasThere(w: Window, cursor: ItemStack, idx: nat, stack: ItemStack)
    requires w.Valid() && w.Names(idx) && SameMake(stack, w.Slot(idx))
    ensures WasThere(w, cursor, stack)
  {
  }

  lemma ChangeWasThere(p: ClickPacket, w: Window, cursor: ItemStack, k: nat)
    requires w.Valid() && Readable(p, w) && k < |p.changes|
    requires UnhashChange(p, w, cursor, k).Some?
    ensures WasThere(w, cursor, UnhashChange(p, w, cursor, k).value)
  {
    var stack := UnhashChange(p, w, cursor, k).value;
    if !stack.IsEmpty() && !SameMake(stack, cursor) {
      if p.mode == ShiftClick {
        SlotWasThere(w, cursor, p.slotIdx, stack);
      } else if p.mode == Hotbar {
        SlotWasThere(w, cursor, p.changes[1 - k].idx, stack);
      } else {
        SlotWasThere(w, cursor, p.changes[k].idx, stack);
      }
    }
  }

  lemma {:induction false} SourceWasThere(p: ClickPacket, w: Window, cursor: ItemStack, from: nat)
    requires w.Valid() && Readable(p, w) && from <= |p.changes|
    ensures FindSource(p, w, from).Some? ==> WasThere(w, cursor, FindSource(p, w, from).value)
    decreases |p.changes| - from
  {
    if from < |p.changes| {
      SourceWasThere(p, w, cursor, from + 1);
      var found := Recount(w.Slot(p.changes[from].idx), p.carried);
      if found.Some? {
        SlotWasThere(w, cursor, p.changes[from].idx, found.value);
      }
    }
  }

  /** In every mode, only counts come from the packet: each stack produced was in the window or on
      the cursor before, up to its count. */
  lemma Provenance(p: ClickPacket, w: Window, cursor: ItemStack, verdict: Verdict)
    requires w.Valid() && !CheckPanics(p, w, cursor)
    requires Validate(p, w, cursor) == Some(verdict)
    ensures WasThere(w, cursor, verdict.cursor)
    ensures forall k :: 0 <= k < |verdict.changes| ==> WasThere(w, cursor, verdict.changes[k].stack)
  {
    if p.mode != CreativeMiddleClick {
      UnhashedNames(p, w, cursor, |p.changes|);
      forall k | 0 <= k < |verdict.changes|
        ensures WasThere(w, cursor, verdict.changes[k].stack)
      {
        ChangeWasThere(p, w, cursor, k);
      }
    }
    if p.mode == DoubleClick {
      SourceWasThere(p, w, cursor, 0);
    } else if p.mode == Click && p.changes != [] && !verdict.cursor.IsEmpty() && !SameMake(verdict.cursor, cursor) {
      SlotWasThere(w, cursor, p.changes[0].idx, verdict.cursor);
    }
  }
}
