/** What clients do, and that the server lets them. For every kind of click: what it makes of slots and cursor,
    said in counts and stacks; the packet that names just that outcome is accepted, and leads to it. */
module ClickActions {
  import opened Wrappers
  import opened Items
  import opened Clicks
  import opened ClickLaws
  import opened ClickPredictions

  // ---- Packets ----

  /** What the client says of a stack. */
  function Hash(stack: ItemStack): HashedStack {
    HashedStack(stack.item, stack.count)
  }

  function Said(outcome: seq<SlotChange>): (said: seq<HashedChange>)
    ensures |said| == |outcome|
  {
    seq(|outcome|, k requires 0 <= k < |outcome| => HashedChange(outcome[k].idx, Hash(outcome[k].stack)))
  }

  /** The packet for a click whose outcome, in slots and on the cursor, is as given. */
  function Says(world: World, idx: i16, button: i8, mode: ClickMode, outcome: seq<SlotChange>, cursor: ItemStack)
    : ClickPacket
  {
    ClickPacket(if world.window.above.None? then 0 else 1, world.stateId, idx, button, mode, Said(outcome),
                Hash(cursor))
  }

  /** What is left of a stack when `n` of its items are taken. */
  function Less(stack: ItemStack, n: int): ItemStack
    requires 0 <= n <= stack.count
  {
    if n == stack.count then EMPTY else stack.WithCount(stack.count - n)
  }

  /** The packet is accepted, and the slots and the cursor become what it says. */
  ghost predicate Yields(world: World, p: ClickPacket, outcome: seq<SlotChange>, cursor: ItemStack)
    requires world.window.Valid()
  {
    && !Panics(p, world)
    && Validate(p, world.window, world.cursor) == Some(Verdict(cursor, outcome))
    && (forall k :: 0 <= k < |outcome| ==> world.window.Names(outcome[k].idx))
    && Handle(world, p) == world.(window := Apply(world.window, outcome), cursor := cursor)
  }

  /** If no slot is named twice, each named slot holds its outcome, and the others what they held. */
  lemma YieldsSlots(world: World, p: ClickPacket, outcome: seq<SlotChange>, cursor: ItemStack, idx: nat)
    requires world.window.Valid() && Yields(world, p, outcome, cursor) && world.window.Names(idx)
    requires forall j, k :: 0 <= j < k < |outcome| ==> outcome[j].idx != outcome[k].idx
    ensures var after := Handle(world, p).window;
      && after.Valid() && after.Names(idx)
      && (forall k :: 0 <= k < |outcome| && outcome[k].idx == idx ==> after.Slot(idx) == outcome[k].stack)
      && ((forall k :: 0 <= k < |outcome| ==> outcome[k].idx != idx) ==> after.Slot(idx) == world.window.Slot(idx))
  {
    if k :| 0 <= k < |outcome| && outcome[k].idx == idx {
      assert LastIn(outcome, k);
      ApplyAt(world.window, outcome, k);
    } else {
      ApplyOthers(world.window, outcome, idx);
    }
  }

  // ---- Acceptance in general ----

  lemma {:induction false} UnhashAll(p: ClickPacket, w: Window, cursor: ItemStack, outcome: seq<SlotChange>, n: nat)
    requires w.Valid() && Readable(p, w) && n <= |p.changes| == |outcome|
    requires forall k :: 0 <= k < |outcome| ==>
      p.changes[k].idx == outcome[k].idx && UnhashChange(p, w, cursor, k) == Some(outcome[k].stack)
    ensures UnhashChanges(p, w, cursor, n) == Some(outcome[..n])
  {
    if n > 0 {
      UnhashAll(p, w, cursor, outcome, n - 1);
      assert outcome[..n] == outcome[..n - 1] + [outcome[n - 1]];
    } else {
      assert outcome[..0] == [];
    }
  }

  /** A packet that passes the checks of its mode, with every stack found, and that is in step. */
  lemma GuardedYields(world: World, p: ClickPacket, outcome: seq<SlotChange>, cursor: ItemStack)
    requires world.window.Valid() && world.stateId == p.stateId && Readable(p, world.window)
    requires Guard(p, world.window, world.cursor) && CarriesOut(p)
    requires |p.changes| == |outcome|
    requires forall k :: 0 <= k < |outcome| ==>
      && p.changes[k].idx == outcome[k].idx
      && UnhashChange(p, world.window, world.cursor, k) == Some(outcome[k].stack)
    requires UnhashCursor(p, world.window, world.cursor) == Some(cursor)
    ensures Yields(world, p, outcome, cursor)
  {
    UnhashAll(p, world.window, world.cursor, outcome, |outcome|);
    assert outcome[..|outcome|] == outcome;
  }

  lemma NamesPass(w: Window, idx: i16)
    requires w.Valid() && w.Names(idx)
    ensures PassesRange(w, idx)
  {
  }

  lemma Named(world: World, p: ClickPacket, outcome: seq<SlotChange>)
    requires world.window.Valid() && p.changes == Said(outcome)
    requires forall k :: 0 <= k < |outcome| ==> world.window.Names(outcome[k].idx)
    requires p.windowId == 0 <==> world.window.above.None?
    requires ModeChecks(p, world.window)
    ensures ChangesReadable(p, world.window)
  {
    forall k | 0 <= k < |p.changes|
      ensures world.window.Names(p.changes[k].idx) && PassesRange(world.window, p.changes[k].idx)
    {
      NamesPass(world.window, outcome[k].idx);
    }
  }

  // ---- Clicks on one slot ----

  /** One slot's outcome. */
  function One(idx: i16, stack: ItemStack): seq<SlotChange> {
    [SlotChange(idx, stack)]
  }

  lemma OneReadable(world: World, idx: i16, button: i8, stack: ItemStack, cursor: ItemStack)
    requires world.window.Valid() && world.window.Names(idx) && 0 <= button <= 1
    ensures var p := Says(world, idx, button, Click, One(idx, stack), cursor);
      && Readable(p, world.window) && |p.changes| == 1 && p.changes[0] == HashedChange(idx, Hash(stack))
      && NetDelta(p, world.window, world.cursor) ==
         stack.Items() - world.window.Slot(idx).Items() + cursor.Items() - world.cursor.Items()
  {
    var p := Says(world, idx, button, Click, One(idx, stack), cursor);
    NamesPass(world.window, idx);
    Named(world, p, One(idx, stack));
    assert SlotDelta(p, world.window, 0) == 0;
    assert SlotDelta(p, world.window, 1) == stack.Items() - world.window.Slot(idx).Items();
  }

  /** A left click trades slot and cursor when they hold different kinds, when only the slot holds items, or when
      only the cursor does and the slot can take them all. */
  lemma LeftClickSwaps(world: World, idx: i16)
    requires world.window.Valid() && world.window.Names(idx)
    requires var slot, cursor := world.window.Slot(idx), world.cursor;
      || (!slot.IsEmpty() && !cursor.IsEmpty() && slot.item != cursor.item)
      || (!slot.IsEmpty() && cursor.IsEmpty())
      || (slot.IsEmpty() && !cursor.IsEmpty() && cursor.count <= cursor.item.MaxStack())
    ensures var outcome := One(idx, world.cursor);
      Yields(world, Says(world, idx, 0, Click, outcome, world.window.Slot(idx)), outcome, world.window.Slot(idx))
  {
    var slot := world.window.Slot(idx);
    OneReadable(world, idx, 0, world.cursor, slot);
    GuardedYields(world, Says(world, idx, 0, Click, One(idx, world.cursor), slot), One(idx, world.cursor), slot);
  }

  /** So does a right click when they hold different kinds. */
  lemma RightClickSwaps(world: World, idx: i16)
    requires world.window.Valid() && world.window.Names(idx)
    requires var slot, cursor := world.window.Slot(idx), world.cursor;
      !slot.IsEmpty() && !cursor.IsEmpty() && slot.item != cursor.item
    ensures var outcome := One(idx, world.cursor);
      Yields(world, Says(world, idx, 1, Click, outcome, world.window.Slot(idx)), outcome, world.window.Slot(idx))
  {
    var slot := world.window.Slot(idx);
    OneReadable(world, idx, 1, world.cursor, slot);
    GuardedYields(world, Says(world, idx, 1, Click, One(idx, world.cursor), slot), One(idx, world.cursor), slot);
  }

  /** A click with either button moves any number of items from the cursor to a slot with items of the same
      make: one, or as many as fit. */
  lemma ClickMerges(world: World, idx: i16, button: i8, n: nat)
    requires world.window.Valid() && world.window.Names(idx) && 0 <= button <= 1
    requires var slot, cursor := world.window.Slot(idx), world.cursor;
      !slot.IsEmpty() && !cursor.IsEmpty() && SameMake(slot, cursor) && n <= cursor.count && slot.count + n < 128
    ensures var slot, left := world.window.Slot(idx), Less(world.cursor, n);
      var outcome := One(idx, slot.WithCount(slot.count + n));
      Yields(world, Says(world, idx, button, Click, outcome, left), outcome, left)
  {
    var slot, left := world.window.Slot(idx), Less(world.cursor, n);
    var more := slot.WithCount(slot.count + n);
    OneReadable(world, idx, button, more, left);
    GuardedYields(world, Says(world, idx, button, Click, One(idx, more), left), One(idx, more), left);
  }

  /** A click with items over an empty slot puts some there: one with the right button, or as many as fit when
      these are not all. */
  lemma ClickPlaces(world: World, idx: i16, button: i8, n: nat)
    requires world.window.Valid() && world.window.Names(idx) && 0 <= button <= 1
    requires var slot, cursor := world.window.Slot(idx), world.cursor;
      slot.IsEmpty() && !cursor.IsEmpty() && 1 <= n <= cursor.count
    requires button == 1 || world.cursor.count > world.cursor.item.MaxStack()
    ensures var left := Less(world.cursor, n); var outcome := One(idx, world.cursor.WithCount(n));
      Yields(world, Says(world, idx, button, Click, outcome, left), outcome, left)
  {
    var left, some := Less(world.cursor, n), world.cursor.WithCount(n);
    OneReadable(world, idx, button, some, left);
    GuardedYields(world, Says(world, idx, button, Click, One(idx, some), left), One(idx, some), left);
  }

  /** A right click with nothing on the cursor takes some of the items in a slot: half of them. */
  lemma RightClickTakes(world: World, idx: i16, n: nat)
    requires world.window.Valid() && world.window.Names(idx)
    requires var slot := world.window.Slot(idx); !slot.IsEmpty() && world.cursor.IsEmpty() && 1 <= n <= slot.count
    ensures var slot := world.window.Slot(idx); var outcome := One(idx, Less(slot, n));
      Yields(world, Says(world, idx, 1, Click, outcome, slot.WithCount(n)), outcome, slot.WithCount(n))
  {
    var slot := world.window.Slot(idx);
    OneReadable(world, idx, 1, Less(slot, n), slot.WithCount(n));
    var p := Says(world, idx, 1, Click, One(idx, Less(slot, n)), slot.WithCount(n));
    GuardedYields(world, p, One(idx, Less(slot, n)), slot.WithCount(n));
  }

  /** A click that changes nothing, on a slot or on the margin. */
  lemma ClickIdles(world: World, idx: i16, button: i8)
    requires world.window.Valid() && (world.window.Names(idx) || idx == -1) && 0 <= button <= 1
    ensures Yields(world, Says(world, idx, button, Click, [], world.cursor), [], world.cursor)
    ensures Handle(world, Says(world, idx, button, Click, [], world.cursor)) == world
  {
    var p := Says(world, idx, button, Click, [], world.cursor);
    if idx != -1 {
      NamesPass(world.window, idx);
    }
    Named(world, p, []);
    assert SlotDelta(p, world.window, 0) == 0;
    GuardedYields(world, p, [], world.cursor);
  }

  /** A left click outside drops everything on the cursor. */
  lemma LeftClickOutsideDrops(world: World)
    requires world.window.Valid() && !world.cursor.IsEmpty()
    ensures var p := Says(world, -999, 0, Click, [], EMPTY);
      && !Panics(p, world) && Validate(p, world.window, world.cursor).Some?
      && Handle(world, p) == world.(cursor := EMPTY, dropped := world.dropped + [world.cursor])
  {
    var p := Says(world, -999, 0, Click, [], EMPTY);
    Named(world, p, []);
    assert SlotDelta(p, world.window, 0) == 0;
    assert UnhashChanges(p, world.window, world.cursor, 0) == Some([]);
  }

  // ---- Drops ----

  lemma DropReadable(world: World, idx: i16, button: i8, left: ItemStack)
    requires world.window.Valid() && world.window.Names(idx) && 0 <= button <= 1
    ensures var p := Says(world, idx, button, DropKey, One(idx, left), EMPTY);
      && Readable(p, world.window) && |p.changes| == 1 && p.changes[0] == HashedChange(idx, Hash(left))
      && NetDelta(p, world.window, world.cursor) ==
         left.Items() - world.window.Slot(idx).Items() - world.cursor.Items()
  {
    var p := Says(world, idx, button, DropKey, One(idx, left), EMPTY);
    NamesPass(world.window, idx);
    Named(world, p, One(idx, left));
    assert SlotDelta(p, world.window, 0) == 0;
    assert SlotDelta(p, world.window, 1) == left.Items() - world.window.Slot(idx).Items();
  }

  lemma DropVerdict(world: World, idx: i16, button: i8, left: ItemStack)
    requires world.window.Valid() && world.window.Names(idx) && 0 <= button <= 1 && world.cursor.IsEmpty()
    requires var slot := world.window.Slot(idx);
      !slot.IsEmpty() && left == Less(slot, if button == 0 then 1 else slot.count)
    ensures var p := Says(world, idx, button, DropKey, One(idx, left), EMPTY);
      !Panics(p, world) && Validate(p, world.window, world.cursor) == Some(Verdict(EMPTY, One(idx, left)))
  {
    var p := Says(world, idx, button, DropKey, One(idx, left), EMPTY);
    DropReadable(world, idx, button, left);
    UnhashAll(p, world.window, world.cursor, One(idx, left), 1);
    assert One(idx, left)[..1] == One(idx, left);
  }

  /** The drop key throws one item of a slot away. */
  lemma DropsOne(world: World, idx: i16)
    requires world.window.Valid() && world.window.Names(idx) && world.cursor.IsEmpty()
    requires !world.window.Slot(idx).IsEmpty()
    ensures var slot := world.window.Slot(idx); var p := Says(world, idx, 0, DropKey, One(idx, Less(slot, 1)), EMPTY);
      && !Panics(p, world) && Validate(p, world.window, world.cursor).Some?
      && Handle(world, p) == world.(window := world.window.SetSlot(idx, Less(slot, 1)),
                                    dropped := world.dropped + [slot.WithCount(1)])
  {
    DropVerdict(world, idx, 0, Less(world.window.Slot(idx), 1));
  }

  /** With the control key it throws all of them away. */
  lemma DropsAll(world: World, idx: i16)
    requires world.window.Valid() && world.window.Names(idx) && world.cursor.IsEmpty()
    requires !world.window.Slot(idx).IsEmpty()
    ensures var slot := world.window.Slot(idx); var p := Says(world, idx, 1, DropKey, One(idx, EMPTY), EMPTY);
      && !Panics(p, world) && Validate(p, world.window, world.cursor).Some?
      && Handle(world, p) == world.(window := world.window.SetSlot(idx, EMPTY), dropped := world.dropped + [slot])
  {
    DropVerdict(world, idx, 1, EMPTY);
  }

  // ---- Hotbar ----

  function Filled(stack: ItemStack): ItemStack {
    if stack.IsEmpty() then EMPTY else stack
  }

  /** A number key, or the key for the off hand, trades two slots. */
  lemma HotbarTrades(world: World, a: i16, b: i16, button: i8)
    requires world.window.Valid() && world.window.Names(a) && world.window.Names(b) && a != b
    requires world.cursor.IsEmpty() && (0 <= button <= 8 || button == 40)
    ensures var w := world.window;
      var outcome := [SlotChange(a, Filled(w.Slot(b))), SlotChange(b, Filled(w.Slot(a)))];
      var p := Says(world, a, button, Hotbar, [SlotChange(a, w.Slot(b)), SlotChange(b, w.Slot(a))], EMPTY);
      Yields(world, p, outcome, EMPTY)
  {
    var w := world.window;
    var said := [SlotChange(a, w.Slot(b)), SlotChange(b, w.Slot(a))];
    var outcome := [SlotChange(a, Filled(w.Slot(b))), SlotChange(b, Filled(w.Slot(a)))];
    var p := Says(world, a, button, Hotbar, said, EMPTY);
    Named(world, p, said);
    assert SlotDelta(p, w, 0) == 0;
    assert SlotDelta(p, w, 1) == w.Slot(b).Items() - w.Slot(a).Items();
    assert SlotDelta(p, w, 2) == 0;
    GuardedYields(world, p, outcome, EMPTY);
  }

  // ---- Several slots ----

  function Total(amounts: seq<nat>): nat {
    if amounts == [] then 0 else Total(amounts[..|amounts| - 1]) + amounts[|amounts| - 1]
  }

  /** The outcome at each slot has so many items more than the slot had, or fewer. */
  lemma {:induction false} DeltaIs(p: ClickPacket, w: Window, outcome: seq<SlotChange>, amounts: seq<nat>, more: bool,
                                   n: nat)
    requires w.Valid() && ChangesReadable(p, w) && p.changes == Said(outcome)
    requires n <= |outcome| == |amounts|
    requires forall k :: 0 <= k < |outcome| ==>
      w.Names(outcome[k].idx) &&
      outcome[k].stack.Items() - w.Slot(outcome[k].idx).Items() == if more then amounts[k] else -(amounts[k] as int)
    ensures SlotDelta(p, w, n) == if more then Total(amounts[..n]) else -(Total(amounts[..n]) as int)
  {
    if n > 0 {
      DeltaIs(p, w, outcome, amounts, more, n - 1);
      assert amounts[..n][..n - 1] == amounts[..n - 1];
    }
  }

  /** The slot can take so many items: there is room. */
  predicate HasRoom(w: Window, slot: i16, amount: nat)
    requires w.Valid()
  {
    w.Names(slot) && 1 <= amount && w.Slot(slot).Items() + amount < 128
  }

  function Added(w: Window, stack: ItemStack, slot: i16, amount: nat): SlotChange
    requires w.Valid() && HasRoom(w, slot, amount)
  {
    SlotChange(slot, stack.WithCount(w.Slot(slot).Items() + amount))
  }

  /** The outcomes of moving items of the make of `stack` to slots. */
  function Fill(w: Window, stack: ItemStack, slots: seq<i16>, amounts: seq<nat>): (outcome: seq<SlotChange>)
    requires w.Valid() && |slots| == |amounts|
    requires forall k :: 0 <= k < |slots| ==> HasRoom(w, slots[k], amounts[k])
    ensures |outcome| == |slots|
  {
    seq(|slots|, k requires 0 <= k < |slots| => Added(w, stack, slots[k], amounts[k]))
  }

  /** Slots that can take items of the make of `stack`: they are empty or hold such items, and there is room. */
  ghost predicate CanFill(w: Window, stack: ItemStack, slots: seq<i16>, amounts: seq<nat>)
    requires w.Valid()
  {
    && !stack.IsEmpty() && |slots| == |amounts|
    && forall k :: 0 <= k < |slots| ==>
         && HasRoom(w, slots[k], amounts[k])
         && (w.Slot(slots[k]).IsEmpty() || SameMake(w.Slot(slots[k]), stack))
  }

  lemma FillDelta(p: ClickPacket, w: Window, stack: ItemStack, slots: seq<i16>, amounts: seq<nat>)
    requires w.Valid() && CanFill(w, stack, slots, amounts)
    requires ChangesReadable(p, w) && p.changes == Said(Fill(w, stack, slots, amounts))
    ensures SlotDelta(p, w, |p.changes|) == Total(amounts)
  {
    DeltaIs(p, w, Fill(w, stack, slots, amounts), amounts, true, |slots|);
    assert amounts[..|slots|] == amounts;
  }

  // ---- Drags ----

  /** Starting a drag and passing over slots changes nothing yet. */
  lemma DragGoesOn(world: World, idx: i16, button: i8)
    requires world.window.Valid() && (world.window.Names(idx) || idx == -999)
    requires button in {0, 1, 4, 5, 8, 9}
    ensures Yields(world, Says(world, idx, button, Drag, [], world.cursor), [], world.cursor)
    ensures Handle(world, Says(world, idx, button, Drag, [], world.cursor)) == world
  {
    var p := Says(world, idx, button, Drag, [], world.cursor);
    if idx != -999 {
      NamesPass(world.window, idx);
    }
    Named(world, p, []);
    GuardedYields(world, p, [], world.cursor);
  }

  /** Ending a drag spreads items from the cursor over any number of slots. */
  lemma DragSpreads(world: World, button: i8, slots: seq<i16>, amounts: seq<nat>)
    requires world.window.Valid() && button in {2, 6, 10}
    requires CanFill(world.window, world.cursor, slots, amounts) && Total(amounts) <= world.cursor.count
    ensures var outcome, left := Fill(world.window, world.cursor, slots, amounts), Less(world.cursor, Total(amounts));
      Yields(world, Says(world, -999, button, Drag, outcome, left), outcome, left)
  {
    var outcome, left := Fill(world.window, world.cursor, slots, amounts), Less(world.cursor, Total(amounts));
    var p := Says(world, -999, button, Drag, outcome, left);
    Named(world, p, outcome);
    FillDelta(p, world.window, world.cursor, slots, amounts);
    GuardedYields(world, p, outcome, left);
  }

  // ---- Collecting ----

  /** The slot holds so many items. */
  predicate HasItems(w: Window, slot: i16, amount: nat)
    requires w.Valid()
  {
    w.Names(slot) && 1 <= amount <= w.Slot(slot).Items()
  }

  function Removed(w: Window, slot: i16, amount: nat): SlotChange
    requires w.Valid() && HasItems(w, slot, amount)
  {
    SlotChange(slot, Less(w.Slot(slot), amount))
  }

  /** The outcomes of taking items out of slots. */
  function Taken(w: Window, slots: seq<i16>, amounts: seq<nat>): (outcome: seq<SlotChange>)
    requires w.Valid() && |slots| == |amounts|
    requires forall k :: 0 <= k < |slots| ==> HasItems(w, slots[k], amounts[k])
    ensures |outcome| == |slots|
  {
    seq(|slots|, k requires 0 <= k < |slots| => Removed(w, slots[k], amounts[k]))
  }

  ghost predicate CanTake(w: Window, stack: ItemStack, slots: seq<i16>, amounts: seq<nat>)
    requires w.Valid()
  {
    && !stack.IsEmpty() && |slots| == |amounts|
    && forall k :: 0 <= k < |slots| ==> HasItems(w, slots[k], amounts[k]) && SameMake(w.Slot(slots[k]), stack)
  }

  lemma TakenDelta(p: ClickPacket, w: Window, stack: ItemStack, slots: seq<i16>, amounts: seq<nat>)
    requires w.Valid() && CanTake(w, stack, slots, amounts)
    requires ChangesReadable(p, w) && p.changes == Said(Taken(w, slots, amounts))
    ensures SlotDelta(p, w, |p.changes|) == -(Total(amounts) as int)
  {
    DeltaIs(p, w, Taken(w, slots, amounts), amounts, false, |slots|);
    assert amounts[..|slots|] == amounts;
  }

  lemma TakenFound(p: ClickPacket, w: Window, cursor: ItemStack, slots: seq<i16>, amounts: seq<nat>, k: nat)
    requires w.Valid() && CanTake(w, cursor, slots, amounts) && Readable(p, w) && p.mode == DoubleClick
    requires p.changes == Said(Taken(w, slots, amounts)) && k < |slots|
    ensures UnhashChange(p, w, cursor, k) == Some(Taken(w, slots, amounts)[k].stack)
  {
  }

  lemma CollectAccepted(p: ClickPacket, w: Window, cursor: ItemStack, slots: seq<i16>, amounts: seq<nat>)
    requires w.Valid() && CanTake(w, cursor, slots, amounts) && cursor.count + Total(amounts) < 128
    requires ChangesReadable(p, w) && p.mode == DoubleClick && p.changes == Said(Taken(w, slots, amounts))
    requires p.carried == Hash(cursor.WithCount(cursor.count + Total(amounts)))
    ensures Guard(p, w, cursor)
    ensures UnhashCursor(p, w, cursor) == Some(cursor.WithCount(cursor.count + Total(amounts)))
  {
    TakenDelta(p, w, cursor, slots, amounts);
  }

  /** A double click collects items of the cursor's make from any number of slots. */
  lemma DoubleClickCollects(world: World, idx: i16, slots: seq<i16>, amounts: seq<nat>)
    requires world.window.Valid()
    requires CanTake(world.window, world.cursor, slots, amounts) && world.cursor.count + Total(amounts) < 128
    ensures var outcome, all := Taken(world.window, slots, amounts),
                                world.cursor.WithCount(world.cursor.count + Total(amounts));
      Yields(world, Says(world, idx, 0, DoubleClick, outcome, all), outcome, all)
  {
    var w, outcome := world.window, Taken(world.window, slots, amounts);
    var all := world.cursor.WithCount(world.cursor.count + Total(amounts));
    CollectYields(world, Says(world, idx, 0, DoubleClick, outcome, all), outcome, all, slots, amounts);
  }

  lemma CollectYields(world: World, p: ClickPacket, outcome: seq<SlotChange>, all: ItemStack, slots: seq<i16>,
                      amounts: seq<nat>)
    requires world.window.Valid()
    requires CanTake(world.window, world.cursor, slots, amounts) && world.cursor.count + Total(amounts) < 128
    requires outcome == Taken(world.window, slots, amounts)
    requires all == world.cursor.WithCount(world.cursor.count + Total(amounts))
    requires p.mode == DoubleClick && p.button == 0 && p.changes == Said(outcome) && p.carried == Hash(all)
    requires p.stateId == world.stateId && (p.windowId == 0 <==> world.window.above.None?)
    ensures Yields(world, p, outcome, all)
  {
    Named(world, p, outcome);
    CollectAccepted(p, world.window, world.cursor, slots, amounts);
    forall k | 0 <= k < |slots|
      ensures p.changes[k].idx == outcome[k].idx
      ensures UnhashChange(p, world.window, world.cursor, k) == Some(outcome[k].stack)
    {
      TakenFound(p, world.window, world.cursor, slots, amounts, k);
    }
    GuardedYields(world, p, outcome, all);
  }

  // ---- Shift clicks ----

  /** A shift click moves items from its slot to one or two others, which are empty or hold items of the same
      make; what does not fit stays. */
  lemma ShiftClickMoves(world: World, idx: i16, button: i8, slots: seq<i16>, amounts: seq<nat>)
    requires world.window.Valid() && world.window.Names(idx) && world.cursor.IsEmpty() && 0 <= button <= 1
    requires var slot := world.window.Slot(idx);
      CanFill(world.window, slot, slots, amounts) && 1 <= |slots| <= 2 && Total(amounts) <= slot.count
    ensures var slot := world.window.Slot(idx);
      var outcome := Fill(world.window, slot, slots, amounts) + One(idx, Less(slot, Total(amounts)));
      Yields(world, Says(world, idx, button, ShiftClick, outcome, EMPTY), outcome, EMPTY)
  {
    var w, slot := world.window, world.window.Slot(idx);
    var outcome := Fill(w, slot, slots, amounts) + One(idx, Less(slot, Total(amounts)));
    var p := Says(world, idx, button, ShiftClick, outcome, EMPTY);
    NamesPass(w, idx);
    Named(world, p, outcome);
    ShiftDelta(p, w, idx, slots, amounts);
    assert !p.changes[0].stack.IsEmpty();
    forall k | 0 <= k < |outcome|
      ensures UnhashChange(p, w, world.cursor, k) == Some(outcome[k].stack)
      ensures !p.changes[k].stack.IsEmpty() ==> p.changes[k].stack.item == slot.item
    {
      ShiftFound(p, w, world.cursor, idx, slots, amounts, k);
    }
    GuardedYields(world, p, outcome, EMPTY);
  }

  lemma ShiftFound(p: ClickPacket, w: Window, cursor: ItemStack, idx: i16, slots: seq<i16>, amounts: seq<nat>, k: nat)
    requires w.Valid() && w.Names(idx) && CanFill(w, w.Slot(idx), slots, amounts) && Total(amounts) <= w.Slot(idx).count
    requires Readable(p, w) && p.mode == ShiftClick && p.slotIdx == idx && k <= |slots|
    requires p.changes == Said(Fill(w, w.Slot(idx), slots, amounts) + One(idx, Less(w.Slot(idx), Total(amounts))))
    ensures var slot := w.Slot(idx);
      var outcome := Fill(w, slot, slots, amounts) + One(idx, Less(slot, Total(amounts)));
      && UnhashChange(p, w, cursor, k) == Some(outcome[k].stack)
      && (!p.changes[k].stack.IsEmpty() ==> p.changes[k].stack.item == slot.item)
  {
    if k < |slots| {
      assert p.changes[k] == HashedChange(slots[k], Hash(Added(w, w.Slot(idx), slots[k], amounts[k]).stack));
    } else {
      assert p.changes[k] == HashedChange(idx, Hash(Less(w.Slot(idx), Total(amounts))));
    }
  }

  lemma {:induction false} DeltaFront(p: ClickPacket, q: ClickPacket, w: Window, n: nat)
    requires w.Valid() && ChangesReadable(p, w) && ChangesReadable(q, w)
    requires n <= |p.changes| && n <= |q.changes| && p.changes[..n] == q.changes[..n]
    ensures SlotDelta(p, w, n) == SlotDelta(q, w, n)
  {
    if n > 0 {
      assert p.changes[..n][n - 1] == q.changes[..n][n - 1];
      assert p.changes[..n - 1] == p.changes[..n][..n - 1] == q.changes[..n - 1];
      DeltaFront(p, q, w, n - 1);
    }
  }

  lemma ShiftDelta(p: ClickPacket, w: Window, idx: i16, slots: seq<i16>, amounts: seq<nat>)
    requires w.Valid() && w.Names(idx) && CanFill(w, w.Slot(idx), slots, amounts) && Total(amounts) <= w.Slot(idx).count
    requires ChangesReadable(p, w)
    requires var slot := w.Slot(idx);
      p.changes == Said(Fill(w, slot, slots, amounts) + One(idx, Less(slot, Total(amounts))))
    ensures SlotDelta(p, w, |p.changes|) == 0
  {
    var slot, n := w.Slot(idx), |slots|;
    var front := p.(changes := Said(Fill(w, slot, slots, amounts)));
    assert p.changes[..n] == front.changes;
    forall k | 0 <= k < n
      ensures front.changes[k] == p.changes[k]
    {
      assert p.changes[..n][k] == p.changes[k];
    }
    FrontReadable(p, front, w);
    FillDelta(front, w, slot, slots, amounts);
    DeltaFront(p, front, w, n);
    assert p.changes[n] == HashedChange(idx, Hash(Less(slot, Total(amounts))));
  }

  lemma FrontReadable(p: ClickPacket, front: ClickPacket, w: Window)
    requires w.Valid() && ChangesReadable(p, w) && front == p.(changes := front.changes)
    requires |front.changes| <= |p.changes| && forall k :: 0 <= k < |front.changes| ==> front.changes[k] == p.changes[k]
    ensures ChangesReadable(front, w)
  {
  }
}
