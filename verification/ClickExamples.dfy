/** Single clicks that show where the code keeps less than one might expect. */
module ClickExamples {
  import opened Wrappers
  import opened Items
  import opened Clicks
  import opened ClickLaws
  import opened ClickPredictions
  import opened ClickKinds

  const DIRT := Kind(1, 64)
  const DIAMOND := Kind(2, 64)

  function Stack(kind: ItemKind, count: i8): ItemStack {
    ItemStack(kind, count, Plain)
  }

  /** A player's inventory with one stack, in slot 9, and nothing open above it. */
  function Alone(stack: ItemStack): Window {
    Window(seq(PLAYER_SLOTS, _ => EMPTY)[9 := stack], None)
  }

  function Start(stack: ItemStack, cursor: ItemStack): World {
    World(Alone(stack), cursor, [], 0)
  }

  function Packet(slotIdx: i16, button: i8, mode: ClickMode, changes: seq<HashedChange>, carried: HashedStack)
    : ClickPacket
  {
    ClickPacket(0, 0, slotIdx, button, mode, changes, carried)
  }

  const NOTHING := HashedStack(Air, 0)

  /** A player with nothing open, a stack in slot 9 and one on the cursor, in step. */
  ghost predicate Holding(world: World, stack: ItemStack, cursor: ItemStack) {
    && world.window.Valid() && world.window.above.None? && world.window.Slot(9) == stack
    && world.cursor == cursor && world.dropped == [] && world.stateId == 0
  }

  lemma AloneHolds(stack: ItemStack, cursor: ItemStack, m: Measure)
    ensures Holding(Start(stack, cursor), stack, cursor)
    ensures Start(stack, cursor).Count(m) == stack.Of(m) + cursor.Of(m)
  {
    var slots: Slots := seq(PLAYER_SLOTS, _ => EMPTY);
    SumEmpty(m, slots);
    SumUpdate(m, slots, 9, stack);
  }

  // ---- Kinds ----

  /** A right click with one diamond on a slot with 64 dirt: the packet may name diamonds in the slot. */
  const TRADE := Packet(9, 1, Click, [HashedChange(9, HashedStack(DIAMOND, 64))], HashedStack(DIAMOND, 1))

  lemma TradeEffect(world: World)
    requires Holding(world, Stack(DIRT, 64), Stack(DIAMOND, 1))
    ensures !Panics(TRADE, world) && Applied(world, TRADE)
    ensures Handle(world, TRADE).Count(Only(DIAMOND)) == world.Count(Only(DIAMOND)) + 64
    ensures Handle(world, TRADE).Count(Only(DIRT)) == world.Count(Only(DIRT)) - 64
  {
    var w, cursor := world.window, world.cursor;
    assert StaticChecks(TRADE, w);
    assert SlotDelta(TRADE, w, 0) == 0 && SlotDelta(TRADE, w, 1) == 0;
    assert UnhashChange(TRADE, w, cursor, 0) == Some(Stack(DIAMOND, 64));
    assert UnhashChanges(TRADE, w, cursor, 0) == Some([]);
    OneSlot(TRADE, w, cursor, Only(DIAMOND));
    OneSlot(TRADE, w, cursor, Only(DIRT));
    HandleEffect(world, TRADE, Only(DIAMOND));
    HandleEffect(world, TRADE, Only(DIRT));
  }

  lemma RightClickTradesKinds() returns (world: World)
    ensures world.window.Valid() && !Panics(TRADE, world) && DistinctSlots(TRADE)
    ensures Applied(world, TRADE)
    ensures world.Count(Only(DIAMOND)) == 1 && Handle(world, TRADE).Count(Only(DIAMOND)) == 65
    ensures world.Count(Only(DIRT)) == 64 && Handle(world, TRADE).Count(Only(DIRT)) == 0
  {
    world := Start(Stack(DIRT, 64), Stack(DIAMOND, 1));
    AloneHolds(Stack(DIRT, 64), Stack(DIAMOND, 1), Only(DIAMOND));
    AloneHolds(Stack(DIRT, 64), Stack(DIAMOND, 1), Only(DIRT));
    TradeEffect(world);
  }

  // ---- Totals ----

  /** A double click that names items in a slot whose kind is air. */
  const VANISH := Packet(9, 0, DoubleClick, [HashedChange(9, HashedStack(DIRT, 5))], NOTHING)

  lemma VanishEffect(world: World)
    requires Holding(world, EMPTY, Stack(DIRT, 5))
    ensures !Panics(VANISH, world) && LosesItems(world, VANISH)
    ensures Handle(world, VANISH).Count(Everything) == world.Count(Everything) - 5
  {
    var w, cursor := world.window, world.cursor;
    assert StaticChecks(VANISH, w);
    assert SlotDelta(VANISH, w, 0) == 0 && SlotDelta(VANISH, w, 1) == 5;
    assert UnhashChanges(VANISH, w, cursor, 0) == Some([]);
    assert Vanishes(VANISH, w, 0);
    assert SlotsBalance(VANISH, w, Everything, 1) == 0;
    HandleEffect(world, VANISH, Everything);
  }

  lemma DoubleClickLoses() returns (world: World)
    ensures world.window.Valid() && !Panics(VANISH, world) && DistinctSlots(VANISH)
    ensures LosesItems(world, VANISH)
    ensures world.Count(Everything) == 5 && Handle(world, VANISH).Count(Everything) == 0
  {
    world := Start(EMPTY, Stack(DIRT, 5));
    AloneHolds(EMPTY, Stack(DIRT, 5), Everything);
    VanishEffect(world);
  }

  const CREATIVE := Packet(9, 2, CreativeMiddleClick, [], NOTHING)

  lemma CreativeEffect(world: World)
    requires Holding(world, EMPTY, Stack(DIRT, 5))
    ensures !Panics(CREATIVE, world) && LosesItems(world, CREATIVE)
    ensures Handle(world, CREATIVE).Count(Everything) == world.Count(Everything) - 5
  {
    assert StaticChecks(CREATIVE, world.window);
    HandleEffect(world, CREATIVE, Everything);
  }

  lemma CreativeClickLoses() returns (world: World)
    ensures world.window.Valid() && !Panics(CREATIVE, world) && DistinctSlots(CREATIVE)
    ensures LosesItems(world, CREATIVE)
    ensures world.Count(Everything) == 5 && Handle(world, CREATIVE).Count(Everything) == 0
  {
    world := Start(EMPTY, Stack(DIRT, 5));
    AloneHolds(EMPTY, Stack(DIRT, 5), Everything);
    CreativeEffect(world);
  }

  /** A shift click that names its slot twice: the packet's sum counts the slot twice, the server once. */
  const TWICE := Packet(9, 0, ShiftClick, [HashedChange(9, NOTHING), HashedChange(9, HashedStack(DIRT, 2))], NOTHING)

  lemma TwiceAccepted(world: World)
    requires Holding(world, Stack(DIRT, 1), EMPTY)
    ensures !Panics(TWICE, world) && Applied(world, TWICE)
  {
    var w := world.window;
    assert StaticChecks(TWICE, w);
    assert SlotDelta(TWICE, w, 0) == 0 && SlotDelta(TWICE, w, 1) == -1 && SlotDelta(TWICE, w, 2) == 0;
    assert !TWICE.changes[1].stack.IsEmpty();
    assert UnhashChanges(TWICE, w, EMPTY, 0) == Some([]);
    assert UnhashChanges(TWICE, w, EMPTY, 1).Some?;
  }

  lemma TwiceEffect(world: World)
    requires Holding(world, Stack(DIRT, 1), EMPTY)
    requires !Panics(TWICE, world) && Applied(world, TWICE)
    ensures Handle(world, TWICE).Count(Everything) == world.Count(Everything) + 1
  {
    HandleConservesIff(world, TWICE);
    assert TWICE.changes[0].idx == TWICE.changes[1].idx;
    assert Missing(TWICE, world.window, 2) == 0 && Missing(TWICE, world.window, 1) == 0;
  }

  lemma SlotNamedTwice() returns (world: World)
    ensures world.window.Valid() && !Panics(TWICE, world) && !DistinctSlots(TWICE)
    ensures Applied(world, TWICE)
    ensures world.Count(Everything) == 1 && Handle(world, TWICE).Count(Everything) == 2
  {
    world := Start(Stack(DIRT, 1), EMPTY);
    AloneHolds(Stack(DIRT, 1), EMPTY, Everything);
    assert TWICE.changes[0].idx == TWICE.changes[1].idx;
    TwiceAccepted(world);
    TwiceEffect(world);
  }

  // ---- Expectations ----

  /** A right click outside the window: the client drops one of five and expects four on the cursor. */
  const DROP_ONE := Packet(SLOT_OUTSIDE, 1, Click, [], HashedStack(DIRT, 4))

  lemma DropOneEffect(world: World)
    requires Holding(world, EMPTY, Stack(DIRT, 5))
    ensures !Panics(DROP_ONE, world) && InStep(world, DROP_ONE)
    ensures Handle(world, DROP_ONE).cursor == EMPTY && Handle(world, DROP_ONE).dropped == [Stack(DIRT, 5)]
  {
    assert StaticChecks(DROP_ONE, world.window);
    assert SlotDelta(DROP_ONE, world.window, 0) == 0;
    assert UnhashChanges(DROP_ONE, world.window, world.cursor, 0) == Some([]);
  }

  lemma OutsideDropsAll() returns (world: World)
    ensures world.window.Valid() && !Panics(DROP_ONE, world) && InStep(world, DROP_ONE)
    ensures world.cursor == Stack(DIRT, 5) && Handle(world, DROP_ONE).dropped == [Stack(DIRT, 5)]
    ensures !Matches(Handle(world, DROP_ONE).cursor, DROP_ONE.carried)
  {
    world := Start(EMPTY, Stack(DIRT, 5));
    AloneHolds(EMPTY, Stack(DIRT, 5), Everything);
    DropOneEffect(world);
  }

  /** A drop that lists no change: the client expects the three diamonds to stay. */
  const DROP_UNSAID := Packet(9, 1, DropKey, [], NOTHING)

  lemma DropUnsaidEffect(world: World)
    requires Holding(world, Stack(DIAMOND, 3), EMPTY)
    ensures !Panics(DROP_UNSAID, world) && InStep(world, DROP_UNSAID)
    ensures Handle(world, DROP_UNSAID).dropped == [Stack(DIAMOND, 3)]
    ensures var after := Handle(world, DROP_UNSAID).window; after.Valid() && after.Names(9) && after.Slot(9) == EMPTY
  {
    var w := world.window;
    assert StaticChecks(DROP_UNSAID, w);
    assert SlotDelta(DROP_UNSAID, w, 0) == 0;
    assert UnhashChanges(DROP_UNSAID, w, EMPTY, 0) == Some([]);
    SetSlotEffect(Everything, w, 9, EMPTY);
  }

  lemma DropUnsaid() returns (world: World)
    ensures world.window.Valid() && !Panics(DROP_UNSAID, world) && InStep(world, DROP_UNSAID)
    ensures world.window.Slot(9) == Stack(DIAMOND, 3)
    ensures Handle(world, DROP_UNSAID).dropped == [Stack(DIAMOND, 3)]
    ensures var after := Handle(world, DROP_UNSAID).window; after.Valid() && after.Names(9) && after.Slot(9) == EMPTY
  {
    world := Start(Stack(DIAMOND, 3), EMPTY);
    AloneHolds(Stack(DIAMOND, 3), EMPTY, Everything);
    DropUnsaidEffect(world);
  }

  // ---- The slot that is not there ----

  /** A drop key on the index past the player's last slot: checked, accepted, and then the drop panics. */
  const PAST := Packet(PLAYER_SLOTS as i16, 1, DropKey, [], NOTHING)

  lemma PastAccepted(world: World)
    requires Holding(world, EMPTY, EMPTY)
    ensures !CheckPanics(PAST, world.window, world.cursor) && Panics(PAST, world)
    ensures Validate(PAST, world.window, world.cursor) == Some(Verdict(EMPTY, []))
  {
    assert StaticChecks(PAST, world.window);
    assert SlotDelta(PAST, world.window, 0) == 0;
    assert UnhashChanges(PAST, world.window, world.cursor, 0) == Some([]);
  }

  lemma DropPastEnd() returns (world: World)
    ensures world.window.Valid() && !CheckPanics(PAST, world.window, world.cursor) && Panics(PAST, world)
    ensures Validate(PAST, world.window, world.cursor) == Some(Verdict(EMPTY, []))
  {
    world := Start(EMPTY, EMPTY);
    AloneHolds(EMPTY, EMPTY, Everything);
    PastAccepted(world);
  }
}
