/** Validation of a click packet: which clicks are accepted, and what the accepted click makes of the
    changed slots and the cursor. */
module Clicks {
  import opened Wrappers
  import opened Items

  datatype ClickMode = Click | ShiftClick | Hotbar | CreativeMiddleClick | DropKey | Drag | DoubleClick

  datatype HashedChange = HashedChange(idx: i16, stack: HashedStack)

  datatype SlotChange = SlotChange(idx: i16, stack: ItemStack)

  datatype ClickPacket = ClickPacket(
    windowId: int,
    stateId: int,
    slotIdx: i16,
    button: i8,
    mode: ClickMode,
    changes: seq<HashedChange>,
    carried: HashedStack)

  const SLOT_OUTSIDE: i16 := -999

  /** The reinterpretation of a signed index as unsigned. */
  function AsU16(n: i16): nat {
    if n < 0 then n + 0x1_0000 else n
  }

  // ---- Checks that do not look at the slots ----

  predicate PassesRange(w: Window, idx: i16) {
    AsU16(idx) <= w.MaxSlot()
  }

  predicate ModeChecks(p: ClickPacket, w: Window) {
    match p.mode
    case Click => 0 <= p.button <= 1 && (PassesRange(w, p.slotIdx) || p.slotIdx == SLOT_OUTSIDE || p.slotIdx == -1)
    case ShiftClick => 0 <= p.button <= 1 && p.carried.IsEmpty() && PassesRange(w, p.slotIdx)
    case Hotbar => (0 <= p.button <= 8 || p.button == 40) && p.carried.IsEmpty()
    case CreativeMiddleClick => p.button == 2 && PassesRange(w, p.slotIdx)
    case DropKey =>
      0 <= p.button <= 1 && p.carried.IsEmpty() && (PassesRange(w, p.slotIdx) || p.slotIdx == SLOT_OUTSIDE)
    case Drag =>
      (0 <= p.button <= 2 || 4 <= p.button <= 6 || 8 <= p.button <= 10)
      && (PassesRange(w, p.slotIdx) || p.slotIdx == SLOT_OUTSIDE)
    case DoubleClick => p.button == 0
  }

  /** The item count checks of the packet allow every positive count, so only the indices and the
      mode's own conditions remain. */
  predicate StaticChecks(p: ClickPacket, w: Window) {
    && (p.windowId == 0 <==> w.above.None?)
    && (forall k :: 0 <= k < |p.changes| ==> PassesRange(w, p.changes[k].idx))
    && ModeChecks(p, w)
  }

  /** Rejected for the number or the place of the changes, before any slot is looked at. */
  predicate TurnedAway(p: ClickPacket) {
    p.changes != [] &&
    match p.mode
    case Click => p.slotIdx == -1 || p.slotIdx == SLOT_OUTSIDE || |p.changes| != 1
    case ShiftClick => !(2 <= |p.changes| <= 3)
    case Hotbar => |p.changes| != 2
    case CreativeMiddleClick => false
    case DropKey => |p.changes| != 1 || p.slotIdx != p.changes[0].idx
    case Drag => !EndsDrag(p)
    case DoubleClick => false
  }

  predicate ChangesReadable(p: ClickPacket, w: Window) {
    && StaticChecks(p, w)
    && (forall k :: 0 <= k < |p.changes| ==> w.Names(p.changes[k].idx))
  }

  /** Every slot that the validator may look at exists. */
  predicate Readable(p: ClickPacket, w: Window) {
    && ChangesReadable(p, w)
    && (p.mode == ShiftClick && p.changes != [] ==> w.Names(p.slotIdx))
  }

  /** Without an open inventory the range checks let one index too many pass, and reading that slot panics.
      The validator gets there when it looks at a change that names it, and when a shift click on it
      has passed the checks before. */
  predicate CheckPanics(p: ClickPacket, w: Window, cursor: ItemStack)
    requires w.Valid()
  {
    && w.above.None? && StaticChecks(p, w) && !TurnedAway(p) && p.mode != CreativeMiddleClick
    && ((exists k :: 0 <= k < |p.changes| && p.changes[k].idx == PLAYER_SLOTS)
        || (p.mode == ShiftClick && p.slotIdx == PLAYER_SLOTS && p.changes != []
            && ChangesReadable(p, w) && NetDelta(p, w, cursor) == 0 && MovesSomething(p)))
  }

  predicate MovesSomething(p: ClickPacket) {
    exists k :: 0 <= k < |p.changes| && !p.changes[k].stack.IsEmpty()
  }

  /** Where the slots of the changes are looked at, they exist. */
  lemma ChangesExist(p: ClickPacket, w: Window, cursor: ItemStack)
    requires w.Valid() && StaticChecks(p, w) && !CheckPanics(p, w, cursor)
    requires !TurnedAway(p) && p.mode != CreativeMiddleClick
    ensures ChangesReadable(p, w)
  {
    forall k | 0 <= k < |p.changes|
      ensures w.Names(p.changes[k].idx)
    {
      assert PassesRange(w, p.changes[k].idx);
      RangeCheckIff(w, p.changes[k].idx);
    }
  }

  /** Of the indices that pass the range check, exactly one can fail to name a slot: the one past the
      end of the player's inventory, with nothing open above it. It does pass. */
  lemma RangeCheckIff(w: Window, idx: i16)
    requires w.Valid() && PassesRange(w, idx)
    ensures w.Names(idx) <==> !(w.above.None? && idx == PLAYER_SLOTS)
    ensures w.above.None? ==> PassesRange(w, PLAYER_SLOTS) && !w.Names(PLAYER_SLOTS)
  {
  }

  // ---- The net change in items that the packet asks for ----

  function SlotDelta(p: ClickPacket, w: Window, n: nat): int
    requires w.Valid() && ChangesReadable(p, w) && n <= |p.changes|
  {
    if n == 0 then 0
    else SlotDelta(p, w, n - 1) + p.changes[n - 1].stack.Items() - w.Slot(p.changes[n - 1].idx).Items()
  }

  function NetDelta(p: ClickPacket, w: Window, cursor: ItemStack): int
    requires w.Valid() && ChangesReadable(p, w)
  {
    SlotDelta(p, w, |p.changes|) + p.carried.Items() - cursor.Items()
  }

  // ---- The stacks behind the hashes ----

  /** A left click on a single changed slot swaps it with the cursor in these cases. */
  predicate ShouldSwap(p: ClickPacket, current: ItemStack, cursor: ItemStack) {
    p.button == 0 &&
    if !current.IsEmpty() && !cursor.IsEmpty() then current.item != cursor.item
    else if !current.IsEmpty() then true
    else if !cursor.IsEmpty() then
      cursor.count <= cursor.item.MaxStack()
    else false
  }

  predicate IsSwap(p: ClickPacket, w: Window, cursor: ItemStack)
    requires w.Valid() && Readable(p, w)
  {
    p.mode == Click && |p.changes| == 1 && ShouldSwap(p, w.Slot(p.changes[0].idx), cursor)
  }

  /** A stack of the same kind, with the count the client asks for. */
  function Recount(source: ItemStack, hashed: HashedStack): Option<ItemStack> {
    if source.item == hashed.item && !source.IsEmpty() then Some(source.WithCount(hashed.count)) else None
  }

  function OrElse(a: Option<ItemStack>, b: Option<ItemStack>): Option<ItemStack> {
    if a.Some? then a else b
  }

  /** The stack to put into the `k`-th changed slot, or `None` when no source for it is found. */
  function UnhashChange(p: ClickPacket, w: Window, cursor: ItemStack, k: nat): Option<ItemStack>
    requires w.Valid() && Readable(p, w) && k < |p.changes|
  {
    var hashed := p.changes[k].stack;
    var current := w.Slot(p.changes[k].idx);
    match p.mode
    case Click =>
      if IsSwap(p, w, cursor) then Some(cursor.WithCount(hashed.count))
      else if hashed.IsEmpty() then Some(EMPTY)
      else OrElse(Recount(cursor, hashed), Recount(current, hashed))
    case ShiftClick => Some(if hashed.IsEmpty() then EMPTY else w.Slot(p.slotIdx).WithCount(hashed.count))
    case Hotbar =>
      if hashed.IsEmpty() || |p.changes| != 2 then Some(EMPTY)
      else Recount(w.Slot(p.changes[1 - k].idx), hashed)
    case CreativeMiddleClick => None
    case DropKey => Some(if hashed.IsEmpty() then EMPTY else current.WithCount(hashed.count))
    case Drag => if hashed.IsEmpty() then None else OrElse(Recount(cursor, hashed), Recount(current, hashed))
    case DoubleClick => Some(if hashed.IsEmpty() then EMPTY else current.WithCount(hashed.count))
  }

  /** The first changed slot that holds the carried kind. */
  function FindSource(p: ClickPacket, w: Window, from: nat): Option<ItemStack>
    requires w.Valid() && Readable(p, w) && from <= |p.changes|
    decreases |p.changes| - from
  {
    if from == |p.changes| then None
    else OrElse(Recount(w.Slot(p.changes[from].idx), p.carried), FindSource(p, w, from + 1))
  }

  predicate EndsDrag(p: ClickPacket) {
    p.mode == Drag && (p.button == 2 || p.button == 6 || p.button == 10)
  }

  function UnhashCursor(p: ClickPacket, w: Window, cursor: ItemStack): Option<ItemStack>
    requires w.Valid() && Readable(p, w)
  {
    match p.mode
    case Click =>
      if p.slotIdx == -1 then Some(cursor)
      else if p.slotIdx == SLOT_OUTSIDE then Some(EMPTY)
      else if p.changes == [] then Some(cursor)
      else if IsSwap(p, w, cursor) then Some(w.Slot(p.changes[0].idx).WithCount(p.carried.count))
      else if p.carried.IsEmpty() then Some(EMPTY)
      else OrElse(Recount(cursor, p.carried), Recount(w.Slot(p.changes[0].idx), p.carried))
    case ShiftClick => Some(EMPTY)
    case Hotbar => Some(EMPTY)
    case CreativeMiddleClick => Some(EMPTY)
    case DropKey => Some(EMPTY)
    case Drag =>
      if !EndsDrag(p) then Some(cursor)
      else if p.carried.IsEmpty() then Some(EMPTY)
      else Recount(cursor, p.carried)
    case DoubleClick =>
      if p.carried.IsEmpty() then Some(EMPTY)
      else OrElse(Recount(cursor, p.carried), FindSource(p, w, 0))
  }

  // ---- The conditions of each mode ----

  predicate SameStack(hashed: HashedStack, stack: ItemStack) {
    hashed.item == stack.item && hashed.count == stack.count
  }

  predicate ClickGuard(p: ClickPacket, w: Window, cursor: ItemStack)
    requires w.Valid() && Readable(p, w)
  {
    if p.slotIdx == -1 then p.changes == [] && NetDelta(p, w, cursor) == 0
    else if p.slotIdx == SLOT_OUTSIDE then
      p.changes == [] && NetDelta(p, w, cursor) == if p.button == 1 then -1 else -(cursor.Items() as int)
    else if p.changes == [] then NetDelta(p, w, cursor) == 0 && SameStack(p.carried, cursor)
    else
      && |p.changes| == 1
      && if IsSwap(p, w, cursor)
         then SameStack(p.carried, w.Slot(p.changes[0].idx)) && SameStack(p.changes[0].stack, cursor)
         else NetDelta(p, w, cursor) == 0
  }

  predicate ShiftClickGuard(p: ClickPacket, w: Window, cursor: ItemStack)
    requires w.Valid() && Readable(p, w) && p.mode == ShiftClick
  {
    && NetDelta(p, w, cursor) == 0
    && (p.changes != [] ==>
          && 2 <= |p.changes| <= 3
          && MovesSomething(p)
          && (forall k :: 0 <= k < |p.changes| && !p.changes[k].stack.IsEmpty() ==>
                p.changes[k].stack.item == w.Slot(p.slotIdx).item))
  }

  predicate HotbarGuard(p: ClickPacket, w: Window, cursor: ItemStack)
    requires w.Valid() && Readable(p, w)
  {
    && NetDelta(p, w, cursor) == 0
    && (p.changes != [] ==>
          && |p.changes| == 2
          && IsOldStack(p, w, p.changes[0].stack) && IsOldStack(p, w, p.changes[1].stack))
  }

  /** One of the two changed slots held this kind and count. */
  predicate IsOldStack(p: ClickPacket, w: Window, hashed: HashedStack)
    requires w.Valid() && Readable(p, w) && |p.changes| == 2
  {
    SameStack(hashed, w.Slot(p.changes[0].idx)) || SameStack(hashed, w.Slot(p.changes[1].idx))
  }

  predicate DropKeyGuard(p: ClickPacket, w: Window, cursor: ItemStack)
    requires w.Valid() && Readable(p, w) && p.mode == DropKey
  {
    if p.changes == [] then NetDelta(p, w, cursor) == 0
    else
      && |p.changes| == 1 && p.slotIdx == p.changes[0].idx
      && var current, hashed := w.Slot(p.slotIdx), p.changes[0].stack;
         && (!hashed.IsEmpty() ==> !current.IsEmpty() && current.item == hashed.item)
         && NetDelta(p, w, cursor) == if p.button == 0 then -1 else -(current.Items() as int)
  }

  predicate Guard(p: ClickPacket, w: Window, cursor: ItemStack)
    requires w.Valid() && Readable(p, w)
  {
    match p.mode
    case Click => ClickGuard(p, w, cursor)
    case ShiftClick => ShiftClickGuard(p, w, cursor)
    case Hotbar => HotbarGuard(p, w, cursor)
    case CreativeMiddleClick => true
    case DropKey => DropKeyGuard(p, w, cursor)
    case Drag =>
      if EndsDrag(p) then NetDelta(p, w, cursor) == 0
      else p.changes == [] && SameStack(p.carried, cursor)
    case DoubleClick => NetDelta(p, w, cursor) == 0
  }

  // ---- The verdict ----

  /** The new cursor and the new contents of the changed slots. */
  datatype Verdict = Verdict(cursor: ItemStack, changes: seq<SlotChange>)

  function UnhashChanges(p: ClickPacket, w: Window, cursor: ItemStack, n: nat): Option<seq<SlotChange>>
    requires w.Valid() && Readable(p, w) && n <= |p.changes|
  {
    if n == 0 then Some([])
    else
      match UnhashChanges(p, w, cursor, n - 1)
      case None => None
      case Some(front) =>
        match UnhashChange(p, w, cursor, n - 1)
        case None => None
        case Some(stack) => Some(front + [SlotChange(p.changes[n - 1].idx, stack)])
  }

  /** What comes of a packet that passes the first checks. In creative mode the changes are dropped. */
  function Judge(p: ClickPacket, w: Window, cursor: ItemStack): Option<Verdict>
    requires w.Valid() && Readable(p, w)
  {
    if !Guard(p, w, cursor) then None
    else
      var changes := if p.mode == CreativeMiddleClick then Some([]) else UnhashChanges(p, w, cursor, |p.changes|);
      var newCursor := UnhashCursor(p, w, cursor);
      if changes.Some? && newCursor.Some? then Some(Verdict(newCursor.value, changes.value)) else None
  }

  /** `None` is a rejected packet. Of the packets that do not panic, those naming the slot that is not there
      are rejected, except in creative mode, which looks at none. */
  function Validate(p: ClickPacket, w: Window, cursor: ItemStack): Option<Verdict>
    requires w.Valid() && !CheckPanics(p, w, cursor)
  {
    if Readable(p, w) then Judge(p, w, cursor)
    else if StaticChecks(p, w) && p.mode == CreativeMiddleClick then Some(Verdict(EMPTY, []))
    else None
  }

  // ---- Applying a verdict ----

  function Apply(w: Window, changes: seq<SlotChange>): (after: Window)
    requires w.Valid() && forall k :: 0 <= k < |changes| ==> w.Names(changes[k].idx)
    ensures after.Valid()
    decreases |changes|
  {
    if changes == [] then w
    else
      assert w.Names(changes[0].idx);
      SetSlotEffect(Everything, w, changes[0].idx, changes[0].stack);
      Apply(w.SetSlot(changes[0].idx, changes[0].stack), changes[1..])
  }

  /** What the server holds for one client, and every stack it has dropped into the world. */
  datatype World = World(window: Window, cursor: ItemStack, dropped: Slots, stateId: int) {
    function Count(m: Measure): nat {
      window.Count(m) + cursor.Of(m) + Sum(m, dropped)
    }
  }

  /** Drop all or one of the stack in a slot. */
  function DropFrom(world: World, idx: nat, whole: bool): World
    requires world.window.Valid() && world.window.Names(idx)
  {
    var stack := world.window.Slot(idx);
    if stack.IsEmpty() then world
    else if whole || stack.count == 1 then
      world.(window := world.window.SetSlot(idx, EMPTY), dropped := world.dropped + [stack])
    else
      world.(window := world.window.SetSlot(idx, stack.WithCount(stack.count - 1)),
             dropped := world.dropped + [stack.WithCount(1)])
  }

  /** The validator panics, or the drop does: of a drop key on the slot that is not there, when the packet
      lists no change and is accepted. */
  predicate Panics(p: ClickPacket, world: World)
    requires world.window.Valid()
  {
    || CheckPanics(p, world.window, world.cursor)
    || (&& world.window.above.None? && StaticChecks(p, world.window) && world.cursor.IsEmpty()
        && p.mode == DropKey && p.slotIdx == PLAYER_SLOTS && p.changes == [])
  }

  lemma AcceptedIsReadable(p: ClickPacket, world: World)
    requires world.window.Valid() && !Panics(p, world)
    requires Validate(p, world.window, world.cursor).Some?
    ensures p.mode != CreativeMiddleClick ==> Readable(p, world.window)
    ensures p.mode == DropKey && p.slotIdx != SLOT_OUTSIDE ==> world.window.Names(p.slotIdx)
  {
    if p.mode == DropKey && p.slotIdx != SLOT_OUTSIDE {
      RangeCheckIff(world.window, p.slotIdx);
      if p.changes == [] {
        assert SlotDelta(p, world.window, 0) == 0;
      }
    }
  }

  /** One packet: rejected, out of step, or applied. */
  function Handle(world: World, p: ClickPacket): World
    requires world.window.Valid() && !Panics(p, world)
  {
    var w := world.window;
    match Validate(p, w, world.cursor)
    case None => world
    case Some(verdict) =>
      AcceptedIsReadable(p, world);
      if p.slotIdx == SLOT_OUTSIDE && p.mode == Click then
        world.(cursor := EMPTY,
               dropped := if world.cursor.IsEmpty() then world.dropped else world.dropped + [world.cursor])
      else if p.mode == DropKey then
        if w.above.Some? && world.stateId != p.stateId then world.(stateId := world.stateId + 1)
        else if p.slotIdx == SLOT_OUTSIDE then world
        else DropFrom(world, p.slotIdx, p.button == 1)
      else if world.stateId != p.stateId then world.(stateId := world.stateId + 1)
      else
        if p.mode == CreativeMiddleClick then world.(cursor := verdict.cursor)
        else
          UnhashedNames(p, w, world.cursor, |p.changes|);
          world.(window := Apply(w, verdict.changes), cursor := verdict.cursor)
  }

  lemma {:induction false} UnhashedNames(p: ClickPacket, w: Window, cursor: ItemStack, n: nat)
    requires w.Valid() && Readable(p, w) && n <= |p.changes|
    ensures UnhashChanges(p, w, cursor, n).Some? ==>
      var changes := UnhashChanges(p, w, cursor, n).value;
      && |changes| == n
      && forall k :: 0 <= k < n ==>
           && changes[k].idx == p.changes[k].idx && w.Names(changes[k].idx)
           && UnhashChange(p, w, cursor, k) == Some(changes[k].stack)
  {
    if n > 0 {
      UnhashedNames(p, w, cursor, n - 1);
    }
  }

  /** What a verdict changes are slots that exist; and in creative mode it changes none. */
  lemma VerdictNames(p: ClickPacket, w: Window, cursor: ItemStack, verdict: Verdict)
    requires w.Valid() && !CheckPanics(p, w, cursor) && Validate(p, w, cursor) == Some(verdict)
    ensures forall k :: 0 <= k < |verdict.changes| ==> w.Names(verdict.changes[k].idx)
    ensures p.mode == CreativeMiddleClick ==> Apply(w, verdict.changes) == w
  {
    if p.mode != CreativeMiddleClick {
      UnhashedNames(p, w, cursor, |p.changes|);
    }
  }
}
