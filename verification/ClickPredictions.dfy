/** The client applies a click before the server does and says in the packet what it expects: the
    stack in every changed slot and on the cursor. For every accepted click that is in step, this says
    exactly where the server ends up as the client expects, and where it does not. */
module ClickPredictions {
  import opened Items
  import opened Clicks
  import opened ClickLaws

  /** The stack is what the hashed stack stands for: nothing, or that kind in that number. */
  predicate Matches(stack: ItemStack, hashed: HashedStack) {
    if hashed.IsEmpty() then stack.IsEmpty() else SameStack(hashed, stack)
  }

  /** The click is accepted, and the server does not take it for out of step. Clicks outside the window
      are never taken so, and neither are drops with no inventory open. */
  ghost predicate InStep(world: World, p: ClickPacket)
    requires world.window.Valid() && !Panics(p, world)
  {
    && Validate(p, world.window, world.cursor).Some?
    && (|| world.stateId == p.stateId
        || (p.mode == Click && p.slotIdx == SLOT_OUTSIDE)
        || (p.mode == DropKey && world.window.above.None?))
  }

  /** A packet that is rejected changes nothing, and one that is out of step only counts the state id up; one
      that is in step leaves the id. */
  lemma HandleInStepIff(world: World, p: ClickPacket)
    requires world.window.Valid() && !Panics(p, world)
    ensures Validate(p, world.window, world.cursor).None? ==> Handle(world, p) == world
    ensures Validate(p, world.window, world.cursor).Some? && !InStep(world, p) ==>
      Handle(world, p) == world.(stateId := world.stateId + 1)
    ensures InStep(world, p) ==> Handle(world, p).stateId == world.stateId
  {
    if InStep(world, p) && p.mode == DropKey && p.slotIdx != SLOT_OUTSIDE {
      AcceptedIsReadable(p, world);
    }
  }

  // ---- What applying does to one slot ----

  /** Slots that no change names stay as they are. */
  lemma {:induction false} ApplyOthers(w: Window, changes: seq<SlotChange>, idx: nat)
    requires w.Valid() && w.Names(idx)
    requires forall k :: 0 <= k < |changes| ==> w.Names(changes[k].idx) && changes[k].idx != idx
    ensures Apply(w, changes).Names(idx) && Apply(w, changes).Slot(idx) == w.Slot(idx)
    decreases |changes|
  {
    if changes != [] {
      assert w.Names(changes[0].idx);
      SetSlotEffect(Everything, w, changes[0].idx, changes[0].stack);
      ApplyOthers(w.SetSlot(changes[0].idx, changes[0].stack), changes[1..], idx);
    }
  }

  /** A slot holds the stack of the last change that names it. */
  lemma {:induction false} ApplyAt(w: Window, changes: seq<SlotChange>, k: nat)
    requires w.Valid() && k < |changes| && LastIn(changes, k)
    requires forall k :: 0 <= k < |changes| ==> w.Names(changes[k].idx)
    ensures var idx := changes[k].idx;
      idx >= 0 && Apply(w, changes).Names(idx) && Apply(w, changes).Slot(idx) == changes[k].stack
    decreases |changes|
  {
    assert w.Names(changes[0].idx);
    var after := w.SetSlot(changes[0].idx, changes[0].stack);
    SetSlotEffect(Everything, w, changes[0].idx, changes[0].stack);
    if k == 0 {
      ApplyOthers(after, changes[1..], changes[0].idx);
    } else {
      ApplyAt(after, changes[1..], k - 1);
    }
  }

  // ---- The changed slots ----

  /** What is put into a slot is what the client expects there. Only a double click is not held to
      the expected kind: it keeps the slot's own. */
  lemma ChangeMatchesIff(p: ClickPacket, w: Window, cursor: ItemStack, k: nat)
    requires w.Valid() && Readable(p, w) && k < |p.changes|
    requires Guard(p, w, cursor) && CarriesOut(p) && UnhashChange(p, w, cursor, k).Some?
    ensures Matches(UnhashChange(p, w, cursor, k).value, p.changes[k].stack) <==>
      !(p.mode == DoubleClick && !p.changes[k].stack.IsEmpty()
        && p.changes[k].stack.item != w.Slot(p.changes[k].idx).item)
  {
    if p.mode == ShiftClick {
      assert !p.changes[k].stack.IsEmpty() ==> p.changes[k].stack.item == w.Slot(p.slotIdx).item;
    }
  }

  /** The changed slots that do not end up as expected: under a double click that names another kind;
      under a drop from a filled slot with items on the cursor, which the sum counts as well; and under
      a creative click, which changes no slot. */
  predicate SlotDiffers(world: World, p: ClickPacket, k: nat)
    requires world.window.Valid() && k < |p.changes| && world.window.Names(p.changes[k].idx)
  {
    var current, hashed := world.window.Slot(p.changes[k].idx), p.changes[k].stack;
    match p.mode
    case DoubleClick => !hashed.IsEmpty() && hashed.item != current.item
    case DropKey => !world.cursor.IsEmpty() && !current.IsEmpty()
    case CreativeMiddleClick => !Matches(current, hashed)
    case _ => false
  }

  lemma AppliedSlot(world: World, p: ClickPacket, k: nat)
    requires world.window.Valid() && !Panics(p, world) && Applied(world, p)
    requires Readable(p, world.window) && k < |p.changes| && IsLast(p, k)
    ensures var after, idx := Handle(world, p).window, p.changes[k].idx;
      && after.Valid() && world.window.Names(idx) && after.Names(idx)
      && (Matches(after.Slot(idx), p.changes[k].stack) <==> !SlotDiffers(world, p, k))
  {
    var verdict := Validate(p, world.window, world.cursor).value;
    UnhashedNames(p, world.window, world.cursor, |p.changes|);
    assert LastIn(verdict.changes, k);
    ApplyAt(world.window, verdict.changes, k);
    ChangeMatchesIff(p, world.window, world.cursor, k);
  }

  lemma DroppedSlot(world: World, p: ClickPacket)
    requires world.window.Valid() && !Panics(p, world) && InStep(world, p)
    requires Readable(p, world.window) && p.mode == DropKey && p.changes != []
    ensures var w, after := world.window, Handle(world, p).window;
      && |p.changes| == 1 && p.slotIdx == p.changes[0].idx
      && after.Valid() && w.Names(p.slotIdx) && after.Names(p.slotIdx)
      && (Matches(after.Slot(p.slotIdx), p.changes[0].stack) <==> !SlotDiffers(world, p, 0))
  {
    var w := world.window;
    assert SlotDelta(p, w, 1) == SlotDelta(p, w, 0) + p.changes[0].stack.Items() - w.Slot(p.slotIdx).Items();
    var stack := w.Slot(p.slotIdx);
    if !stack.IsEmpty() {
      var left := if p.button == 1 || stack.count == 1 then EMPTY else stack.WithCount(stack.count - 1);
      SetSlotEffect(Everything, w, p.slotIdx, left);
    }
  }

  /** Every slot named by the packet ends up as its last change says, if and only if it is none of the
      exceptions. (Only a creative click can name the slot that is not there.) */
  lemma SlotsAsExpected(world: World, p: ClickPacket, k: nat)
    requires world.window.Valid() && !Panics(p, world) && InStep(world, p)
    requires k < |p.changes| && IsLast(p, k)
    requires p.mode == CreativeMiddleClick ==> world.window.Names(p.changes[k].idx)
    ensures var after, idx := Handle(world, p).window, p.changes[k].idx;
      && after.Valid() && world.window.Names(idx) && after.Names(idx)
      && (Matches(after.Slot(idx), p.changes[k].stack) <==> !SlotDiffers(world, p, k))
  {
    AcceptedIsReadable(p, world);
    if p.mode == DropKey {
      DroppedSlot(world, p);
    } else if p.mode != CreativeMiddleClick {
      AppliedSlot(world, p, k);
    }
  }

  // ---- The other slots ----

  /** A slot that the packet, accepted or not, does not name stays as it is if and only if it is not one
      that a drop without listed changes is aimed at, with items in it. */
  lemma OthersUntouched(world: World, p: ClickPacket, other: nat)
    requires world.window.Valid() && !Panics(p, world)
    requires world.window.Names(other) && forall k :: 0 <= k < |p.changes| ==> p.changes[k].idx != other
    ensures var after := Handle(world, p).window;
      && after.Valid() && after.Names(other)
      && (after.Slot(other) == world.window.Slot(other) <==>
            !(InStep(world, p) && p.mode == DropKey && p.slotIdx == other && !world.window.Slot(other).IsEmpty()))
  {
    var verdict := Validate(p, world.window, world.cursor);
    if verdict.Some? {
      if Applied(world, p) {
        UnhashedNames(p, world.window, world.cursor, |p.changes|);
        ApplyOthers(world.window, verdict.value.changes, other);
      } else if p.mode == DropKey && p.slotIdx != SLOT_OUTSIDE {
        DropElsewhere(world, p, other);
      }
    }
  }

  lemma DropElsewhere(world: World, p: ClickPacket, other: nat)
    requires world.window.Valid() && world.window.Names(other) && world.window.Names(p.slotIdx)
    ensures var after := DropFrom(world, p.slotIdx, p.button == 1).window;
      && after.Valid() && after.Names(other)
      && (after.Slot(other) == world.window.Slot(other) <==>
            !(p.slotIdx == other && !world.window.Slot(other).IsEmpty()))
  {
    var stack := world.window.Slot(p.slotIdx);
    if !stack.IsEmpty() {
      var left := if p.button == 1 || stack.count == 1 then EMPTY else stack.WithCount(stack.count - 1);
      SetSlotEffect(Everything, world.window, p.slotIdx, left);
    }
  }

  // ---- The cursor ----

  lemma {:induction false} SourceMatches(p: ClickPacket, w: Window, from: nat)
    requires w.Valid() && Readable(p, w) && from <= |p.changes| && !p.carried.IsEmpty()
    ensures FindSource(p, w, from).Some? ==> Matches(FindSource(p, w, from).value, p.carried)
    decreases |p.changes| - from
  {
    if from < |p.changes| {
      SourceMatches(p, w, from + 1);
    }
  }

  /** The clicks after which the cursor is not as expected. A right click outside the window drops the
      whole cursor where the client drops one item; a click on the margin is not held to the expected
      kind; a drop leaves the cursor alone where the client says it is empty; and a creative click
      clears it. */
  predicate CursorDiffers(world: World, p: ClickPacket) {
    match p.mode
    case Click =>
      if p.slotIdx == SLOT_OUTSIDE then p.button == 1 && world.cursor.Items() != 1
      else p.slotIdx == -1 && !p.carried.IsEmpty() && p.carried.item != world.cursor.item
    case DropKey => !world.cursor.IsEmpty()
    case CreativeMiddleClick => !p.carried.IsEmpty()
    case _ => false
  }

  lemma AppliedCursor(world: World, p: ClickPacket)
    requires world.window.Valid() && !Panics(p, world) && Applied(world, p)
    ensures Matches(Handle(world, p).cursor, p.carried) <==> !CursorDiffers(world, p)
  {
    var w := world.window;
    if p.mode == DoubleClick && !p.carried.IsEmpty() {
      SourceMatches(p, w, 0);
    }
    if p.mode == Click && p.slotIdx == -1 {
      assert SlotDelta(p, w, |p.changes|) == 0;
    }
  }

  /** The cursor ends up as the client expects, if and only if the click is none of the exceptions. */
  lemma CursorAsExpected(world: World, p: ClickPacket)
    requires world.window.Valid() && !Panics(p, world) && InStep(world, p)
    ensures Matches(Handle(world, p).cursor, p.carried) <==> !CursorDiffers(world, p)
  {
    if CarriesOut(p) {
      AppliedCursor(world, p);
    } else if p.mode == Click {
      assert SlotDelta(p, world.window, |p.changes|) == 0;
    }
  }

  // ---- Hotbar clicks ----

  /** The same stack, or both nothing. */
  predicate SameContent(a: ItemStack, b: ItemStack) {
    if a.IsEmpty() then b.IsEmpty() else a == b
  }

  /** A hotbar click trades the two slots, components and all, if and only if the packet moves the
      counts as well. */
  lemma HotbarTradesIff(world: World, p: ClickPacket, k: nat)
    requires world.window.Valid() && !Panics(p, world) && DistinctSlots(p)
    requires Applied(world, p) && p.mode == Hotbar && k < |p.changes|
    ensures |p.changes| == 2
    ensures var w, after := world.window, Handle(world, p).window;
      && after.Valid() && after.Names(p.changes[k].idx) && w.Names(p.changes[1 - k].idx)
      && (SameContent(after.Slot(p.changes[k].idx), w.Slot(p.changes[1 - k].idx)) <==>
            p.changes[k].stack.Items() == w.Slot(p.changes[1 - k].idx).Items())
  {
    var verdict := Validate(p, world.window, world.cursor).value;
    UnhashedNames(p, world.window, world.cursor, 2);
    assert IsLast(p, k);
    assert LastIn(verdict.changes, k);
    ApplyAt(world.window, verdict.changes, k);
  }

  /** Where the stacks of a hotbar click come from. */
  lemma HotbarSources(world: World, p: ClickPacket)
    requires world.window.Valid() && !Panics(p, world) && Applied(world, p)
    requires p.mode == Hotbar && p.changes != []
    ensures |p.changes| == 2
    ensures world.window.Names(p.changes[0].idx) && world.window.Names(p.changes[1].idx)
    ensures var a, b := p.changes[0].stack, p.changes[1].stack;
      var first, second := world.window.Slot(p.changes[0].idx), world.window.Slot(p.changes[1].idx);
      && (SameStack(a, first) || SameStack(a, second)) && (SameStack(b, first) || SameStack(b, second))
      && a.Items() + b.Items() == first.Items() + second.Items() + world.cursor.Items()
      && (!a.IsEmpty() ==> Recount(second, a).Some?) && (!b.IsEmpty() ==> Recount(first, b).Some?)
  {
    var w, a, b := world.window, p.changes[0], p.changes[1];
    UnhashedNames(p, w, world.cursor, 2);
    assert SlotDelta(p, w, 1) == a.stack.Items() - w.Slot(a.idx).Items();
    assert SlotDelta(p, w, 2) == SlotDelta(p, w, 1) + b.stack.Items() - w.Slot(b.idx).Items();
    assert UnhashChange(p, w, world.cursor, 0).Some? && UnhashChange(p, w, world.cursor, 1).Some?;
  }

  /** When it does not move a count, both slots hold the same kind, and the slot keeps its own count. */
  lemma HotbarStays(world: World, p: ClickPacket, k: nat)
    requires world.window.Valid() && !Panics(p, world) && Applied(world, p)
    requires p.mode == Hotbar && k < |p.changes|
    ensures |p.changes| == 2
    ensures world.window.Names(p.changes[0].idx) && world.window.Names(p.changes[1].idx)
    ensures var mine, other := world.window.Slot(p.changes[k].idx), world.window.Slot(p.changes[1 - k].idx);
      p.changes[k].stack.Items() != other.Items() ==>
        mine.item == other.item && p.changes[k].stack.Items() == mine.Items()
  {
    HotbarSources(world, p);
    var a, b := p.changes[0].stack, p.changes[1].stack;
    var first, second := world.window.Slot(p.changes[0].idx), world.window.Slot(p.changes[1].idx);
    OwnCount(a, b, first, second);
    OwnCount(b, a, second, first);
  }

  lemma OwnCount(a: HashedStack, b: HashedStack, first: ItemStack, second: ItemStack)
    requires (SameStack(a, first) || SameStack(a, second)) && (SameStack(b, first) || SameStack(b, second))
    requires a.Items() + b.Items() >= first.Items() + second.Items()
    requires (!a.IsEmpty() ==> Recount(second, a).Some?) && (!b.IsEmpty() ==> Recount(first, b).Some?)
    ensures a.Items() != second.Items() ==> first.item == second.item && a.Items() == first.Items()
  {
  }
}
