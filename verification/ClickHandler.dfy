/** Application of click packets as the program performs it, on inventories that are updated in
    place. */
module ClickHandler {
  import opened Wrappers
  import opened Items
  import opened Clicks
  import opened ClickLaws
  import opened ClickValidator

  class Inventory {
    const slots: array<ItemStack>

    constructor (n: nat)
      ensures fresh(slots) && slots.Length == n
      ensures forall i :: 0 <= i < n ==> slots[i] == EMPTY
    {
      slots := new ItemStack[n](_ => EMPTY);
    }

    method ReplaceSlot(idx: nat, item: ItemStack) returns (replaced: ItemStack)
      requires idx < slots.Length
      modifies slots
      ensures slots[..] == old(slots[..])[idx := item] && replaced == old(slots[idx])
    {
      replaced := slots[idx];
      slots[idx] := item;
    }
  }

  /** Everything the server keeps for one client that a click can touch. */
  class ClickSession {
    const player: Inventory
    const above: Inventory?
    var cursor: ItemStack
    var dropped: Slots
    var stateId: int

    constructor (player: Inventory, above: Inventory?, stateId: int)
      requires player.slots.Length == PLAYER_SLOTS
      requires above != null ==> above != player && above.slots != player.slots && above.slots.Length < 0x4000
      ensures Valid() && this.player == player && this.above == above
      ensures cursor == EMPTY && dropped == [] && this.stateId == stateId
    {
      this.player, this.above, this.stateId := player, above, stateId;
      cursor, dropped := EMPTY, [];
    }

    ghost predicate Valid()
      reads this, player, player.slots, above, if above == null then {} else {above.slots}
    {
      && player != above && (above != null ==> above.slots != player.slots)
      && CurrentWindow().Valid()
    }

    function CurrentWindow(): Window
      reads this, player, player.slots, above, if above == null then {} else {above.slots}
    {
      Window(player.slots[..], if above == null then None else Some(above.slots[..]))
    }

    function State(): World
      reads this, player, player.slots, above, if above == null then {} else {above.slots}
    {
      World(CurrentWindow(), cursor, dropped, stateId)
    }

    /** Write one slot, in whichever inventory the index stands for. */
    method SetWindowSlot(idx: nat, stack: ItemStack)
      requires Valid() && CurrentWindow().Names(idx)
      modifies player.slots, if above == null then {} else {above.slots}
      ensures Valid()
      ensures CurrentWindow() == old(CurrentWindow()).SetSlot(idx, stack)
    {
      if above != null && idx < above.slots.Length {
        var _ := above.ReplaceSlot(idx, stack);
      } else {
        var slotId := if above == null then idx else idx - above.slots.Length + MAIN_START;
        var _ := player.ReplaceSlot(slotId, stack);
      }
    }

    method ApplyChanges(changes: seq<SlotChange>)
      requires Valid() && forall k :: 0 <= k < |changes| ==> CurrentWindow().Names(changes[k].idx)
      modifies player.slots, if above == null then {} else {above.slots}
      ensures Valid()
      ensures CurrentWindow() == Apply(old(CurrentWindow()), changes)
    {
      for k := 0 to |changes|
        invariant Valid()
        invariant Shape(CurrentWindow()) == Shape(old(CurrentWindow()))
        invariant forall j :: 0 <= j < |changes| ==> CurrentWindow().Names(changes[j].idx)
        invariant Apply(CurrentWindow(), changes[k..]) == Apply(old(CurrentWindow()), changes)
      {
        ghost var before := CurrentWindow();
        assert before.Names(changes[k].idx);
        SetSlotEffect(Everything, before, changes[k].idx, changes[k].stack);
        SetWindowSlot(changes[k].idx, changes[k].stack);
        assert changes[k..][1..] == changes[k + 1..];
      }
    }

    method DropFromSlot(idx: nat, entireStack: bool)
      requires Valid() && CurrentWindow().Names(idx)
      modifies this`dropped, player.slots, if above == null then {} else {above.slots}
      ensures Valid()
      ensures State() == DropFrom(old(State()), idx, entireStack)
    {
      var stack := CurrentWindow().Slot(idx);
      if stack.IsEmpty() {
        return;
      }
      if entireStack || stack.count == 1 {
        SetWindowSlot(idx, EMPTY);
        dropped := dropped + [stack];
      } else {
        SetWindowSlot(idx, stack.WithCount(stack.count - 1));
        dropped := dropped + [stack.WithCount(1)];
      }
    }

    /** A click outside the window. */
    method DropCursor()
      requires Valid()
      modifies this`cursor, this`dropped
      ensures Valid()
      ensures State() == old(State()).(cursor := EMPTY,
        dropped := if old(cursor).IsEmpty() then old(dropped) else old(dropped) + [old(cursor)])
    {
      var stack := cursor;
      cursor := EMPTY;
      if !stack.IsEmpty() {
        dropped := dropped + [stack];
      }
    }

    method ApplyVerdict(verdict: Verdict)
      requires Valid()
      requires forall k :: 0 <= k < |verdict.changes| ==> CurrentWindow().Names(verdict.changes[k].idx)
      modifies this`cursor, player.slots, if above == null then {} else {above.slots}
      ensures Valid()
      ensures State() == old(State()).(window := Apply(old(CurrentWindow()), verdict.changes), cursor := verdict.cursor)
    {
      ApplyChanges(verdict.changes);
      cursor := verdict.cursor;
    }

    method HandleClickSlot(p: ClickPacket)
      requires Valid() && !Panics(p, State())
      modifies this`cursor, this`dropped, this`stateId, player.slots, if above == null then {} else {above.slots}
      ensures Valid()
      ensures State() == Handle(old(State()), p)
    {
      var verdict := ValidateClickSlotPacket(p, CurrentWindow(), cursor);
      if verdict.None? {
        return;
      }
      AcceptedIsReadable(p, State());
      if p.slotIdx == SLOT_OUTSIDE && p.mode == Click {
        DropCursor();
      } else if p.mode == DropKey {
        if above != null && stateId != p.stateId {
          stateId := stateId + 1;
        } else if p.slotIdx != SLOT_OUTSIDE {
          DropFromSlot(p.slotIdx, p.button == 1);
        }
      } else if stateId != p.stateId {
        stateId := stateId + 1;
      } else {
        VerdictNames(p, CurrentWindow(), cursor, verdict.value);
        ApplyVerdict(verdict.value);
      }
    }

    /** All packets of a tick. */
    method HandleClickSlots(packets: seq<ClickPacket>)
      requires Valid() && NonePanics(State(), packets)
      modifies this`cursor, this`dropped, this`stateId, player.slots, if above == null then {} else {above.slots}
      ensures Valid()
      ensures State() == HandleAll(old(State()), packets)
    {
      for k := 0 to |packets|
        invariant Valid()
        invariant NonePanics(State(), packets[k..])
        invariant HandleAll(State(), packets[k..]) == HandleAll(old(State()), packets)
      {
        ghost var before := State();
        HandleKeepsShape(before, packets[k]);
        HandleClickSlot(packets[k]);
        assert packets[k..][1..] == packets[k + 1..];
      }
    }
  }
}
