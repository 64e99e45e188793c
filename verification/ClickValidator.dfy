/** Validation of a click packet as the program performs it, branch by branch and loop by loop. */
module ClickValidator {
  import opened Wrappers
  import opened Items
  import opened Clicks

  /** The delta loop. */
  method CalculateNetItemDelta(p: ClickPacket, w: Window, cursor: ItemStack) returns (netItemDelta: int)
    requires w.Valid() && ChangesReadable(p, w)
    ensures netItemDelta == NetDelta(p, w, cursor)
  {
    netItemDelta := 0;
    for k := 0 to |p.changes|
      invariant netItemDelta == SlotDelta(p, w, k)
    {
      var slot, oldSlot := p.changes[k].stack, w.Slot(p.changes[k].idx);
      netItemDelta := netItemDelta +
        if !oldSlot.IsEmpty() && !slot.IsEmpty() then slot.count - oldSlot.count
        else if !oldSlot.IsEmpty() then -oldSlot.count as int
        else if !slot.IsEmpty() then slot.count
        else 0;
    }
    netItemDelta := netItemDelta +
      if !cursor.IsEmpty() && !p.carried.IsEmpty() then p.carried.count - cursor.count
      else if !cursor.IsEmpty() then -cursor.count as int
      else if !p.carried.IsEmpty() then p.carried.count
      else 0;
  }

  // ---- The first checks ----

  function Max(a: i8, b: i8): i8 {
    if a < b then b else a
  }

  method CheckStatic(p: ClickPacket, w: Window) returns (ok: bool)
    requires w.Valid()
    ensures ok == StaticChecks(p, w)
  {
    if (p.windowId == 0) != w.above.None? {
      return false;
    }
    var maxSlot: nat := if w.above.Some? then MAIN_SIZE + |w.above.value| else |w.player|;
    for k := 0 to |p.changes|
      invariant forall j :: 0 <= j < k ==> PassesRange(w, p.changes[j].idx)
    {
      if !(0 <= AsU16(p.changes[k].idx) <= maxSlot) {
        return false;
      }
      var stack := p.changes[k].stack;
      if !stack.IsEmpty() && !(1 <= stack.count <= Max(stack.item.MaxStack(), stack.count)) {
        return false;
      }
    }
    if !p.carried.IsEmpty() && !(1 <= p.carried.count <= Max(p.carried.item.MaxStack(), p.carried.count)) {
      return false;
    }
    var inRange := 0 <= AsU16(p.slotIdx) <= maxSlot;
    match p.mode {
      case Click =>
        if !(0 <= p.button <= 1) {
          return false;
        }
        return inRange || p.slotIdx == SLOT_OUTSIDE || p.slotIdx == -1;
      case ShiftClick =>
        if !(0 <= p.button <= 1) || !p.carried.IsEmpty() {
          return false;
        }
        return inRange;
      case Hotbar =>
        if !(0 <= p.button <= 8 || p.button == 40) {
          return false;
        }
        return p.carried.IsEmpty();
      case CreativeMiddleClick =>
        if p.button != 2 {
          return false;
        }
        return inRange;
      case DropKey =>
        if !(0 <= p.button <= 1) || !p.carried.IsEmpty() {
          return false;
        }
        return inRange || p.slotIdx == SLOT_OUTSIDE;
      case Drag =>
        if !(0 <= p.button <= 2 || 4 <= p.button <= 6 || 8 <= p.button <= 10) {
          return false;
        }
        return inRange || p.slotIdx == SLOT_OUTSIDE;
      case DoubleClick => return p.button == 0;
    }
  }

  // ---- The modes ----

  /** The packets that a mode's method is for: they have passed the first checks, and none panics. */
  predicate Checked(p: ClickPacket, w: Window, cursor: ItemStack, mode: ClickMode)
    requires w.Valid()
  {
    StaticChecks(p, w) && p.mode == mode && !CheckPanics(p, w, cursor)
  }

  method ValidateClick(p: ClickPacket, w: Window, cursor: ItemStack) returns (r: Option<Verdict>)
    requires w.Valid() && Checked(p, w, cursor, Click)
    ensures r == Validate(p, w, cursor)
  {
    assert Readable(p, w) ==> UnhashChanges(p, w, cursor, 0) == Some([]);
    if p.slotIdx == -1 {
      if p.changes != [] {
        return None;
      }
      var countDeltas := CalculateNetItemDelta(p, w, cursor);
      return if countDeltas == 0 then Some(Verdict(cursor, [])) else None;
    }
    if p.slotIdx == SLOT_OUTSIDE {
      if p.changes != [] {
        return None;
      }
      var countDeltas := CalculateNetItemDelta(p, w, cursor);
      var expectedDelta := if p.button == 1 then -1 else if !cursor.IsEmpty() then -cursor.count as int else 0;
      return if countDeltas == expectedDelta then Some(Verdict(EMPTY, [])) else None;
    }
    if p.changes == [] {
      var countDeltas := CalculateNetItemDelta(p, w, cursor);
      if countDeltas != 0 || p.carried.item != cursor.item || p.carried.count != cursor.count {
        return None;
      }
      return Some(Verdict(cursor, []));
    }
    if |p.changes| != 1 {
      return None;
    }
    ChangesExist(p, w, cursor);
    r := ValidateSingleClick(p, w, cursor);
  }

  lemma SingleChange(p: ClickPacket, w: Window, cursor: ItemStack)
    requires w.Valid() && Readable(p, w) && |p.changes| == 1
    requires UnhashChange(p, w, cursor, 0).Some?
    ensures UnhashChanges(p, w, cursor, 1) ==
            Some([SlotChange(p.changes[0].idx, UnhashChange(p, w, cursor, 0).value)])
  {
    var none: seq<SlotChange>, one := [], SlotChange(p.changes[0].idx, UnhashChange(p, w, cursor, 0).value);
    assert UnhashChanges(p, w, cursor, 0) == Some(none);
    assert none + [one] == [one];
  }

  method ValidateSingleClick(p: ClickPacket, w: Window, cursor: ItemStack) returns (r: Option<Verdict>)
    requires w.Valid() && Readable(p, w) && p.mode == Click && |p.changes| == 1
    requires p.slotIdx != -1 && p.slotIdx != SLOT_OUTSIDE
    ensures r == Judge(p, w, cursor)
  {
    var idx, hashed := p.changes[0].idx, p.changes[0].stack;
    var oldSlot := w.Slot(idx);
    var shouldSwap := p.button == 0 &&
      if !oldSlot.IsEmpty() && !cursor.IsEmpty() then oldSlot.item != cursor.item
      else if !oldSlot.IsEmpty() then true
      else if !cursor.IsEmpty() then cursor.count <= cursor.item.MaxStack()
      else false;
    if shouldSwap {
      if !(oldSlot.item == p.carried.item && oldSlot.count == p.carried.count
           && cursor.item == hashed.item && cursor.count == hashed.count) {
        return None;
      }
      SingleChange(p, w, cursor);
      return Some(Verdict(oldSlot.WithCount(p.carried.count), [SlotChange(idx, cursor.WithCount(hashed.count))]));
    }
    var countDeltas := CalculateNetItemDelta(p, w, cursor);
    if countDeltas != 0 {
      return None;
    }
    var unhashedSlot := EMPTY;
    if !hashed.IsEmpty() {
      if cursor.item == hashed.item && !cursor.IsEmpty() {
        unhashedSlot := cursor.WithCount(hashed.count);
      } else if oldSlot.item == hashed.item && !oldSlot.IsEmpty() {
        unhashedSlot := oldSlot.WithCount(hashed.count);
      } else {
        return None;
      }
    }
    var newCursor := EMPTY;
    if !p.carried.IsEmpty() {
      if cursor.item == p.carried.item && !cursor.IsEmpty() {
        newCursor := cursor.WithCount(p.carried.count);
      } else if oldSlot.item == p.carried.item && !oldSlot.IsEmpty() {
        newCursor := oldSlot.WithCount(p.carried.count);
      } else {
        return None;
      }
    }
    assert UnhashChange(p, w, cursor, 0) == Some(unhashedSlot);
    SingleChange(p, w, cursor);
    return Some(Verdict(newCursor, [SlotChange(idx, unhashedSlot)]));
  }

  method ValidateShiftClick(p: ClickPacket, w: Window, cursor: ItemStack) returns (r: Option<Verdict>)
    requires w.Valid() && Checked(p, w, cursor, ShiftClick)
    ensures r == Validate(p, w, cursor)
  {
    if p.changes == [] {
      var countDeltas := CalculateNetItemDelta(p, w, cursor);
      return if countDeltas == 0 then Some(Verdict(EMPTY, [])) else None;
    }
    if !(2 <= |p.changes| <= 3) {
      return None;
    }
    ChangesExist(p, w, cursor);
    var countDeltas := CalculateNetItemDelta(p, w, cursor);
    if countDeltas != 0 {
      return None;
    }
    var first := 0;
    while first < |p.changes| && p.changes[first].stack.IsEmpty()
      invariant 0 <= first <= |p.changes|
      invariant forall j :: 0 <= j < first ==> p.changes[j].stack.IsEmpty()
    {
      first := first + 1;
    }
    if first == |p.changes| {
      return None;
    }
    assert !p.changes[first].stack.IsEmpty();
    RangeCheckIff(w, p.slotIdx);
    var itemKind, sourceSlot := p.changes[first].stack.item, w.Slot(p.slotIdx);
    if sourceSlot.item != itemKind {
      return None;
    }
    for k := 0 to |p.changes|
      invariant forall j :: 0 <= j < k && !p.changes[j].stack.IsEmpty() ==> p.changes[j].stack.item == itemKind
    {
      if !p.changes[k].stack.IsEmpty() && p.changes[k].stack.item != itemKind {
        return None;
      }
    }
    var newSlotChanges: seq<SlotChange> := [];
    for k := 0 to |p.changes|
      invariant UnhashChanges(p, w, cursor, k) == Some(newSlotChanges)
    {
      var hashed := p.changes[k].stack;
      var unhashed := if !hashed.IsEmpty() then sourceSlot.WithCount(hashed.count) else EMPTY;
      newSlotChanges := newSlotChanges + [SlotChange(p.changes[k].idx, unhashed)];
    }
    return Some(Verdict(EMPTY, newSlotChanges));
  }

  method ValidateHotbar(p: ClickPacket, w: Window, cursor: ItemStack) returns (r: Option<Verdict>)
    requires w.Valid() && Checked(p, w, cursor, Hotbar)
    ensures r == Validate(p, w, cursor)
  {
    if p.changes == [] {
      var countDeltas := CalculateNetItemDelta(p, w, cursor);
      return if countDeltas == 0 then Some(Verdict(EMPTY, [])) else None;
    }
    if |p.changes| != 2 {
      return None;
    }
    ChangesExist(p, w, cursor);
    var countDeltas := CalculateNetItemDelta(p, w, cursor);
    if countDeltas != 0 {
      return None;
    }
    var oldSlots := [w.Slot(p.changes[0].idx), w.Slot(p.changes[1].idx)];
    for k := 0 to 2
      invariant forall j :: 0 <= j < k ==> IsOldStack(p, w, p.changes[j].stack)
    {
      var hashed := p.changes[k].stack;
      if !(oldSlots[0].item == hashed.item && oldSlots[0].count == hashed.count)
         && !(oldSlots[1].item == hashed.item && oldSlots[1].count == hashed.count) {
        return None;
      }
    }
    var newSlotChanges: seq<SlotChange> := [];
    for k := 0 to 2
      invariant UnhashChanges(p, w, cursor, k) == Some(newSlotChanges)
    {
      var hashed, otherSlot := p.changes[k].stack, oldSlots[1 - k];
      var unhashed := EMPTY;
      if !hashed.IsEmpty() {
        if otherSlot.item == hashed.item && !otherSlot.IsEmpty() {
          unhashed := otherSlot.WithCount(hashed.count);
        } else {
          UnhashStaysNone(p, w, cursor, k + 1, 2);
          return None;
        }
      }
      newSlotChanges := newSlotChanges + [SlotChange(p.changes[k].idx, unhashed)];
    }
    return Some(Verdict(EMPTY, newSlotChanges));
  }

  lemma {:induction false} UnhashStaysNone(p: ClickPacket, w: Window, cursor: ItemStack, m: nat, n: nat)
    requires w.Valid() && Readable(p, w) && m <= n <= |p.changes|
    requires UnhashChanges(p, w, cursor, m).None?
    ensures UnhashChanges(p, w, cursor, n).None?
  {
    if m < n {
      UnhashStaysNone(p, w, cursor, m, n - 1);
    }
  }

  method ValidateDropKey(p: ClickPacket, w: Window, cursor: ItemStack) returns (r: Option<Verdict>)
    requires w.Valid() && Checked(p, w, cursor, DropKey)
    ensures r == Validate(p, w, cursor)
  {
    if p.changes == [] {
      assert UnhashChanges(p, w, cursor, 0) == Some([]);
      var countDeltas := CalculateNetItemDelta(p, w, cursor);
      return if countDeltas == 0 then Some(Verdict(EMPTY, [])) else None;
    }
    if |p.changes| != 1 || p.slotIdx != p.changes[0].idx {
      return None;
    }
    ChangesExist(p, w, cursor);
    assert w.Names(p.slotIdx);
    var oldSlot, newSlot := w.Slot(p.slotIdx), p.changes[0].stack;
    var isTransmuting :=
      if !oldSlot.IsEmpty() && !newSlot.IsEmpty() then oldSlot.item != newSlot.item
      else if newSlot.IsEmpty() then false
      else true;
    if isTransmuting {
      return None;
    }
    var countDeltas := CalculateNetItemDelta(p, w, cursor);
    var expectedDelta := if p.button == 0 then -1 else if !oldSlot.IsEmpty() then -oldSlot.count as int else 0;
    if countDeltas != expectedDelta {
      return None;
    }
    var unhashed := if !newSlot.IsEmpty() then oldSlot.WithCount(newSlot.count) else EMPTY;
    assert UnhashChange(p, w, cursor, 0) == Some(unhashed);
    SingleChange(p, w, cursor);
    return Some(Verdict(EMPTY, [SlotChange(p.changes[0].idx, unhashed)]));
  }

  method ValidateDrag(p: ClickPacket, w: Window, cursor: ItemStack) returns (r: Option<Verdict>)
    requires w.Valid() && Checked(p, w, cursor, Drag)
    ensures r == Validate(p, w, cursor)
  {
    if !(p.button == 2 || p.button == 6 || p.button == 10) {
      if p.changes != [] || p.carried.item != cursor.item || p.carried.count != cursor.count {
        return None;
      }
      return Some(Verdict(cursor, []));
    }
    ChangesExist(p, w, cursor);
    var countDeltas := CalculateNetItemDelta(p, w, cursor);
    if countDeltas != 0 {
      return None;
    }
    var newSlotChanges: seq<SlotChange> := [];
    for k := 0 to |p.changes|
      invariant UnhashChanges(p, w, cursor, k) == Some(newSlotChanges)
    {
      var hashed, currentSlot := p.changes[k].stack, w.Slot(p.changes[k].idx);
      var unhashed: ItemStack;
      if !hashed.IsEmpty() && cursor.item == hashed.item && !cursor.IsEmpty() {
        unhashed := cursor.WithCount(hashed.count);
      } else if !hashed.IsEmpty() && currentSlot.item == hashed.item && !currentSlot.IsEmpty() {
        unhashed := currentSlot.WithCount(hashed.count);
      } else {
        UnhashStaysNone(p, w, cursor, k + 1, |p.changes|);
        return None;
      }
      newSlotChanges := newSlotChanges + [SlotChange(p.changes[k].idx, unhashed)];
    }
    var newCursor := EMPTY;
    if !p.carried.IsEmpty() {
      if cursor.item == p.carried.item && !cursor.IsEmpty() {
        newCursor := cursor.WithCount(p.carried.count);
      } else {
        return None;
      }
    }
    return Some(Verdict(newCursor, newSlotChanges));
  }

  method ValidateDoubleClick(p: ClickPacket, w: Window, cursor: ItemStack) returns (r: Option<Verdict>)
    requires w.Valid() && Checked(p, w, cursor, DoubleClick)
    ensures r == Validate(p, w, cursor)
  {
    ChangesExist(p, w, cursor);
    var countDeltas := CalculateNetItemDelta(p, w, cursor);
    if countDeltas != 0 {
      return None;
    }
    var newSlotChanges: seq<SlotChange> := [];
    for k := 0 to |p.changes|
      invariant UnhashChanges(p, w, cursor, k) == Some(newSlotChanges)
    {
      var hashed, currentSlot := p.changes[k].stack, w.Slot(p.changes[k].idx);
      var unhashed := if !hashed.IsEmpty() then currentSlot.WithCount(hashed.count) else EMPTY;
      newSlotChanges := newSlotChanges + [SlotChange(p.changes[k].idx, unhashed)];
    }
    if p.carried.IsEmpty() {
      return Some(Verdict(EMPTY, newSlotChanges));
    }
    if cursor.item == p.carried.item && !cursor.IsEmpty() {
      return Some(Verdict(cursor.WithCount(p.carried.count), newSlotChanges));
    }
    for k := 0 to |p.changes|
      invariant FindSource(p, w, k) == FindSource(p, w, 0)
    {
      var slot := w.Slot(p.changes[k].idx);
      if slot.item == p.carried.item && !slot.IsEmpty() {
        return Some(Verdict(slot.WithCount(p.carried.count), newSlotChanges));
      }
    }
    return None;
  }

  method ValidateClickSlotPacket(p: ClickPacket, w: Window, cursor: ItemStack) returns (r: Option<Verdict>)
    requires w.Valid() && !CheckPanics(p, w, cursor)
    ensures r == Validate(p, w, cursor)
  {
    var ok := CheckStatic(p, w);
    if !ok {
      return None;
    }
    match p.mode {
      case Click => r := ValidateClick(p, w, cursor);
      case ShiftClick => r := ValidateShiftClick(p, w, cursor);
      case Hotbar => r := ValidateHotbar(p, w, cursor);
      case CreativeMiddleClick => r := Some(Verdict(EMPTY, []));
      case DropKey => r := ValidateDropKey(p, w, cursor);
      case Drag => r := ValidateDrag(p, w, cursor);
      case DoubleClick => r := ValidateDoubleClick(p, w, cursor);
    }
  }
}
