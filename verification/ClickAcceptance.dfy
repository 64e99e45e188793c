/** Which packets are accepted and with what verdict, said at once: buttons and places by their numbers, stacks by
    where they come from. */
module ClickAcceptance {
  import opened Wrappers
  import opened Items
  import opened Clicks
  import opened ClickActions

  // ---- Where a click can be ----

  /** A slot index, or the one past the player's last slot. */
  predicate Indexed(w: Window, idx: i16) {
    0 <= idx <= if w.above.None? then 46 else |w.above.value| + 36
  }

  predicate Buttons(mode: ClickMode, button: i8) {
    match mode
    case Click | ShiftClick | DropKey => button in {0, 1}
    case Hotbar => button in {0, 1, 2, 3, 4, 5, 6, 7, 8, 40}
    case CreativeMiddleClick => button == 2
    case Drag => button in {0, 1, 2, 4, 5, 6, 8, 9, 10}
    case DoubleClick => button == 0
  }

  /** On a slot, or outside the window, or on its margin. */
  predicate Placed(p: ClickPacket, w: Window) {
    match p.mode
    case Click => Indexed(w, p.slotIdx) || p.slotIdx in {-999, -1}
    case ShiftClick | CreativeMiddleClick => Indexed(w, p.slotIdx)
    case DropKey | Drag => Indexed(w, p.slotIdx) || p.slotIdx == -999
    case Hotbar | DoubleClick => true
  }

  /** The packet is for the open window, and its places and button are ones there are. Three of the modes leave
      nothing on the cursor. */
  ghost predicate Offered(p: ClickPacket, w: Window) {
    && (p.windowId == 0 <==> w.above.None?)
    && (forall k :: 0 <= k < |p.changes| ==> Indexed(w, p.changes[k].idx))
    && Buttons(p.mode, p.button) && Placed(p, w)
    && (p.mode in {ShiftClick, Hotbar, DropKey} ==> p.carried.item == Air || p.carried.count <= 0)
  }

  lemma IndexedIff(w: Window, idx: i16)
    requires w.Valid()
    ensures Indexed(w, idx) <==> PassesRange(w, idx)
  {
  }

  lemma OfferedIff(p: ClickPacket, w: Window)
    requires w.Valid()
    ensures Offered(p, w) <==> StaticChecks(p, w)
  {
    IndexedIff(w, p.slotIdx);
    forall k | 0 <= k < |p.changes|
      ensures Indexed(w, p.changes[k].idx) <==> PassesRange(w, p.changes[k].idx)
    {
      IndexedIff(w, p.changes[k].idx);
    }
  }

  /** How many slots a click may change; a drag changes none before it ends. */
  predicate Numbered(p: ClickPacket) {
    match p.mode
    case Click => |p.changes| == 0 || (|p.changes| == 1 && p.slotIdx !in {-999, -1})
    case ShiftClick => |p.changes| in {0, 2, 3}
    case Hotbar => |p.changes| in {0, 2}
    case DropKey => |p.changes| == 0 || (|p.changes| == 1 && p.changes[0].idx == p.slotIdx)
    case Drag => p.button in {2, 6, 10} || |p.changes| == 0
    case CreativeMiddleClick | DoubleClick => true
  }

  lemma NumberedIff(p: ClickPacket)
    ensures Numbered(p) <==> !TurnedAway(p)
  {
  }

  // ---- Where stacks come from ----

  predicate Nothing(hashed: HashedStack) {
    hashed.item == Air || hashed.count <= 0
  }

  predicate Has(stack: ItemStack, item: ItemKind) {
    stack.item == item && stack.item != Air && stack.count > 0
  }

  /** Nothing for nothing; else what the first source of the kind holds, as many as said. */
  ghost predicate ComesFrom(stack: ItemStack, hashed: HashedStack, sources: seq<ItemStack>) {
    if Nothing(hashed) then stack == EMPTY
    else exists k: nat :: IsFirst(sources, hashed.item, k) && stack == sources[k].WithCount(hashed.count)
  }

  ghost predicate IsFirst(sources: seq<ItemStack>, item: ItemKind, k: nat) {
    k < |sources| && Has(sources[k], item) && forall j :: 0 <= j < k ==> !Has(sources[j], item)
  }

  lemma FromOne(stack: ItemStack, hashed: HashedStack, a: ItemStack)
    ensures ComesFrom(stack, hashed, [a]) <==>
      (if hashed.IsEmpty() then Some(EMPTY) else Recount(a, hashed)) == Some(stack)
  {
    assert [a][0] == a;
    if Has(a, hashed.item) {
      assert IsFirst([a], hashed.item, 0);
    }
  }

  lemma FromTwo(stack: ItemStack, hashed: HashedStack, a: ItemStack, b: ItemStack)
    ensures ComesFrom(stack, hashed, [a, b]) <==>
      (if hashed.IsEmpty() then Some(EMPTY) else OrElse(Recount(a, hashed), Recount(b, hashed))) == Some(stack)
  {
    var sources := [a, b];
    if Has(a, hashed.item) {
      assert IsFirst(sources, hashed.item, 0);
    } else if Has(b, hashed.item) {
      assert IsFirst(sources, hashed.item, 1);
    }
  }

  /** What the changed slots held. */
  function OldStacks(p: ClickPacket, w: Window): seq<ItemStack>
    requires w.Valid() && forall k :: 0 <= k < |p.changes| ==> w.Names(p.changes[k].idx)
  {
    seq(|p.changes|, k requires 0 <= k < |p.changes| && w.Names(p.changes[k].idx) => w.Slot(p.changes[k].idx))
  }

  /** `FindSource` finds the first slot that has the carried kind, or there is none. */
  lemma {:induction false} SourceFound(p: ClickPacket, w: Window, n: nat) returns (k: nat)
    requires w.Valid() && Readable(p, w) && n <= |p.changes|
    ensures n <= k <= |p.changes|
    ensures forall j :: n <= j < k ==> !Has(OldStacks(p, w)[j], p.carried.item)
    ensures FindSource(p, w, n) ==
      if k == |p.changes| then None else Some(OldStacks(p, w)[k].WithCount(p.carried.count))
    ensures k < |p.changes| ==> Has(OldStacks(p, w)[k], p.carried.item)
    decreases |p.changes| - n
  {
    if n == |p.changes| || Has(OldStacks(p, w)[n], p.carried.item) {
      k := n;
    } else {
      k := SourceFound(p, w, n + 1);
    }
  }

  lemma FromCursorOrSlots(p: ClickPacket, w: Window, cursor: ItemStack, stack: ItemStack)
    requires w.Valid() && Readable(p, w) && !p.carried.IsEmpty()
    ensures ComesFrom(stack, p.carried, [cursor] + OldStacks(p, w)) <==>
      OrElse(Recount(cursor, p.carried), FindSource(p, w, 0)) == Some(stack)
  {
    var slots := OldStacks(p, w);
    var sources, item := [cursor] + slots, p.carried.item;
    var k := SourceFound(p, w, 0);
    if Has(cursor, item) {
      assert IsFirst(sources, item, 0);
    } else if k < |slots| {
      assert IsFirst(sources, item, k + 1);
      assert sources[k + 1] == slots[k];
    } else {
      forall j | 0 <= j < |sources|
        ensures !Has(sources[j], item)
      {
        assert j > 0 ==> sources[j] == slots[j - 1];
      }
    }
  }

  // ---- Verdicts ----

  /** A left click trades slot and cursor when they hold different kinds, when only the slot holds items, or when
      only the cursor does and the slot can take them all. */
  predicate Trades(slot: ItemStack, cursor: ItemStack) {
    var some, held := slot.item != Air && slot.count > 0, cursor.item != Air && cursor.count > 0;
    if some && held then slot.item != cursor.item
    else some || (held && cursor.count <= cursor.item.MaxStack())
  }

  ghost predicate FairClick(p: ClickPacket, w: Window, cursor: ItemStack, v: Verdict)
    requires w.Valid() && ChangesReadable(p, w) && Numbered(p) && p.mode == Click && |v.changes| == |p.changes|
  {
    if p.changes == [] then
      if p.slotIdx == -999 then
        && v.cursor == EMPTY
        && NetDelta(p, w, cursor) == if p.button == 0 then -(cursor.Items() as int) else -1
      else
        && v.cursor == cursor
        && if p.slotIdx == -1 then NetDelta(p, w, cursor) == 0 else p.carried == Hash(cursor)
    else
      var slot, said, made := w.Slot(p.changes[0].idx), p.changes[0].stack, v.changes[0].stack;
      if p.button == 0 && Trades(slot, cursor) then
        p.carried == Hash(slot) && said == Hash(cursor) && v.cursor == slot && made == cursor
      else
        && NetDelta(p, w, cursor) == 0
        && ComesFrom(made, said, [cursor, slot]) && ComesFrom(v.cursor, p.carried, [cursor, slot])
  }

  /** Everything that arrives is of the kind in the clicked slot, and something does. */
  ghost predicate FairShiftClick(p: ClickPacket, w: Window, cursor: ItemStack, v: Verdict)
    requires w.Valid() && Readable(p, w) && p.mode == ShiftClick && |v.changes| == |p.changes|
  {
    && NetDelta(p, w, cursor) == 0 && v.cursor == EMPTY
    && (p.changes != [] ==> exists k :: 0 <= k < |p.changes| && !Nothing(p.changes[k].stack))
    && forall k :: 0 <= k < |p.changes| ==>
         var said, made, source := p.changes[k].stack, v.changes[k].stack, w.Slot(p.slotIdx);
         if Nothing(said) then made == EMPTY else said.item == source.item && made == source.WithCount(said.count)
  }

  /** Each of the two slots gets what the other one held; the counts are those of either. */
  ghost predicate FairHotbar(p: ClickPacket, w: Window, cursor: ItemStack, v: Verdict)
    requires w.Valid() && ChangesReadable(p, w) && Numbered(p) && p.mode == Hotbar && |v.changes| == |p.changes|
  {
    && NetDelta(p, w, cursor) == 0 && v.cursor == EMPTY
    && (p.changes != [] ==>
          var a, b := w.Slot(p.changes[0].idx), w.Slot(p.changes[1].idx);
          && p.changes[0].stack in {Hash(a), Hash(b)} && p.changes[1].stack in {Hash(a), Hash(b)}
          && ComesFrom(v.changes[0].stack, p.changes[0].stack, [b])
          && ComesFrom(v.changes[1].stack, p.changes[1].stack, [a]))
  }

  ghost predicate FairDropKey(p: ClickPacket, w: Window, cursor: ItemStack, v: Verdict)
    requires w.Valid() && ChangesReadable(p, w) && Numbered(p) && p.mode == DropKey && |v.changes| == |p.changes|
  {
    && v.cursor == EMPTY
    && if p.changes == [] then NetDelta(p, w, cursor) == 0
       else
         var slot := w.Slot(p.slotIdx);
         && NetDelta(p, w, cursor) == (if p.button == 0 then -1 else -(slot.Items() as int))
         && ComesFrom(v.changes[0].stack, p.changes[0].stack, [slot])
  }

  ghost predicate FairDrag(p: ClickPacket, w: Window, cursor: ItemStack, v: Verdict)
    requires w.Valid() && ChangesReadable(p, w) && p.mode == Drag && |v.changes| == |p.changes|
  {
    if p.button !in {2, 6, 10} then p.carried == Hash(cursor) && v.cursor == cursor
    else
      && NetDelta(p, w, cursor) == 0
      && ComesFrom(v.cursor, p.carried, [cursor])
      && forall k :: 0 <= k < |p.changes| ==>
           && !Nothing(p.changes[k].stack)
           && ComesFrom(v.changes[k].stack, p.changes[k].stack, [cursor, w.Slot(p.changes[k].idx)])
  }

  /** The slots keep their kinds, whatever the packet names. */
  ghost predicate FairDoubleClick(p: ClickPacket, w: Window, cursor: ItemStack, v: Verdict)
    requires w.Valid() && ChangesReadable(p, w) && p.mode == DoubleClick && |v.changes| == |p.changes|
  {
    && NetDelta(p, w, cursor) == 0
    && ComesFrom(v.cursor, p.carried, [cursor] + OldStacks(p, w))
    && forall k :: 0 <= k < |p.changes| ==>
         var said := p.changes[k].stack;
         v.changes[k].stack == if Nothing(said) then EMPTY else w.Slot(p.changes[k].idx).WithCount(said.count)
  }

  /** All slots that are looked at exist, and the verdict is for the slots of the packet. */
  ghost predicate Fair(p: ClickPacket, w: Window, cursor: ItemStack, v: Verdict)
    requires w.Valid()
  {
    && Offered(p, w) && Numbered(p)
    && if p.mode == CreativeMiddleClick then v == Verdict(EMPTY, [])
       else
         && (forall k :: 0 <= k < |p.changes| ==> w.Names(p.changes[k].idx))
         && (p.mode == ShiftClick && p.changes != [] ==> w.Names(p.slotIdx))
         && |v.changes| == |p.changes|
         && (forall k :: 0 <= k < |p.changes| ==> v.changes[k].idx == p.changes[k].idx)
         && FairIn(p, w, cursor, v)
  }

  ghost predicate FairIn(p: ClickPacket, w: Window, cursor: ItemStack, v: Verdict)
    requires w.Valid() && Offered(p, w) && Numbered(p) && p.mode != CreativeMiddleClick
    requires forall k :: 0 <= k < |p.changes| ==> w.Names(p.changes[k].idx)
    requires p.mode == ShiftClick && p.changes != [] ==> w.Names(p.slotIdx)
    requires |v.changes| == |p.changes|
  {
    OfferedIff(p, w);
    match p.mode
    case Click => FairClick(p, w, cursor, v)
    case ShiftClick => FairShiftClick(p, w, cursor, v)
    case Hotbar => FairHotbar(p, w, cursor, v)
    case DropKey => FairDropKey(p, w, cursor, v)
    case Drag => FairDrag(p, w, cursor, v)
    case DoubleClick => FairDoubleClick(p, w, cursor, v)
  }

  // ---- The verdict is the one described ----

  lemma UnhashedIff(p: ClickPacket, w: Window, cursor: ItemStack, out: seq<SlotChange>)
    requires w.Valid() && Readable(p, w)
    ensures UnhashChanges(p, w, cursor, |p.changes|) == Some(out) <==>
      && |out| == |p.changes|
      && forall k :: 0 <= k < |out| ==>
           out[k].idx == p.changes[k].idx && UnhashChange(p, w, cursor, k) == Some(out[k].stack)
  {
    UnhashedNames(p, w, cursor, |p.changes|);
    if |out| == |p.changes| && forall k :: 0 <= k < |out| ==>
         p.changes[k].idx == out[k].idx && UnhashChange(p, w, cursor, k) == Some(out[k].stack) {
      UnhashAll(p, w, cursor, out, |out|);
      assert out[..|out|] == out;
    }
  }

  /** What the checks of the mode and the search for stacks come to. */
  ghost predicate Judged(p: ClickPacket, w: Window, cursor: ItemStack, v: Verdict)
    requires w.Valid() && Readable(p, w) && |v.changes| == |p.changes|
  {
    && Guard(p, w, cursor)
    && UnhashCursor(p, w, cursor) == Some(v.cursor)
    && forall k :: 0 <= k < |p.changes| ==> UnhashChange(p, w, cursor, k) == Some(v.changes[k].stack)
  }

  lemma TurnedAwayFails(p: ClickPacket, w: Window, cursor: ItemStack)
    requires w.Valid() && Readable(p, w) && TurnedAway(p)
    ensures !Guard(p, w, cursor)
  {
  }

  lemma ClickIff(p: ClickPacket, w: Window, cursor: ItemStack, v: Verdict)
    requires w.Valid() && Readable(p, w) && Numbered(p) && p.mode == Click && |v.changes| == |p.changes|
    ensures Judged(p, w, cursor, v) <==> FairClick(p, w, cursor, v)
  {
    if |p.changes| == 1 {
      var slot := w.Slot(p.changes[0].idx);
      FromTwo(v.changes[0].stack, p.changes[0].stack, cursor, slot);
      FromTwo(v.cursor, p.carried, cursor, slot);
    }
  }

  lemma ShiftClickIff(p: ClickPacket, w: Window, cursor: ItemStack, v: Verdict)
    requires w.Valid() && Readable(p, w) && Numbered(p) && p.mode == ShiftClick && |v.changes| == |p.changes|
    ensures Judged(p, w, cursor, v) <==> FairShiftClick(p, w, cursor, v)
  {
  }

  lemma HotbarIff(p: ClickPacket, w: Window, cursor: ItemStack, v: Verdict)
    requires w.Valid() && Readable(p, w) && Numbered(p) && p.mode == Hotbar && |v.changes| == |p.changes|
    ensures Judged(p, w, cursor, v) <==> FairHotbar(p, w, cursor, v)
  {
    if |p.changes| == 2 {
      FromOne(v.changes[0].stack, p.changes[0].stack, w.Slot(p.changes[1].idx));
      FromOne(v.changes[1].stack, p.changes[1].stack, w.Slot(p.changes[0].idx));
    }
  }

  lemma DropKeyIff(p: ClickPacket, w: Window, cursor: ItemStack, v: Verdict)
    requires w.Valid() && Readable(p, w) && Numbered(p) && p.mode == DropKey && |v.changes| == |p.changes|
    ensures Judged(p, w, cursor, v) <==> FairDropKey(p, w, cursor, v)
  {
    if |p.changes| == 1 {
      FromOne(v.changes[0].stack, p.changes[0].stack, w.Slot(p.slotIdx));
    }
  }

  lemma DragIff(p: ClickPacket, w: Window, cursor: ItemStack, v: Verdict)
    requires w.Valid() && Readable(p, w) && Numbered(p) && p.mode == Drag && |v.changes| == |p.changes|
    ensures Judged(p, w, cursor, v) <==> FairDrag(p, w, cursor, v)
  {
    FromOne(v.cursor, p.carried, cursor);
    forall k | 0 <= k < |p.changes|
      ensures UnhashChange(p, w, cursor, k) == Some(v.changes[k].stack) <==>
        && !Nothing(p.changes[k].stack)
        && ComesFrom(v.changes[k].stack, p.changes[k].stack, [cursor, w.Slot(p.changes[k].idx)])
    {
      FromTwo(v.changes[k].stack, p.changes[k].stack, cursor, w.Slot(p.changes[k].idx));
    }
  }

  lemma DoubleClickIff(p: ClickPacket, w: Window, cursor: ItemStack, v: Verdict)
    requires w.Valid() && Readable(p, w) && p.mode == DoubleClick && |v.changes| == |p.changes|
    ensures Judged(p, w, cursor, v) <==> FairDoubleClick(p, w, cursor, v)
  {
    if !p.carried.IsEmpty() {
      FromCursorOrSlots(p, w, cursor, v.cursor);
    }
  }

  lemma JudgedIff(p: ClickPacket, w: Window, cursor: ItemStack, v: Verdict)
    requires w.Valid() && Readable(p, w) && Numbered(p) && p.mode != CreativeMiddleClick && |v.changes| == |p.changes|
    ensures Offered(p, w)
    ensures Judged(p, w, cursor, v) <==> FairIn(p, w, cursor, v)
  {
    OfferedIff(p, w);
    match p.mode
    case Click => ClickIff(p, w, cursor, v);
    case ShiftClick => ShiftClickIff(p, w, cursor, v);
    case Hotbar => HotbarIff(p, w, cursor, v);
    case DropKey => DropKeyIff(p, w, cursor, v);
    case Drag => DragIff(p, w, cursor, v);
    case DoubleClick => DoubleClickIff(p, w, cursor, v);
  }

  lemma JudgeIff(p: ClickPacket, w: Window, cursor: ItemStack, v: Verdict)
    requires w.Valid() && Readable(p, w) && p.mode != CreativeMiddleClick
    ensures Judge(p, w, cursor) == Some(v) <==>
      && |v.changes| == |p.changes|
      && (forall k :: 0 <= k < |p.changes| ==> v.changes[k].idx == p.changes[k].idx)
      && Judged(p, w, cursor, v)
  {
    UnhashedIff(p, w, cursor, v.changes);
  }

  /** A packet that does not panic is accepted, and with this verdict, exactly when the verdict is fair. */
  lemma VerdictIff(p: ClickPacket, w: Window, cursor: ItemStack, v: Verdict)
    requires w.Valid() && !CheckPanics(p, w, cursor)
    ensures Validate(p, w, cursor) == Some(v) <==> Fair(p, w, cursor, v)
  {
    OfferedIff(p, w);
    NumberedIff(p);
    if Readable(p, w) && p.mode != CreativeMiddleClick {
      JudgeIff(p, w, cursor, v);
      if TurnedAway(p) {
        TurnedAwayFails(p, w, cursor);
      } else if |v.changes| == |p.changes| {
        JudgedIff(p, w, cursor, v);
      }
    }
  }

  // ---- Panics ----

  ghost predicate Refers(p: ClickPacket, idx: int) {
    exists k :: 0 <= k < |p.changes| && p.changes[k].idx == idx
  }

  /** All checks before the one for the clicked slot are passed. */
  ghost predicate MovesNothingNew(p: ClickPacket, w: Window, cursor: ItemStack)
    requires w.Valid() && Offered(p, w) && w.above.None? && !Refers(p, 46)
  {
    OfferedIff(p, w);
    ReferredNames(p, w);
    NetDelta(p, w, cursor) == 0 && exists k :: 0 <= k < |p.changes| && !Nothing(p.changes[k].stack)
  }

  lemma ReferredNames(p: ClickPacket, w: Window)
    requires w.Valid() && Offered(p, w) && w.above.None? && !Refers(p, 46)
    ensures forall k :: 0 <= k < |p.changes| ==> w.Names(p.changes[k].idx)
  {
  }

  /** With nothing open above the player's inventory there are 46 slots, and index 46 passes the checks. The handler
      panics on a packet that gets as far as looking at that slot: one that changes it, a shift click on it that
      moves something, or a drop of it that lists no change. */
  lemma PanicsIff(p: ClickPacket, world: World)
    requires world.window.Valid()
    ensures Panics(p, world) <==>
      && world.window.above.None? && Offered(p, world.window) && Numbered(p) && p.mode != CreativeMiddleClick
      && (|| Refers(p, 46)
          || (p.slotIdx == 46 && p.mode == ShiftClick && MovesNothingNew(p, world.window, world.cursor))
          || (p.slotIdx == 46 && p.mode == DropKey && p.changes == [] && world.cursor.IsEmpty()))
  {
    var w := world.window;
    OfferedIff(p, w);
    NumberedIff(p);
    if w.above.None? && Offered(p, w) && !Refers(p, 46) {
      ReferredNames(p, w);
    }
  }
}
