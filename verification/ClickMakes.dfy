/** Where items come from, over runs of packets: as long as empty stacks are of kind air, every stack of items
    there ever is has the kind and the components of a stack of items that was there at the start. */
module ClickMakes {
  import opened Wrappers
  import opened Items
  import opened Clicks
  import opened ClickLaws

  /** An empty stack names no other kind. */
  predicate Tidy(stack: ItemStack) {
    stack.IsEmpty() ==> stack.item == Air
  }

  ghost predicate TidyWorld(world: World)
    requires world.window.Valid()
  {
    Tidy(world.cursor) && forall idx: nat :: world.window.Names(idx) ==> Tidy(world.window.Slot(idx))
  }

  /** Some items of this make are in a slot or on the cursor. */
  ghost predicate HasMake(w: Window, cursor: ItemStack, stack: ItemStack)
    requires w.Valid()
  {
    || (!cursor.IsEmpty() && SameMake(stack, cursor))
    || exists idx: nat :: w.Names(idx) && !w.Slot(idx).IsEmpty() && SameMake(stack, w.Slot(idx))
  }

  /** Nothing, and then of kind air; or items of a make that is there. */
  ghost predicate Sourced(w: Window, cursor: ItemStack, stack: ItemStack)
    requires w.Valid()
  {
    Tidy(stack) && (stack.IsEmpty() || HasMake(w, cursor, stack))
  }

  // ---- What the validator returns ----

  lemma ChangeTidy(p: ClickPacket, w: Window, cursor: ItemStack, k: nat)
    requires w.Valid() && Readable(p, w) && k < |p.changes| && Guard(p, w, cursor) && CarriesOut(p)
    requires Tidy(cursor) && Tidy(w.Slot(p.changes[k].idx))
    requires UnhashChange(p, w, cursor, k).Some?
    ensures Tidy(UnhashChange(p, w, cursor, k).value)
  {
  }

  lemma {:induction false} SourceTidy(p: ClickPacket, w: Window, from: nat)
    requires w.Valid() && Readable(p, w) && from <= |p.changes| && !p.carried.IsEmpty()
    ensures FindSource(p, w, from).Some? ==> Tidy(FindSource(p, w, from).value)
    decreases |p.changes| - from
  {
    if from < |p.changes| {
      SourceTidy(p, w, from + 1);
    }
  }

  lemma CursorTidy(p: ClickPacket, w: Window, cursor: ItemStack)
    requires w.Valid() && Readable(p, w) && Guard(p, w, cursor) && UnhashCursor(p, w, cursor).Some?
    requires Tidy(cursor) && forall k :: 0 <= k < |p.changes| ==> Tidy(w.Slot(p.changes[k].idx))
    ensures Tidy(UnhashCursor(p, w, cursor).value)
  {
    if p.mode == DoubleClick && !p.carried.IsEmpty() {
      SourceTidy(p, w, 0);
    }
  }

  /** In a tidy window, what was there was there in items. */
  lemma WasThereSourced(w: Window, cursor: ItemStack, stack: ItemStack)
    requires w.Valid() && WasThere(w, cursor, stack) && Tidy(stack) && Tidy(cursor)
    requires forall idx: nat :: w.Names(idx) ==> Tidy(w.Slot(idx))
    ensures Sourced(w, cursor, stack)
  {
    if !stack.IsEmpty() && !SameMake(stack, cursor) {
      var idx: nat :| w.Names(idx) && SameMake(stack, w.Slot(idx));
      assert !w.Slot(idx).IsEmpty();
    }
  }

  /** Every stack the validator returns is empty and of kind air, or has the make of items in the window or on
      the cursor. */
  lemma VerdictSourced(p: ClickPacket, w: Window, cursor: ItemStack, verdict: Verdict)
    requires w.Valid() && !CheckPanics(p, w, cursor) && Validate(p, w, cursor) == Some(verdict)
    requires Tidy(cursor) && forall idx: nat :: w.Names(idx) ==> Tidy(w.Slot(idx))
    requires CarriesOut(p)
    ensures Sourced(w, cursor, verdict.cursor)
    ensures forall k :: 0 <= k < |verdict.changes| ==> Sourced(w, cursor, verdict.changes[k].stack)
  {
    Provenance(p, w, cursor, verdict);
    UnhashedNames(p, w, cursor, |p.changes|);
    CursorTidy(p, w, cursor);
    WasThereSourced(w, cursor, verdict.cursor);
    forall k | 0 <= k < |verdict.changes|
      ensures Sourced(w, cursor, verdict.changes[k].stack)
    {
      ChangeTidy(p, w, cursor, k);
      WasThereSourced(w, cursor, verdict.changes[k].stack);
    }
  }

  // ---- What a packet leaves ----

  /** Every slot after the changes holds what it held or what one of them put there. */
  lemma {:induction false} ApplySlot(w: Window, changes: seq<SlotChange>, idx: nat)
    requires w.Valid() && forall k :: 0 <= k < |changes| ==> w.Names(changes[k].idx)
    ensures Apply(w, changes).Names(idx) <==> w.Names(idx)
    ensures w.Names(idx) ==>
      || Apply(w, changes).Slot(idx) == w.Slot(idx)
      || exists k :: 0 <= k < |changes| && Apply(w, changes).Slot(idx) == changes[k].stack
    decreases |changes|
  {
    if changes != [] {
      assert w.Names(changes[0].idx);
      var v := w.SetSlot(changes[0].idx, changes[0].stack);
      SetSlotEffect(Everything, w, changes[0].idx, changes[0].stack);
      ApplySlot(v, changes[1..], idx);
      if w.Names(idx) && Apply(w, changes).Slot(idx) != v.Slot(idx) {
        var k :| 0 <= k < |changes[1..]| && Apply(v, changes[1..]).Slot(idx) == changes[1..][k].stack;
        assert changes[k + 1] == changes[1..][k];
      }
    }
  }

  /** Everything in slots, on the cursor and newly dropped has a source before. */
  ghost predicate AllSourced(before: World, after: World)
    requires before.window.Valid() && after.window.Valid()
  {
    && Sourced(before.window, before.cursor, after.cursor)
    && (forall idx: nat :: after.window.Names(idx) ==> Sourced(before.window, before.cursor, after.window.Slot(idx)))
    && (forall k :: 0 <= k < |after.dropped| ==>
          after.dropped[k] in before.dropped || Sourced(before.window, before.cursor, after.dropped[k]))
  }

  lemma SlotSourced(world: World, idx: nat)
    requires world.window.Valid() && TidyWorld(world) && world.window.Names(idx)
    ensures Sourced(world.window, world.cursor, world.window.Slot(idx))
  {
  }

  lemma SameWorldSourced(world: World)
    requires world.window.Valid() && TidyWorld(world)
    ensures AllSourced(world, world)
  {
    forall idx: nat | world.window.Names(idx)
      ensures Sourced(world.window, world.cursor, world.window.Slot(idx))
    {
      SlotSourced(world, idx);
    }
  }

  lemma DropSourced(world: World, idx: nat, whole: bool)
    requires world.window.Valid() && TidyWorld(world) && world.window.Names(idx)
    ensures DropFrom(world, idx, whole).window.Valid() && AllSourced(world, DropFrom(world, idx, whole))
  {
    var after, stack := DropFrom(world, idx, whole), world.window.Slot(idx);
    SlotSourced(world, idx);
    if stack.IsEmpty() {
      SameWorldSourced(world);
    } else {
      var left := if whole || stack.count == 1 then EMPTY else stack.WithCount(stack.count - 1);
      SetSlotEffect(Everything, world.window, idx, left);
      forall other: nat | after.window.Names(other)
        ensures Sourced(world.window, world.cursor, after.window.Slot(other))
      {
        SlotSourced(world, other);
      }
    }
  }

  lemma AppliedSourced(world: World, p: ClickPacket)
    requires world.window.Valid() && !Panics(p, world) && TidyWorld(world) && Applied(world, p)
    ensures Handle(world, p).window.Valid() && AllSourced(world, Handle(world, p))
  {
    var w := world.window;
    var verdict := Validate(p, w, world.cursor).value;
    VerdictSourced(p, w, world.cursor, verdict);
    VerdictNames(p, w, world.cursor, verdict);
    var after := Handle(world, p);
    forall idx: nat | after.window.Names(idx)
      ensures Sourced(w, world.cursor, after.window.Slot(idx))
    {
      ApplySlot(w, verdict.changes, idx);
      SlotSourced(world, idx);
    }
  }

  /** One packet, accepted or not: everything there is afterwards had a source before. */
  lemma HandleSourced(world: World, p: ClickPacket)
    requires world.window.Valid() && !Panics(p, world) && TidyWorld(world)
    ensures Handle(world, p).window.Valid() && AllSourced(world, Handle(world, p))
  {
    SameWorldSourced(world);
    if Applied(world, p) {
      AppliedSourced(world, p);
    } else if Validate(p, world.window, world.cursor).Some? {
      AcceptedIsReadable(p, world);
      if p.mode == DropKey && p.slotIdx != SLOT_OUTSIDE {
        DropSourced(world, p.slotIdx, p.button == 1);
      }
    }
  }

  // ---- Runs ----

  lemma SourcedIsTidy(before: World, after: World)
    requires before.window.Valid() && after.window.Valid() && AllSourced(before, after)
    ensures TidyWorld(after)
  {
    forall idx: nat | after.window.Names(idx)
      ensures Tidy(after.window.Slot(idx))
    {
      assert Sourced(before.window, before.cursor, after.window.Slot(idx));
    }
  }

  lemma SourcedTransitive(a: World, b: World, stack: ItemStack)
    requires a.window.Valid() && b.window.Valid() && AllSourced(a, b)
    requires Sourced(b.window, b.cursor, stack)
    ensures Sourced(a.window, a.cursor, stack)
  {
    if !stack.IsEmpty() {
      if !b.cursor.IsEmpty() && SameMake(stack, b.cursor) {
        MakeTransitive(a, b.cursor, stack);
      } else {
        var idx: nat :| b.window.Names(idx) && !b.window.Slot(idx).IsEmpty() && SameMake(stack, b.window.Slot(idx));
        assert Sourced(a.window, a.cursor, b.window.Slot(idx));
        MakeTransitive(a, b.window.Slot(idx), stack);
      }
    }
  }

  lemma MakeTransitive(a: World, between: ItemStack, stack: ItemStack)
    requires a.window.Valid() && HasMake(a.window, a.cursor, between) && SameMake(stack, between)
    ensures HasMake(a.window, a.cursor, stack)
  {
    if a.cursor.IsEmpty() || !SameMake(between, a.cursor) {
      var idx: nat :| a.window.Names(idx) && !a.window.Slot(idx).IsEmpty() && SameMake(between, a.window.Slot(idx));
      assert SameMake(stack, a.window.Slot(idx));
    }
  }

  lemma AllTransitive(a: World, b: World, c: World)
    requires a.window.Valid() && b.window.Valid() && c.window.Valid()
    requires AllSourced(a, b) && AllSourced(b, c)
    ensures AllSourced(a, c)
  {
    SourcedTransitive(a, b, c.cursor);
    forall idx: nat | c.window.Names(idx)
      ensures Sourced(a.window, a.cursor, c.window.Slot(idx))
    {
      SourcedTransitive(a, b, c.window.Slot(idx));
    }
    forall k | 0 <= k < |c.dropped| && c.dropped[k] !in a.dropped
      ensures Sourced(a.window, a.cursor, c.dropped[k])
    {
      if c.dropped[k] in b.dropped {
        var j :| 0 <= j < |b.dropped| && b.dropped[j] == c.dropped[k];
      } else {
        SourcedTransitive(a, b, c.dropped[k]);
      }
    }
  }

  /** Over any run of packets from a tidy world: no kind and no components ever appear, in slots, on the cursor
      or dropped, that items in the window or on the cursor did not have at the start. */
  lemma {:induction false} NoNewMakes(world: World, packets: seq<ClickPacket>)
    requires world.window.Valid() && NonePanics(world, packets) && TidyWorld(world)
    ensures HandleAll(world, packets).window.Valid() && TidyWorld(HandleAll(world, packets))
    ensures AllSourced(world, HandleAll(world, packets))
    decreases |packets|
  {
    if packets == [] {
      SameWorldSourced(world);
    } else {
      var next := Handle(world, packets[0]);
      HandleSourced(world, packets[0]);
      SourcedIsTidy(world, next);
      NoNewMakes(next, packets[1..]);
      AllTransitive(world, next, HandleAll(world, packets));
    }
  }
}
