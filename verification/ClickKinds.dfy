/** Which clicks keep the number of items of every kind. The packets are compared by their total only,
    so an accepted click can trade one kind for another; this says exactly when. */
module ClickKinds {
  import opened Items
  import opened Clicks
  import opened ClickLaws
  import opened ClickPredictions

  ghost predicate Balanced(p: ClickPacket, w: Window, cursor: ItemStack)
    requires w.Valid() && Readable(p, w)
  {
    forall kind :: Balance(p, w, cursor, Only(kind)) == 0
  }

  /** Any packet keeps the number of items of a kind if and only if, should it be carried out, the stacks
      it names hold as many of that kind as the ones they replace, or, should it be a creative click, the
      cursor holds none. */
  lemma KindKeptIff(world: World, p: ClickPacket, kind: ItemKind)
    requires world.window.Valid() && !Panics(p, world)
    ensures Handle(world, p).Count(Only(kind)) == world.Count(Only(kind)) <==>
      && (Applied(world, p) ==>
            (Balance(p, world.window, world.cursor, Only(kind)) == 0))
      && (Clears(world, p) ==> world.cursor.Of(Only(kind)) == 0)
  {
    HandleEffect(world, p, Only(kind));
  }

  // ---- Clicks on one slot ----

  /** A swap always keeps every kind. */
  lemma SwapKeepsKinds(p: ClickPacket, w: Window, cursor: ItemStack)
    requires w.Valid() && Readable(p, w) && Guard(p, w, cursor) && IsSwap(p, w, cursor)
    requires p.slotIdx != -1 && p.slotIdx != SLOT_OUTSIDE
    ensures Balanced(p, w, cursor)
  {
    forall kind
      ensures Balance(p, w, cursor, Only(kind)) == 0
    {
      OneSlot(p, w, cursor, Only(kind));
    }
  }

  lemma OneSlot(p: ClickPacket, w: Window, cursor: ItemStack, m: Measure)
    requires w.Valid() && Readable(p, w) && p.mode == Click && |p.changes| == 1
    requires p.slotIdx != -1 && p.slotIdx != SLOT_OUTSIDE
    ensures Balance(p, w, cursor, m) ==
      p.changes[0].stack.Of(m) - w.Slot(p.changes[0].idx).Of(m) + p.carried.Of(m) - cursor.Of(m)
  {
    assert SlotsBalance(p, w, m, 1) == 0;
  }

  /** Slot and cursor do not hold two different kinds; or they hold what they held, or have exchanged it. */
  predicate KeepsApart(p: ClickPacket, w: Window, cursor: ItemStack)
    requires w.Valid() && Readable(p, w) && |p.changes| == 1
  {
    var current, hashed := w.Slot(p.changes[0].idx), p.changes[0].stack;
    || current.IsEmpty() || cursor.IsEmpty() || current.item == cursor.item
    || (Matches(current, hashed) && Matches(cursor, p.carried))
    || (Matches(cursor, hashed) && Matches(current, p.carried))
  }

  /** Every stack of an accepted click on one slot has the kind of the slot or of the cursor. */
  lemma ClickKinds(p: ClickPacket, w: Window, cursor: ItemStack)
    requires w.Valid() && !CheckPanics(p, w, cursor) && Validate(p, w, cursor).Some?
    requires p.mode == Click && p.slotIdx != -1 && p.slotIdx != SLOT_OUTSIDE && |p.changes| == 1
    ensures Readable(p, w)
    ensures var current, hashed := w.Slot(p.changes[0].idx), p.changes[0].stack;
      && (hashed.IsEmpty() || (!cursor.IsEmpty() && hashed.item == cursor.item)
          || (!current.IsEmpty() && hashed.item == current.item))
      && (p.carried.IsEmpty() || (!cursor.IsEmpty() && p.carried.item == cursor.item)
          || (!current.IsEmpty() && p.carried.item == current.item))
      && hashed.Items() + p.carried.Items() == current.Items() + cursor.Items()
  {
    UnhashedNames(p, w, cursor, 1);
    assert UnhashChange(p, w, cursor, 0).Some?;
    GuardBalances(p, w, cursor);
    assert SlotDelta(p, w, 1) == SlotDelta(p, w, 0) + p.changes[0].stack.Items() - w.Slot(p.changes[0].idx).Items();
  }

  /** An accepted click on one slot keeps every kind if and only if slot and cursor are kept apart, or
      there is only one kind between them. */
  lemma ClickKeepsKindsIff(p: ClickPacket, w: Window, cursor: ItemStack)
    requires w.Valid() && !CheckPanics(p, w, cursor) && Validate(p, w, cursor).Some?
    requires p.mode == Click && p.slotIdx != -1 && p.slotIdx != SLOT_OUTSIDE && |p.changes| == 1
    ensures Readable(p, w)
    ensures Balanced(p, w, cursor) <==> KeepsApart(p, w, cursor)
  {
    ClickKinds(p, w, cursor);
    var current := w.Slot(p.changes[0].idx);
    if KeepsApart(p, w, cursor) {
      forall kind
        ensures Balance(p, w, cursor, Only(kind)) == 0
      {
        OneSlot(p, w, cursor, Only(kind));
      }
    } else {
      OneSlot(p, w, cursor, Only(current.item));
      OneSlot(p, w, cursor, Only(cursor.item));
      assert Balance(p, w, cursor, Only(current.item)) != 0;
    }
  }

  // ---- Any click on one kind ----

  /** Cursor, changed slots and clicked slot hold nothing but items of one kind. An emptied slot that
      still names another kind matters where the slot's kind is what is kept. */
  ghost predicate OneKind(p: ClickPacket, w: Window, cursor: ItemStack, kind: ItemKind)
    requires w.Valid() && Readable(p, w)
  {
    && (cursor.IsEmpty() || cursor.item == kind)
    && (forall k :: 0 <= k < |p.changes| ==>
          var current := w.Slot(p.changes[k].idx);
          current.item == Air || current.item == kind || (current.IsEmpty() && p.mode != DoubleClick))
    && (p.mode == ShiftClick && p.changes != [] ==> w.Slot(p.slotIdx).item == kind)
  }

  lemma PutOneKind(p: ClickPacket, w: Window, cursor: ItemStack, kind: ItemKind, other: ItemKind, k: nat)
    requires w.Valid() && Readable(p, w) && k < |p.changes|
    requires Guard(p, w, cursor) && CarriesOut(p) && UnhashChange(p, w, cursor, k).Some?
    requires OneKind(p, w, cursor, kind)
    ensures Put(p, w, k, Only(other)) == if other == kind then Put(p, w, k, Everything) else 0
  {
    if p.mode == ShiftClick {
      assert !p.changes[k].stack.IsEmpty() ==> p.changes[k].stack.item == w.Slot(p.slotIdx).item;
    }
  }

  lemma {:induction false} SlotsOneKind(p: ClickPacket, w: Window, cursor: ItemStack, kind: ItemKind, other: ItemKind,
                                        i: nat)
    requires w.Valid() && Readable(p, w) && i <= |p.changes|
    requires Guard(p, w, cursor) && CarriesOut(p) && OneKind(p, w, cursor, kind)
    requires forall k :: 0 <= k < |p.changes| ==> UnhashChange(p, w, cursor, k).Some?
    ensures SlotsBalance(p, w, Only(other), i) == if other == kind then SlotsBalance(p, w, Everything, i) else 0
    decreases |p.changes| - i
  {
    if i < |p.changes| {
      SlotsOneKind(p, w, cursor, kind, other, i + 1);
      PutOneKind(p, w, cursor, kind, other, i);
    }
  }

  lemma {:induction false} FoundKind(p: ClickPacket, w: Window, cursor: ItemStack, kind: ItemKind, from: nat)
    requires w.Valid() && Readable(p, w) && from <= |p.changes| && OneKind(p, w, cursor, kind)
    requires FindSource(p, w, from).Some?
    ensures p.carried.item == kind
    decreases |p.changes| - from
  {
    if Recount(w.Slot(p.changes[from].idx), p.carried).None? {
      FoundKind(p, w, cursor, kind, from + 1);
    }
  }

  lemma CursorOneKind(p: ClickPacket, w: Window, cursor: ItemStack, kind: ItemKind, other: ItemKind)
    requires w.Valid() && Readable(p, w) && OneKind(p, w, cursor, kind)
    requires Guard(p, w, cursor) && CarriesOut(p) && UnhashCursor(p, w, cursor).Some?
    ensures Carried(p, cursor, Only(other)) == if other == kind then Carried(p, cursor, Everything) else 0
  {
    if p.mode == DoubleClick && !p.carried.IsEmpty() && Recount(cursor, p.carried).None? {
      FoundKind(p, w, cursor, kind, 0);
    }
  }

  lemma BalanceOneKind(p: ClickPacket, w: Window, cursor: ItemStack, kind: ItemKind, other: ItemKind)
    requires w.Valid() && !CheckPanics(p, w, cursor) && Validate(p, w, cursor).Some? && CarriesOut(p)
    requires Readable(p, w) && OneKind(p, w, cursor, kind)
    ensures Balance(p, w, cursor, Only(other)) == if other == kind then Balance(p, w, cursor, Everything) else 0
  {
    UnhashedNames(p, w, cursor, |p.changes|);
    assert forall k :: 0 <= k < |p.changes| ==> UnhashChange(p, w, cursor, k).Some?;
    SlotsOneKind(p, w, cursor, kind, other, 0);
    CursorOneKind(p, w, cursor, kind, other);
  }

  /** In every mode, an accepted click that involves one kind only keeps every kind if and only if it
      keeps the total. */
  lemma OneKindKeepsIff(p: ClickPacket, w: Window, cursor: ItemStack, kind: ItemKind)
    requires w.Valid() && !CheckPanics(p, w, cursor) && Validate(p, w, cursor).Some? && CarriesOut(p)
    requires Readable(p, w) && OneKind(p, w, cursor, kind)
    ensures Balanced(p, w, cursor) <==> Balance(p, w, cursor, Everything) == 0
  {
    forall other
      ensures Balance(p, w, cursor, Only(other)) == if other == kind then Balance(p, w, cursor, Everything) else 0
    {
      BalanceOneKind(p, w, cursor, kind, other);
    }
    assert Balance(p, w, cursor, Only(kind)) == Balance(p, w, cursor, Everything);
  }
}
