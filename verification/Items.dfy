/** Item stacks, inventories seen through a window, and how many items they hold. */
module Items {
  import opened Wrappers

  type i8 = n: int | -0x80 <= n < 0x80

  type i16 = n: int | -0x8000 <= n < 0x8000

  /** Kinds are opaque apart from air and the stack limit; components are opaque altogether. */
  datatype ItemKind = Air | Kind(id: nat, maxStack: i8) {
    function MaxStack(): i8 {
      match this
      case Air => 0
      case Kind(_, maxStack) => maxStack
    }
  }

  datatype Components = Plain | Custom(tag: nat)

  /** What is counted: all items, or those of one kind. */
  datatype Measure = Everything | Only(kind: ItemKind) {
    predicate Covers(item: ItemKind) {
      Everything? || item == kind
    }
  }

  datatype ItemStack = ItemStack(item: ItemKind, count: i8, components: Components) {
    predicate IsEmpty() {
      item == Air || count <= 0
    }

    function WithCount(n: i8): ItemStack {
      this.(count := n)
    }

    /** How many items there really are. */
    function Items(): nat {
      if IsEmpty() then 0 else count
    }

    function Of(m: Measure): nat {
      if m.Covers(item) then Items() else 0
    }
  }

  const EMPTY := ItemStack(Air, 0, Plain)

  /** What the client sends of a stack: its kind and count; the components only as hashes. */
  datatype HashedStack = HashedStack(item: ItemKind, count: i8) {
    predicate IsEmpty() {
      item == Air || count <= 0
    }

    function Items(): nat {
      if IsEmpty() then 0 else count
    }

    function Of(m: Measure): nat {
      if m.Covers(item) then Items() else 0
    }
  }

  // ---- Windows ----

  const PLAYER_SLOTS := 46
  const MAIN_START := 9
  const MAIN_SIZE := 36

  type Slots = seq<ItemStack>

  /** The player's inventory and the inventory that is open above it, if any. */
  datatype Window = Window(player: Slots, above: Option<Slots>) {
    ghost predicate Valid() {
      |player| == PLAYER_SLOTS && (above.Some? ==> |above.value| < 0x4000)
    }

    /** The number of slots, which is also the greatest index that the range checks let pass. */
    function MaxSlot(): nat {
      if above.Some? then MAIN_SIZE + |above.value| else |player|
    }

    /** Indices that name a slot. With an inventory open, the greatest index the range checks let
        pass still names one, the player's last; without, it names none. */
    predicate Names(idx: int) {
      0 <= idx && if above.Some? then idx <= MAIN_SIZE + |above.value| else idx < |player|
    }

    predicate IsAbove(idx: nat) {
      above.Some? && idx < |above.value|
    }

    /** The player slot that a window index beyond the open inventory stands for. */
    function PlayerIndex(idx: nat): int {
      if above.Some? then idx - |above.value| + MAIN_START else idx
    }

    function Slot(idx: nat): ItemStack
      requires Valid() && Names(idx)
    {
      if IsAbove(idx) then above.value[idx] else player[PlayerIndex(idx)]
    }

    function SetSlot(idx: nat, stack: ItemStack): (w: Window)
      requires Valid() && Names(idx)
      ensures w.Valid()
    {
      if IsAbove(idx) then Window(player, Some(above.value[idx := stack]))
      else Window(player[PlayerIndex(idx) := stack], above)
    }

    function Count(m: Measure): nat {
      Sum(m, player) + if above.Some? then Sum(m, above.value) else 0
    }
  }

  /** What the indices of a window stand for. Alone, the player's inventory has slots 0 to 45. With an inventory
      open above it, the first indices are that inventory's slots, and the next 37 the player's from slot 9 on. */
  lemma WindowSlots(w: Window, idx: nat)
    requires w.Valid()
    ensures w.above.None? ==> (w.Names(idx) <==> idx < 46) && (idx < 46 ==> w.Slot(idx) == w.player[idx])
    ensures w.above.Some? ==>
      var open := w.above.value;
      && (w.Names(idx) <==> idx < |open| + 37)
      && (idx < |open| ==> w.Slot(idx) == open[idx])
      && (|open| <= idx < |open| + 37 ==> w.Slot(idx) == w.player[9 + (idx - |open|)])
  {
  }

  function Sum(m: Measure, slots: Slots): nat {
    if slots == [] then 0 else slots[0].Of(m) + Sum(m, slots[1..])
  }

  lemma {:induction false} SumUpdate(m: Measure, slots: Slots, i: nat, stack: ItemStack)
    requires i < |slots|
    ensures Sum(m, slots[i := stack]) == Sum(m, slots) - slots[i].Of(m) + stack.Of(m)
  {
    if i == 0 {
      assert slots[0 := stack][1..] == slots[1..];
    } else {
      assert slots[i := stack][1..] == slots[1..][i - 1 := stack];
      SumUpdate(m, slots[1..], i - 1, stack);
    }
  }

  lemma {:induction false} SumAppend(m: Measure, slots: Slots, stack: ItemStack)
    ensures Sum(m, slots + [stack]) == Sum(m, slots) + stack.Of(m)
  {
    if slots == [] {
      assert (slots + [stack])[1..] == [];
    } else {
      assert (slots + [stack])[1..] == slots[1..] + [stack];
      SumAppend(m, slots[1..], stack);
    }
  }

  lemma {:induction false} SumEmpty(m: Measure, slots: Slots)
    requires forall i :: 0 <= i < |slots| ==> slots[i].IsEmpty()
    ensures Sum(m, slots) == 0
  {
    if slots != [] {
      SumEmpty(m, slots[1..]);
    }
  }

  /** Setting a slot changes what that index reads, every count by the difference, and nothing else:
      no two indices of a window name the same slot. */
  lemma SetSlotEffect(m: Measure, w: Window, idx: nat, stack: ItemStack)
    requires w.Valid() && w.Names(idx)
    ensures var after := w.SetSlot(idx, stack);
      && after.Count(m) == w.Count(m) - w.Slot(idx).Of(m) + stack.Of(m)
      && after.Slot(idx) == stack
      && (forall other: int :: after.Names(other) <==> w.Names(other))
      && (forall other: nat :: w.Names(other) && other != idx ==> after.Slot(other) == w.Slot(other))
  {
    if w.IsAbove(idx) {
      SumUpdate(m, w.above.value, idx, stack);
    } else {
      SumUpdate(m, w.player, w.PlayerIndex(idx), stack);
    }
  }
}
