/** What the residency counters count, over resource slots and presentation imports. */
module ResidencyModel {
  import opened Primitives

  const MAX_RESIDENT_RESOURCE_COUNT: nat := 4096
  const MAX_RESIDENT_RESOURCE_BYTES: nat := 0x2000_0000

  datatype Handle = Handle(slot: nat, generation: nat)

  /** `dirty` tells whether the resource holds device writes not yet written back. */
  datatype Resource = Resource(handle: Handle, resident: bool, bytes: nat, dirty: bool, initialized: bool, lastUse: nat)

  type Slots = seq<Option<Resource>>

  datatype Import = Import(lastUsed: nat, bytes: nat)

  type Imports = map<nat, Import>

  /** The two budgets: how many things are resident, and how many bytes they take. */
  datatype Budget = Count | Bytes

  ghost function Cost(bytes: nat, budget: Budget): nat {
    if budget.Count? then 1 else bytes
  }

  // ---- slots --------------------------------------------------------------------------------

  /** Resources that eviction must leave alone. */
  ghost predicate Pinned(r: Resource, protected: set<Handle>) {
    r.dirty || r.handle in protected
  }

  ghost predicate Evictable(slot: Option<Resource>, protected: set<Handle>) {
    slot.Some? && slot.value.resident && !Pinned(slot.value, protected)
  }

  ghost function SlotCost(slot: Option<Resource>, budget: Budget): nat {
    if slot.Some? && slot.value.resident then Cost(slot.value.bytes, budget) else 0
  }

  ghost function SlotsCost(slots: Slots, budget: Budget): nat {
    if slots == [] then 0
    else SlotsCost(slots[..|slots| - 1], budget) + SlotCost(slots[|slots| - 1], budget)
  }

  ghost function PinnedSlotCost(slot: Option<Resource>, protected: set<Handle>, budget: Budget): nat {
    if slot.Some? && slot.value.resident && Pinned(slot.value, protected) then Cost(slot.value.bytes, budget) else 0
  }

  ghost function PinnedCost(slots: Slots, protected: set<Handle>, budget: Budget): nat {
    if slots == [] then 0
    else PinnedCost(slots[..|slots| - 1], protected, budget) + PinnedSlotCost(slots[|slots| - 1], protected, budget)
  }

  lemma {:induction false} SlotsUpdate(slots: Slots, i: nat, slot: Option<Resource>, budget: Budget)
    requires i < |slots|
    ensures SlotsCost(slots[i := slot], budget) + SlotCost(slots[i], budget) == SlotsCost(slots, budget) + SlotCost(slot, budget)
  {
    var n := |slots| - 1;
    if i < n {
      SlotsUpdate(slots[..n], i, slot, budget);
      assert slots[i := slot][..n] == slots[..n][i := slot];
    } else {
      assert slots[i := slot][..n] == slots[..n];
    }
  }

  lemma {:induction false} PinnedUpdate(slots: Slots, i: nat, slot: Option<Resource>, protected: set<Handle>, budget: Budget)
    requires i < |slots|
    ensures PinnedCost(slots[i := slot], protected, budget) + PinnedSlotCost(slots[i], protected, budget)
         == PinnedCost(slots, protected, budget) + PinnedSlotCost(slot, protected, budget)
  {
    var n := |slots| - 1;
    if i < n {
      PinnedUpdate(slots[..n], i, slot, protected, budget);
      assert slots[i := slot][..n] == slots[..n][i := slot];
    } else {
      assert slots[i := slot][..n] == slots[..n];
    }
  }

  lemma {:induction false} PinnedWithin(slots: Slots, protected: set<Handle>, budget: Budget)
    ensures PinnedCost(slots, protected, budget) <= SlotsCost(slots, budget)
  {
    if slots != [] {
      PinnedWithin(slots[..|slots| - 1], protected, budget);
    }
  }

  lemma {:induction false} NothingEvictable(slots: Slots, protected: set<Handle>, budget: Budget)
    requires forall i :: 0 <= i < |slots| ==> !Evictable(slots[i], protected)
    ensures PinnedCost(slots, protected, budget) == SlotsCost(slots, budget)
  {
    if slots != [] {
      NothingEvictable(slots[..|slots| - 1], protected, budget);
    }
  }

  lemma {:induction false} VacantSlotsCostNothing(slots: Slots, more: nat, budget: Budget)
    ensures SlotsCost(slots + seq(more, _ => None), budget) == SlotsCost(slots, budget)
    decreases more
  {
    var longer := slots + seq(more, _ => None);
    if more == 0 {
      assert longer == slots;
    } else {
      VacantSlotsCostNothing(slots, more - 1, budget);
      assert longer[..|longer| - 1] == slots + seq(more - 1, _ => None);
    }
  }

  // ---- imports ------------------------------------------------------------------------------

  ghost function Pick(keys: set<nat>): (k: nat)
    requires keys != {}
    ensures k in keys
  {
    var k :| k in keys; k
  }

  /** The cost of the imports under `keys`. */
  ghost function ImportsCost(imports: Imports, keys: set<nat>, budget: Budget): nat
    requires keys <= imports.Keys
    decreases |keys|
  {
    if keys == {} then 0
    else
      var k := Pick(keys);
      ImportsCost(imports, keys - {k}, budget) + Cost(imports[k].bytes, budget)
  }

  /** The cost does not depend on the order in which imports are added up. */
  lemma {:induction false} ImportsRemove(imports: Imports, keys: set<nat>, k: nat, budget: Budget)
    requires k in keys && keys <= imports.Keys
    ensures ImportsCost(imports, keys, budget) == ImportsCost(imports, keys - {k}, budget) + Cost(imports[k].bytes, budget)
    decreases |keys|
  {
    var first := Pick(keys);
    if first != k {
      ImportsRemove(imports, keys - {first}, k, budget);
      ImportsRemove(imports, keys - {k}, first, budget);
      assert keys - {first} - {k} == keys - {k} - {first};
    }
  }

  lemma {:induction false} ImportsElsewhere(imports: Imports, imports': Imports, keys: set<nat>, budget: Budget)
    requires keys <= imports.Keys && keys <= imports'.Keys && forall k :: k in keys ==> imports'[k] == imports[k]
    ensures ImportsCost(imports', keys, budget) == ImportsCost(imports, keys, budget)
    decreases |keys|
  {
    if keys != {} {
      ImportsElsewhere(imports, imports', keys - {Pick(keys)}, budget);
    }
  }

  /** Everything resident. */
  ghost function TotalCost(slots: Slots, imports: Imports, budget: Budget): nat {
    SlotsCost(slots, budget) + ImportsCost(imports, imports.Keys, budget)
  }

  lemma ImportRemoved(slots: Slots, imports: Imports, k: nat, budget: Budget)
    requires k in imports
    ensures TotalCost(slots, imports, budget) == TotalCost(slots, imports - {k}, budget) + Cost(imports[k].bytes, budget)
  {
    ImportsRemove(imports, imports.Keys, k, budget);
    assert (imports - {k}).Keys == imports.Keys - {k};
    ImportsElsewhere(imports, imports - {k}, imports.Keys - {k}, budget);
  }

  lemma ImportAdded(slots: Slots, imports: Imports, k: nat, added: Import, budget: Budget)
    requires k !in imports
    ensures TotalCost(slots, imports[k := added], budget) == TotalCost(slots, imports, budget) + Cost(added.bytes, budget)
  {
    ImportRemoved(slots, imports[k := added], k, budget);
    assert imports[k := added] - {k} == imports;
  }

  // ---- eviction -----------------------------------------------------------------------------

  ghost function Evicted(r: Resource): Resource {
    r.(resident := false, initialized := false)
  }

  /** Only evictable resources lost residency; nothing else about the slots changed. */
  ghost predicate EvictsOnly(slots: Slots, slots': Slots, protected: set<Handle>) {
    && |slots'| == |slots|
    && forall i :: 0 <= i < |slots| ==>
         slots'[i] == slots[i] || (Evictable(slots[i], protected) && slots'[i] == Some(Evicted(slots[i].value)))
  }

  lemma EvictionFrees(slots: Slots, protected: set<Handle>, i: nat, budget: Budget)
    requires i < |slots| && Evictable(slots[i], protected)
    ensures var slots' := slots[i := Some(Evicted(slots[i].value))];
            && SlotsCost(slots', budget) + Cost(slots[i].value.bytes, budget) == SlotsCost(slots, budget)
            && PinnedCost(slots', protected, budget) == PinnedCost(slots, protected, budget)
  {
    SlotsUpdate(slots, i, Some(Evicted(slots[i].value)), budget);
    PinnedUpdate(slots, i, Some(Evicted(slots[i].value)), protected, budget);
  }

  // ---- making a set of resources resident ---------------------------------------------------

  function MadeResident(r: Resource): Resource {
    r.(resident := true)
  }

  /** The slots with every protected resource resident. */
  ghost function AllMade(slots: Slots, protected: set<Handle>): Slots {
    seq(|slots|, i requires 0 <= i < |slots| =>
      if slots[i].Some? && slots[i].value.handle in protected then Some(MadeResident(slots[i].value)) else slots[i])
  }

  /** One slot on the way: unchanged, made resident because protected, or evicted because evictable. */
  ghost predicate SlotMoved(before: Option<Resource>, after: Option<Resource>, protected: set<Handle>) {
    || after == before
    || (before.Some? && before.value.handle in protected && after == Some(MadeResident(before.value)))
    || (Evictable(before, protected) && after == Some(Evicted(before.value)))
  }

  ghost predicate Moved(slots: Slots, slots': Slots, protected: set<Handle>) {
    |slots'| == |slots| && forall i :: 0 <= i < |slots| ==> SlotMoved(slots[i], slots'[i], protected)
  }

  lemma EvictionsMove(s0: Slots, s1: Slots, s2: Slots, protected: set<Handle>)
    requires Moved(s0, s1, protected) && EvictsOnly(s1, s2, protected)
    ensures Moved(s0, s2, protected)
  {
  }

  lemma {:induction false} PinnedMonotone(a: Slots, b: Slots, protected: set<Handle>, budget: Budget)
    requires |a| == |b|
    requires forall i :: 0 <= i < |a| ==> PinnedSlotCost(a[i], protected, budget) <= PinnedSlotCost(b[i], protected, budget)
    ensures PinnedCost(a, protected, budget) <= PinnedCost(b, protected, budget)
  {
    if a != [] {
      PinnedMonotone(a[..|a| - 1], b[..|b| - 1], protected, budget);
    }
  }

  /** Whatever was moved so far pins no more than making everything resident does. */
  lemma MovedPinsNoMore(slots: Slots, slots': Slots, protected: set<Handle>, budget: Budget)
    requires Moved(slots, slots', protected)
    ensures PinnedCost(slots', protected, budget) <= PinnedCost(AllMade(slots, protected), protected, budget)
  {
    forall i | 0 <= i < |slots|
      ensures PinnedSlotCost(slots'[i], protected, budget) <= PinnedSlotCost(AllMade(slots, protected)[i], protected, budget)
    {
      assert SlotMoved(slots[i], slots'[i], protected);
    }
    PinnedMonotone(slots', AllMade(slots, protected), protected, budget);
  }

  lemma AllMovedPinsAsMuch(slots: Slots, slots': Slots, protected: set<Handle>, budget: Budget)
    requires Moved(slots, slots', protected)
    requires forall i :: 0 <= i < |slots'| && slots'[i].Some? && slots'[i].value.handle in protected ==> slots'[i].value.resident
    ensures PinnedCost(AllMade(slots, protected), protected, budget) <= PinnedCost(slots', protected, budget)
  {
    forall i | 0 <= i < |slots|
      ensures PinnedSlotCost(AllMade(slots, protected)[i], protected, budget) <= PinnedSlotCost(slots'[i], protected, budget)
    {
      assert SlotMoved(slots[i], slots'[i], protected);
    }
    PinnedMonotone(AllMade(slots, protected), slots', protected, budget);
  }
}
