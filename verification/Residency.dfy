/** The residency budget: evicting idle resources and imports to make room, in least recent order. */
module Residency {
  import opened Primitives
  import opened ResidencyModel

  datatype Victim = ResourceVictim(slot: nat) | ImportVictim(key: nat) | NoVictim

  /**
   `v` is the least recently used thing that may be evicted; of the same age the lowest slot goes first
   and a resource before an import.
   */
  ghost predicate IsVictim(slots: Slots, imports: Imports, protected: set<Handle>, v: Victim) {
    match v
    case ResourceVictim(i) =>
      && i < |slots| && Evictable(slots[i], protected)
      && (forall j :: 0 <= j < |slots| && Evictable(slots[j], protected) ==> slots[i].value.lastUse <= slots[j].value.lastUse)
      && (forall j :: 0 <= j < i && Evictable(slots[j], protected) ==> slots[i].value.lastUse < slots[j].value.lastUse)
      && (forall k :: k in imports ==> slots[i].value.lastUse <= imports[k].lastUsed)
    case ImportVictim(k) =>
      && k in imports
      && (forall j :: 0 <= j < |slots| && Evictable(slots[j], protected) ==> imports[k].lastUsed < slots[j].value.lastUse)
      && (forall k' :: k' in imports ==> imports[k].lastUsed <= imports[k'].lastUsed)
    case NoVictim =>
      imports == map[] && forall j :: 0 <= j < |slots| ==> !Evictable(slots[j], protected)
  }

  ghost function WithoutVictim(slots: Slots, v: Victim): Slots {
    if v.ResourceVictim? && v.slot < |slots| && slots[v.slot].Some? then slots[v.slot := Some(Evicted(slots[v.slot].value))]
    else slots
  }

  function VictimKeys(v: Victim): set<nat> {
    if v.ImportVictim? then {v.key} else {}
  }

  method LeastRecentResource(slots: Slots, protected: set<Handle>) returns (r: Option<nat>)
    ensures r.None? <==> forall j :: 0 <= j < |slots| ==> !Evictable(slots[j], protected)
    ensures r.Some? ==> r.value < |slots| && Evictable(slots[r.value], protected)
    ensures r.Some? ==> forall j :: 0 <= j < |slots| && Evictable(slots[j], protected) ==>
                          slots[r.value].value.lastUse <= slots[j].value.lastUse
    ensures r.Some? ==> forall j :: 0 <= j < r.value && Evictable(slots[j], protected) ==>
                          slots[r.value].value.lastUse < slots[j].value.lastUse
  {
    r := None;
    for i := 0 to |slots|
      invariant r.None? <==> forall j :: 0 <= j < i ==> !Evictable(slots[j], protected)
      invariant r.Some? ==> r.value < i && Evictable(slots[r.value], protected)
      invariant r.Some? ==> forall j :: 0 <= j < i && Evictable(slots[j], protected) ==>
                              slots[r.value].value.lastUse <= slots[j].value.lastUse
      invariant r.Some? ==> forall j :: 0 <= j < r.value && Evictable(slots[j], protected) ==>
                              slots[r.value].value.lastUse < slots[j].value.lastUse
    {
      if slots[i].Some? {
        var resource := slots[i].value;
        if resource.resident && !resource.dirty && resource.handle !in protected
           && (r.None? || resource.lastUse < slots[r.value].value.lastUse) {
          r := Some(i);
        }
      }
    }
  }

  method LeastRecentImport(imports: Imports) returns (r: Option<nat>)
    ensures r.None? <==> imports == map[]
    ensures r.Some? ==> r.value in imports && forall k :: k in imports ==> imports[r.value].lastUsed <= imports[k].lastUsed
  {
    r := None;
    var left := imports.Keys;
    while left != {}
      invariant left <= imports.Keys
      invariant r.None? ==> left == imports.Keys
      invariant r.Some? ==> r.value in imports
      invariant r.Some? ==> forall k :: k in imports && k !in left ==> imports[r.value].lastUsed <= imports[k].lastUsed
      decreases |left|
    {
      var k :| k in left;
      left := left - {k};
      if r.None? || imports[k].lastUsed < imports[r.value].lastUsed {
        r := Some(k);
      }
    }
  }

  method SelectVictim(slots: Slots, imports: Imports, protected: set<Handle>) returns (v: Victim)
    ensures IsVictim(slots, imports, protected, v)
  {
    var resource := LeastRecentResource(slots, protected);
    var import_ := LeastRecentImport(imports);
    if resource.Some? && (import_.None? || slots[resource.value].value.lastUse <= imports[import_.value].lastUsed) {
      return ResourceVictim(resource.value);
    }
    if import_.Some? {
      return ImportVictim(import_.value);
    }
    return NoVictim;
  }

  /** What eviction may have done on the way from one state to another. */
  ghost predicate OnlyEvicted(slots: Slots, imports: Imports, slots': Slots, imports': Imports, protected: set<Handle>) {
    && EvictsOnly(slots, slots', protected)
    && imports'.Keys <= imports.Keys
    && (forall k :: k in imports' ==> imports'[k] == imports[k])
    && (forall budget :: PinnedCost(slots', protected, budget) == PinnedCost(slots, protected, budget))
  }

  lemma ResourceEvicted(slots: Slots, imports: Imports, protected: set<Handle>, i: nat)
    requires i < |slots| && Evictable(slots[i], protected)
    ensures OnlyEvicted(slots, imports, slots[i := Some(Evicted(slots[i].value))], imports, protected)
  {
    forall budget
      ensures PinnedCost(slots[i := Some(Evicted(slots[i].value))], protected, budget) == PinnedCost(slots, protected, budget)
    {
      EvictionFrees(slots, protected, i, budget);
    }
  }

  lemma OnlyEvictedTransitive(s0: Slots, i0: Imports, s1: Slots, i1: Imports, s2: Slots, i2: Imports, protected: set<Handle>)
    requires OnlyEvicted(s0, i0, s1, i1, protected) && OnlyEvicted(s1, i1, s2, i2, protected)
    ensures OnlyEvicted(s0, i0, s2, i2, protected)
  {
  }

  lemma ExhaustedCost(slots: Slots, imports: Imports, protected: set<Handle>, budget: Budget)
    requires IsVictim(slots, imports, protected, NoVictim)
    ensures TotalCost(slots, imports, budget) == PinnedCost(slots, protected, budget)
  {
    NothingEvictable(slots, protected, budget);
  }

  /** What the counters hold beyond what is resident. */
  datatype Leak = Leak(count: nat, bytes: nat)

  const NO_LEAK := Leak(0, 0)

  /** What may not be evicted, with what leaked, leaves room for the additional resources in both budgets. */
  ghost predicate RoomFor(slots: Slots, protected: set<Handle>, leak: Leak, count: nat, bytes: nat) {
    && PinnedCost(slots, protected, Count) + leak.count + count <= 4096
    && PinnedCost(slots, protected, Bytes) + leak.bytes + bytes <= 0x2000_0000
  }

  lemma ResidentLeavesRoom(slots: Slots, imports: Imports, protected: set<Handle>, leak: Leak, count: nat, bytes: nat)
    requires TotalCost(slots, imports, Count) + leak.count + count <= MAX_RESIDENT_RESOURCE_COUNT
    requires TotalCost(slots, imports, Bytes) + leak.bytes + bytes <= MAX_RESIDENT_RESOURCE_BYTES
    ensures RoomFor(slots, protected, leak, count, bytes)
  {
    PinnedWithin(slots, protected, Count);
    PinnedWithin(slots, protected, Bytes);
  }

  /** What becomes of the host object and the contents of a new resource. */
  datatype Creation = Created | HostFailed | ContentFailed

  ghost function NewResource(handle: Handle, bytes: nat): Resource {
    Resource(handle, true, bytes, false, false, 0)
  }

  /** How far the creation of an import gets: its size, its host objects, its capture of CPU writes. */
  datatype ImportCreation = SizeOverflows | SetupFails | CaptureFails | Captured

  class ResidencyTable {
    var slots: Slots
    var imports: Imports
    var residentResources: nat
    var residentBytes: nat
    ghost var leak: Leak

    /** The counters are exactly the sums over what is resident. */
    ghost predicate Counted()
      reads this
    {
      residentResources == TotalCost(slots, imports, Count) && residentBytes == TotalCost(slots, imports, Bytes)
    }

    /** The counters are the sums and the leak. */
    ghost predicate Accounted()
      reads this
    {
      && residentResources == TotalCost(slots, imports, Count) + leak.count
      && residentBytes == TotalCost(slots, imports, Bytes) + leak.bytes
    }

    ghost predicate Placed()
      reads this
    {
      forall i :: 0 <= i < |slots| && slots[i].Some? ==> slots[i].value.handle.slot == i
    }

    ghost predicate Valid()
      reads this
    {
      && Accounted()
      && Placed()
      && residentResources <= 4096
      && residentBytes <= 0x2000_0000
    }

    constructor ()
      ensures Valid() && Counted() && slots == [] && imports == map[] && leak == NO_LEAK
    {
      slots, imports, residentResources, residentBytes := [], map[], 0, 0;
      leak := NO_LEAK;
    }

    method EvictResource(i: nat, protected: set<Handle>)
      requires Valid() && i < |slots| && Evictable(slots[i], protected)
      modifies this
      ensures Valid() && leak == old(leak) && residentResources < old(residentResources)
      ensures imports == old(imports) && slots == old(slots)[i := Some(Evicted(old(slots)[i].value))]
      ensures OnlyEvicted(old(slots), imports, slots, imports, protected)
    {
      ResourceEvicted(slots, imports, protected, i);
      EvictionFrees(slots, protected, i, Count);
      EvictionFrees(slots, protected, i, Bytes);
      var bytes := slots[i].value.bytes;
      slots := slots[i := Some(slots[i].value.(resident := false, initialized := false))];
      residentResources := residentResources - 1;
      residentBytes := residentBytes - bytes;
    }

    /** Removes an import and its share of the counters; an unknown key is ignored. */
    method RemovePresentationImport(k: nat) returns (removed: Option<Import>)
      requires Valid()
      modifies this
      ensures Valid() && leak == old(leak)
      ensures removed == if k in old(imports) then Some(old(imports)[k]) else None
      ensures slots == old(slots) && imports == old(imports) - {k}
      ensures removed.Some? ==> residentResources < old(residentResources)
      ensures removed.None? ==> residentResources == old(residentResources) && residentBytes == old(residentBytes)
    {
      if k !in imports {
        assert imports - {k} == imports;
        return None;
      }
      ImportRemoved(slots, imports, k, Count);
      ImportRemoved(slots, imports, k, Bytes);
      removed := Some(imports[k]);
      residentResources := residentResources - 1;
      residentBytes := residentBytes - imports[k].bytes;
      imports := imports - {k};
    }

    /** Evicts the least recently used candidate, if anything may be evicted. */
    method EvictNext(protected: set<Handle>) returns (victim: Victim)
      requires Valid()
      modifies this
      ensures Valid() && leak == old(leak) && OnlyEvicted(old(slots), old(imports), slots, imports, protected)
      ensures IsVictim(old(slots), old(imports), protected, victim)
      ensures slots == WithoutVictim(old(slots), victim) && imports == old(imports) - VictimKeys(victim)
      ensures victim.NoVictim? ==> residentResources == old(residentResources) && residentBytes == old(residentBytes)
      ensures victim.NoVictim? ==> residentResources == PinnedCost(slots, protected, Count) + leak.count
      ensures victim.NoVictim? ==> residentBytes == PinnedCost(slots, protected, Bytes) + leak.bytes
      ensures !victim.NoVictim? ==> residentResources < old(residentResources)
    {
      victim := SelectVictim(slots, imports, protected);
      match victim {
        case ResourceVictim(i) =>
          EvictResource(i, protected);
        case ImportVictim(k) =>
          var _ := RemovePresentationImport(k);
        case NoVictim =>
          ExhaustedCost(slots, imports, protected, Count);
          ExhaustedCost(slots, imports, protected, Bytes);
      }
    }

    /**
     Makes room for additional resources. It succeeds exactly when what may not be evicted leaves
     room, and it evicts nothing that is protected or holds device writes.
     */
    method EnsureResidencyBudget(count: nat, bytes: nat, protected: set<Handle>) returns (ok: bool)
      requires Valid()
      modifies this
      ensures Valid() && leak == old(leak) && OnlyEvicted(old(slots), old(imports), slots, imports, protected)
      ensures ok <==> RoomFor(old(slots), protected, leak, count, bytes)
      ensures ok ==> residentResources + count <= MAX_RESIDENT_RESOURCE_COUNT && residentBytes + bytes <= MAX_RESIDENT_RESOURCE_BYTES
    {
      if bytes > MAX_RESIDENT_RESOURCE_BYTES {
        return false;
      }
      while residentResources + count > MAX_RESIDENT_RESOURCE_COUNT || residentBytes + bytes > MAX_RESIDENT_RESOURCE_BYTES
        invariant Valid() && leak == old(leak) && OnlyEvicted(old(slots), old(imports), slots, imports, protected)
        decreases residentResources
      {
        ghost var slots1, imports1 := slots, imports;
        var evicted := EvictNext(protected);
        OnlyEvictedTransitive(old(slots), old(imports), slots1, imports1, slots, imports, protected);
        if evicted.NoVictim? {
          return false;
        }
      }
      ResidentLeavesRoom(slots, imports, protected, leak, count, bytes);
      return true;
    }

    method GrowSlots(i: nat)
      requires Valid()
      modifies this`slots
      ensures Valid() && slots == Grown(old(slots), i)
    {
      GrownCost(slots, i, Count);
      GrownCost(slots, i, Bytes);
      slots := Grown(slots, i);
    }

    /**
     Creates a resident resource in its slot, after making room for it. `evicted` is the table once
     room was made; the new resource is the only other change, except that contents that cannot be
     set up leave a table that has already grown.
     */
    method CreateResource(handle: Handle, bytes: nat, creation: Creation) returns (ok: bool, ghost evicted: Slots)
      requires Valid()
      modifies this
      ensures Valid() && leak == old(leak) && OnlyEvicted(old(slots), old(imports), evicted, imports, {})
      ensures ok <==> RoomFor(old(slots), {}, leak, 1, bytes) && Vacant(old(slots), handle.slot) && creation.Created?
      ensures ok ==> slots == Occupied(evicted, NewResource(handle, bytes))
      ensures !ok ==>
              slots == if RoomFor(old(slots), {}, leak, 1, bytes) && Vacant(old(slots), handle.slot) && creation.ContentFailed?
                       then Grown(evicted, handle.slot) else evicted
    {
      var room := EnsureResidencyBudget(1, bytes, {});
      evicted := slots;
      if !room || creation.HostFailed? || (handle.slot < |slots| && slots[handle.slot].Some?) {
        return false, evicted;
      }
      if creation.ContentFailed? {
        GrowSlots(handle.slot);
        return false, evicted;
      }
      OccupySlot(Resource(handle, true, bytes, false, false, 0));
      return true, evicted;
    }

    method OccupySlot(resource: Resource)
      requires Valid() && Vacant(slots, resource.handle.slot) && resource.resident
      requires residentResources < MAX_RESIDENT_RESOURCE_COUNT
      requires residentBytes + resource.bytes <= MAX_RESIDENT_RESOURCE_BYTES
      modifies this
      ensures Valid() && leak == old(leak) && imports == old(imports)
      ensures slots == Occupied(old(slots), resource)
    {
      OccupiedCost(slots, resource, Count);
      OccupiedCost(slots, resource, Bytes);
      slots := Occupied(slots, resource);
      residentResources := residentResources + 1;
      residentBytes := residentBytes + resource.bytes;
    }

    /** Forgets a resource; stale handles are ignored. */
    method RemoveResourceRecord(handle: Handle) returns (removed: bool)
      requires Valid()
      modifies this
      ensures Valid() && leak == old(leak) && imports == old(imports)
      ensures removed <==> LiveIn(old(slots), handle)
      ensures slots == if removed then old(slots)[handle.slot := None] else old(slots)
    {
      if !Live(handle) {
        return false;
      }
      var i := handle.slot;
      var resource := slots[i].value;
      SlotsUpdate(slots, i, None, Count);
      SlotsUpdate(slots, i, None, Bytes);
      slots := slots[i := None];
      if resource.resident {
        residentResources := residentResources - 1;
        residentBytes := residentBytes - resource.bytes;
      }
      return true;
    }

    /**
     Adds a presentation import under a new key, after making room for it. The counters are raised
     before the CPU writes are captured, so a capture that fails leaves them raised with no import,
     while failures before that leave them alone. `evicted` is what is left of the imports once room
     was made.
     */
    method AddPresentationImport(k: nat, bytes: nat, creation: ImportCreation) returns (ok: bool, ghost evicted: Imports)
      requires Valid() && k !in imports
      modifies this
      ensures Valid()
      ensures ok <==> RoomFor(old(slots), {}, old(leak), 1, bytes) && creation.Captured?
      ensures OnlyEvicted(old(slots), old(imports), slots, evicted, {})
      ensures imports == if ok then evicted[k := Import(0, bytes)] else evicted
      ensures creation.SizeOverflows? ==> slots == old(slots) && imports == old(imports)
      ensures leak == if RoomFor(old(slots), {}, old(leak), 1, bytes) && creation.CaptureFails?
                      then Leak(old(leak).count + 1, old(leak).bytes + bytes) else old(leak)
      ensures Counted() <==> old(Counted()) && !(creation.CaptureFails? && RoomFor(old(slots), {}, old(leak), 1, bytes))
    {
      evicted := imports;
      if creation.SizeOverflows? {
        return false, evicted;
      }
      var room := EnsureResidencyBudget(1, bytes, {});
      evicted := imports;
      if !room || creation.SetupFails? {
        return false, evicted;
      }
      residentResources := residentResources + 1;
      residentBytes := residentBytes + bytes;
      if creation.CaptureFails? {
        leak := Leak(leak.count + 1, leak.bytes + bytes);
        return false, evicted;
      }
      ImportAdded(slots, imports, k, Import(0, bytes), Count);
      ImportAdded(slots, imports, k, Import(0, bytes), Bytes);
      imports := imports[k := Import(0, bytes)];
      return true, evicted;
    }

    predicate Live(handle: Handle)
      reads this
    {
      LiveIn(slots, handle)
    }

    /** Gives one live resource its host object again. */
    method MakeResident(handle: Handle, ghost protected: set<Handle>)
      requires Valid() && Live(handle) && !slots[handle.slot].value.resident && handle in protected
      requires residentResources < MAX_RESIDENT_RESOURCE_COUNT
      requires residentBytes + slots[handle.slot].value.bytes <= MAX_RESIDENT_RESOURCE_BYTES
      modifies this
      ensures Valid() && leak == old(leak) && imports == old(imports)
      ensures slots == old(slots)[handle.slot := Some(MadeResident(old(slots)[handle.slot].value))]
    {
      var i := handle.slot;
      var resource := slots[i].value;
      SlotsUpdate(slots, i, Some(MadeResident(resource)), Count);
      SlotsUpdate(slots, i, Some(MadeResident(resource)), Bytes);
      slots := slots[i := Some(MadeResident(resource))];
      residentResources := residentResources + 1;
      residentBytes := residentBytes + resource.bytes;
    }

    /** Handles one dependency: makes room for it and makes it resident, unless it already is. */
    method EnsureOne(handle: Handle, ghost initial: Slots, protected: set<Handle>, hostCreated: set<Handle>) returns (ok: bool)
      requires Valid() && handle in protected && Moved(initial, slots, protected)
      requires ResidentCreatable(initial, slots, protected, hostCreated)
      modifies this
      ensures Valid() && leak == old(leak) && SubImports(imports, old(imports))
      ensures Moved(initial, slots, protected) && KeepsProtected(old(slots), slots, protected)
      ensures ResidentCreatable(initial, slots, protected, hostCreated)
      ensures ok ==> Live(handle) && slots[handle.slot].value.resident
      ensures !ok ==> !LiveIn(initial, handle) || !RoomForAll(initial, protected, leak) || !Creatable(initial, handle, hostCreated)
    {
      MovedIsLive(initial, slots, protected, handle);
      if !Live(handle) {
        return false;
      }
      var i := handle.slot;
      if slots[i].value.resident {
        return true;
      }
      MovedFrom(initial, slots, protected, handle);
      ghost var before := slots;
      var bytes := slots[i].value.bytes;
      var room := EnsureResidencyBudget(1, bytes, protected);
      EvictionsMove(initial, before, slots, protected);
      if !room {
        NoRoomForOne(initial, before, protected, leak, i);
        return false;
      }
      if handle !in hostCreated {
        return false;
      }
      MakeResident(handle, protected);
      return true;
    }

    /**
     Makes every dependency resident at once. It succeeds exactly when all of them are live, the ones
     without a host object get one, and, together with what holds device writes, they fit both budgets.
     */
    method EnsureResident(handles: seq<Handle>, hostCreated: set<Handle>) returns (ok: bool)
      requires Valid()
      modifies this
      ensures Valid() && leak == old(leak) && SubImports(imports, old(imports))
      ensures Moved(old(slots), slots, set h | h in handles)
      ensures ok <==> && (forall h :: h in handles ==> LiveIn(old(slots), h) && Creatable(old(slots), h, hostCreated))
                      && RoomForAll(old(slots), (set h | h in handles), leak)
      ensures ok ==> forall h :: h in handles ==> Live(h) && slots[h.slot].value.resident
    {
      var protected := set h | h in handles;
      for k := 0 to |handles|
        invariant Valid() && leak == old(leak) && SubImports(imports, old(imports))
        invariant Moved(old(slots), slots, protected)
        invariant ResidentCreatable(old(slots), slots, protected, hostCreated)
        invariant forall j :: 0 <= j < k ==> Live(handles[j]) && slots[handles[j].slot].value.resident
      {
        ghost var before := slots;
        var made := EnsureOne(handles[k], old(slots), protected, hostCreated);
        if !made {
          return false;
        }
        forall j | 0 <= j < k
          ensures Live(handles[j]) && slots[handles[j].slot].value.resident
        {
          StaysResident(before, slots, protected, handles[j]);
        }
      }
      AllResidentFits(old(slots), slots, imports, protected, leak);
      forall h | h in handles
        ensures LiveIn(old(slots), h) && Creatable(old(slots), h, hostCreated)
      {
        MovedIsLive(old(slots), slots, protected, h);
      }
      return true;
    }
  }

  /** A fresh table whose first import cannot capture the CPU writes counts an import it does not hold. */
  method FailedCaptureLeaks(bytes: nat) returns (table: ResidencyTable)
    requires bytes <= MAX_RESIDENT_RESOURCE_BYTES
    ensures fresh(table) && table.Valid() && !table.Counted()
    ensures table.slots == [] && table.imports == map[]
    ensures table.residentResources == 1 && table.residentBytes == bytes
  {
    table := new ResidencyTable();
    var _, _ := table.AddPresentationImport(0, bytes, CaptureFails);
  }

  /** A slot index is free, possibly past the end of the table. */
  ghost predicate Vacant(slots: Slots, i: nat) {
    i < |slots| ==> slots[i].None?
  }

  /** The table grown with vacant slots until index `i` exists. */
  function Grown(slots: Slots, i: nat): (r: Slots)
    ensures i < |r|
  {
    if i < |slots| then slots else slots + seq(i + 1 - |slots|, _ => None)
  }

  function Occupied(slots: Slots, resource: Resource): (r: Slots)
    ensures resource.handle.slot < |r| && r[resource.handle.slot] == Some(resource)
  {
    Grown(slots, resource.handle.slot)[resource.handle.slot := Some(resource)]
  }

  lemma OccupiedCost(slots: Slots, resource: Resource, budget: Budget)
    requires Vacant(slots, resource.handle.slot) && resource.resident
    ensures SlotsCost(Occupied(slots, resource), budget) == SlotsCost(slots, budget) + Cost(resource.bytes, budget)
  {
    var i := resource.handle.slot;
    GrownCost(slots, i, budget);
    SlotsUpdate(Grown(slots, i), i, Some(resource), budget);
  }

  lemma GrownCost(slots: Slots, i: nat, budget: Budget)
    ensures SlotsCost(Grown(slots, i), budget) == SlotsCost(slots, budget)
  {
    if i >= |slots| {
      VacantSlotsCostNothing(slots, i + 1 - |slots|, budget);
    }
  }

  predicate LiveIn(slots: Slots, handle: Handle) {
    handle.slot < |slots| && slots[handle.slot].Some? && slots[handle.slot].value.handle == handle
  }

  lemma MovedIsLive(slots: Slots, slots': Slots, protected: set<Handle>, handle: Handle)
    requires Moved(slots, slots', protected)
    ensures LiveIn(slots, handle) <==> LiveIn(slots', handle)
  {
    if handle.slot < |slots| {
      assert SlotMoved(slots[handle.slot], slots'[handle.slot], protected);
    }
  }

  /** Protected resources stay where they are and do not lose residency. */
  ghost predicate KeepsProtected(slots: Slots, slots': Slots, protected: set<Handle>) {
    && |slots'| == |slots|
    && forall i :: 0 <= i < |slots| && slots[i].Some? && slots[i].value.handle in protected ==>
         slots'[i].Some? && slots'[i].value.handle == slots[i].value.handle && (slots[i].value.resident ==> slots'[i].value.resident)
  }

  lemma StaysResident(slots: Slots, slots': Slots, protected: set<Handle>, handle: Handle)
    requires KeepsProtected(slots, slots', protected) && handle in protected
    requires LiveIn(slots, handle) && slots[handle.slot].value.resident
    ensures LiveIn(slots', handle) && slots'[handle.slot].value.resident
  {
  }

  /** All protected resources, made resident, fit next to what holds device writes. */
  ghost predicate RoomForAll(slots: Slots, protected: set<Handle>, leak: Leak) {
    RoomFor(AllMade(slots, protected), protected, leak, 0, 0)
  }

  /** A resource needs no new host object, or gets one. */
  predicate Creatable(slots: Slots, handle: Handle, hostCreated: set<Handle>) {
    LiveIn(slots, handle) && !slots[handle.slot].value.resident ==> handle in hostCreated
  }

  /** The resources resident so far needed no new host object or got one. */
  ghost predicate ResidentCreatable(initial: Slots, slots: Slots, protected: set<Handle>, hostCreated: set<Handle>) {
    forall h :: h in protected && LiveIn(slots, h) && slots[h.slot].value.resident ==> Creatable(initial, h, hostCreated)
  }

  ghost predicate SubImports(imports': Imports, imports: Imports) {
    imports'.Keys <= imports.Keys && forall k :: k in imports' ==> imports'[k] == imports[k]
  }

  /** A protected resource that is not resident yet has not moved. */
  lemma MovedFrom(initial: Slots, slots: Slots, protected: set<Handle>, handle: Handle)
    requires Moved(initial, slots, protected) && LiveIn(slots, handle) && handle in protected && !slots[handle.slot].value.resident
    ensures initial[handle.slot] == slots[handle.slot]
  {
    assert SlotMoved(initial[handle.slot], slots[handle.slot], protected);
  }

  lemma NoRoomForOne(initial: Slots, slots: Slots, protected: set<Handle>, leak: Leak, i: nat)
    requires Moved(initial, slots, protected) && i < |slots| && slots[i].Some? && !slots[i].value.resident
    requires slots[i].value.handle in protected && !RoomFor(slots, protected, leak, 1, slots[i].value.bytes)
    ensures !RoomForAll(initial, protected, leak)
  {
    var made := slots[i := Some(MadeResident(slots[i].value))];
    assert SlotMoved(initial[i], slots[i], protected);
    assert SlotMoved(initial[i], made[i], protected);
    assert Moved(initial, made, protected);
    forall budget
      ensures PinnedCost(slots, protected, budget) + Cost(slots[i].value.bytes, budget)
           <= PinnedCost(AllMade(initial, protected), protected, budget)
    {
      PinnedUpdate(slots, i, Some(MadeResident(slots[i].value)), protected, budget);
      MovedPinsNoMore(initial, made, protected, budget);
    }
    assert PinnedCost(slots, protected, Count) + Cost(slots[i].value.bytes, Count) <= PinnedCost(AllMade(initial, protected), protected, Count);
    assert PinnedCost(slots, protected, Bytes) + Cost(slots[i].value.bytes, Bytes) <= PinnedCost(AllMade(initial, protected), protected, Bytes);
  }

  lemma AllResidentFits(initial: Slots, slots: Slots, imports: Imports, protected: set<Handle>, leak: Leak)
    requires Moved(initial, slots, protected)
    requires forall h :: h in protected ==> LiveIn(slots, h) && slots[h.slot].value.resident
    requires forall i :: 0 <= i < |slots| && slots[i].Some? ==> slots[i].value.handle.slot == i
    requires TotalCost(slots, imports, Count) + leak.count <= MAX_RESIDENT_RESOURCE_COUNT
    requires TotalCost(slots, imports, Bytes) + leak.bytes <= MAX_RESIDENT_RESOURCE_BYTES
    ensures RoomForAll(initial, protected, leak)
  {
    forall i | 0 <= i < |slots| && slots[i].Some? && slots[i].value.handle in protected
      ensures slots[i].value.resident
    {
      assert LiveIn(slots, slots[i].value.handle);
    }
    AllMovedPinsAsMuch(initial, slots, protected, Count);
    AllMovedPinsAsMuch(initial, slots, protected, Bytes);
    ResidentLeavesRoom(slots, imports, protected, leak, 0, 0);
  }
}
