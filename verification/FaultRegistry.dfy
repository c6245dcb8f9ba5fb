/** The append-only registry that attributes native program counters to guest fault sites. */
module FaultRegistry {
  import opened Primitives
  import opened OrderedMaps
  import opened FaultIndex

  datatype RegistryError =
    | ZeroCapacity
    | CapacityOverflow
    | InvalidRegion
    | CapacityExhausted
    | OverlappingRegion
    | IndexExhausted

  // ---- choosing slots -----------------------------------------------------------------------

  function PageCount(region: Region): nat
    requires region.start < region.end
  {
    (region.end - 1) / DIRECT_PAGE_SIZE - region.start / DIRECT_PAGE_SIZE + 1
  }

  ghost function Vacant(slots: Slots): set<nat> {
    set i | 0 <= i < |slots| && slots[i].None?
  }

  /** Every slot before the chosen one on this probe path is taken or about to be. */
  ghost predicate PlannedAt(slots: Slots, selected: set<nat>, page: nat, probe: nat) {
    && probe < |slots|
    && SlotAt(page, probe, |slots|) in selected
    && forall j :: 0 <= j < probe ==>
         slots[SlotAt(page, j, |slots|)].Some? || SlotAt(page, j, |slots|) in selected
  }

  ghost predicate Planned(slots: Slots, selected: set<nat>, page: nat) {
    exists probe :: PlannedAt(slots, selected, page, probe)
  }

  function Filled(slots: Slots, selected: set<nat>, region: Region): (r: Slots)
    ensures |r| == |slots|
  {
    seq(|slots|, i requires 0 <= i < |slots| => if i in selected then Some(region) else slots[i])
  }

  lemma ProbesReachEverySlot(page: nat, slot: nat, count: nat) returns (probe: nat)
    requires slot < count
    ensures probe < count && SlotAt(page, probe, count) == slot
  {
    var start := PageHash(page) % count;
    probe := if start <= slot then slot - start else slot + count - start;
    WrapsOnce(start + probe, slot, count);
  }

  lemma WrapsOnce(total: nat, slot: nat, count: nat)
    requires slot < count && (total == slot || total == slot + count)
    ensures total % count == slot
  {
    DivModUnique(total, count, if total == slot then 0 else 1, slot);
  }

  lemma PlanReaches(slots: Slots, selected: set<nat>, region: Region, page: nat)
    requires Planned(slots, selected, page)
    ensures Reached(Filled(slots, selected, region), page, region)
  {
    var probe :| PlannedAt(slots, selected, page, probe);
    assert ReachedAt(Filled(slots, selected, region), page, region, probe);
  }

  lemma PlanSurvives(slots: Slots, selected: set<nat>, slot: nat, page: nat)
    requires Planned(slots, selected, page)
    ensures Planned(slots, selected + {slot}, page)
  {
    var probe :| PlannedAt(slots, selected, page, probe);
    assert PlannedAt(slots, selected + {slot}, page, probe);
  }

  /** The pages numbered below `index` have their slots. */
  ghost predicate PlannedBelow(slots: Slots, selected: set<nat>, region: Region, index: nat) {
    forall pc: nat :: region.Contains(pc) && pc / DIRECT_PAGE_SIZE < index ==> Planned(slots, selected, PageOf(pc))
  }

  lemma PlannedOneMore(slots: Slots, selected: set<nat>, slot: nat, region: Region, index: nat)
    requires PlannedBelow(slots, selected, region, index)
    requires Planned(slots, selected + {slot}, index * DIRECT_PAGE_SIZE)
    ensures PlannedBelow(slots, selected + {slot}, region, index + 1)
  {
    forall pc: nat | region.Contains(pc) && pc / DIRECT_PAGE_SIZE < index + 1
      ensures Planned(slots, selected + {slot}, PageOf(pc))
    {
      if pc / DIRECT_PAGE_SIZE < index {
        PlanSurvives(slots, selected, slot, PageOf(pc));
      }
    }
  }

  /** What a complete plan promises about the slots it selected. */
  ghost predicate IsPlan(slots: Slots, selected: set<nat>, region: Region) {
    && selected <= Vacant(slots)
    && forall pc: nat :: region.Contains(pc) ==> Planned(slots, selected, PageOf(pc))
  }

  lemma PlanIndexes(slots: Slots, selected: set<nat>, region: Region)
    requires IsPlan(slots, selected, region)
    ensures Indexed(Filled(slots, selected, region), region)
    ensures Grows(slots, Filled(slots, selected, region))
  {
    forall pc: nat | region.Contains(pc)
      ensures Reached(Filled(slots, selected, region), PageOf(pc), region)
    {
      PlanReaches(slots, selected, region, PageOf(pc));
    }
  }

  lemma FilledVacancies(slots: Slots, selected: set<nat>, region: Region)
    requires selected <= Vacant(slots)
    ensures |Vacant(Filled(slots, selected, region))| == |Vacant(slots)| - |selected|
  {
    assert Vacant(Filled(slots, selected, region)) == Vacant(slots) - selected;
  }

  lemma SubsetSize(a: set<nat>, b: set<nat>)
    requires a <= b
    ensures |a| <= |b|
    ensures a != b ==> |a| < |b|
  {
    assert b == a + (b - a);
  }

  // ---- the planning loop --------------------------------------------------------------------

  ghost predicate PlanInvariant(slots: Slots, region: Region, selected: set<nat>, index: nat)
    requires region.start < region.end
  {
    && index == region.start / DIRECT_PAGE_SIZE + |selected|
    && index <= (region.end - 1) / DIRECT_PAGE_SIZE + 1
    && selected <= Vacant(slots)
    && PlannedBelow(slots, selected, region, index)
  }

  lemma PlanStep(slots: Slots, region: Region, selected: set<nat>, index: nat, slot: nat)
    requires region.start < region.end && PlanInvariant(slots, region, selected, index)
    requires index <= (region.end - 1) / DIRECT_PAGE_SIZE
    requires slot in Vacant(slots) - selected
    requires Planned(slots, selected + {slot}, index * DIRECT_PAGE_SIZE)
    ensures PlanInvariant(slots, region, selected + {slot}, index + 1)
  {
    PlannedOneMore(slots, selected, slot, region, index);
    assert |selected + {slot}| == |selected| + 1;
  }

  lemma PlanDone(slots: Slots, region: Region, selected: set<nat>, index: nat)
    requires region.start < region.end && PlanInvariant(slots, region, selected, index)
    requires index > (region.end - 1) / DIRECT_PAGE_SIZE
    ensures IsPlan(slots, selected, region)
    ensures |selected| == PageCount(region) <= |Vacant(slots)|
  {
    SubsetSize(selected, Vacant(slots));
    forall pc: nat | region.Contains(pc)
      ensures Planned(slots, selected, PageOf(pc))
    {
      assert pc / DIRECT_PAGE_SIZE <= (region.end - 1) / DIRECT_PAGE_SIZE;
    }
  }

  lemma PlanFails(slots: Slots, region: Region, selected: set<nat>, index: nat)
    requires region.start < region.end && PlanInvariant(slots, region, selected, index)
    requires index <= (region.end - 1) / DIRECT_PAGE_SIZE && Vacant(slots) <= selected
    ensures PageCount(region) > |Vacant(slots)|
  {
    assert selected == Vacant(slots);
  }

  // ---- lookup -------------------------------------------------------------------------------

  /** The probe loop over the values its loads return; each slot is loaded at most once. */
  method FindSite(loaded: Slots, pc: nat) returns (r: Option<Site>)
    requires forall i :: 0 <= i < |loaded| && loaded[i].Some? ==> ValidRegion(loaded[i].value)
    ensures r == Probe(loaded, pc, 0)
  {
    var page := PageOf(pc);
    for probe := 0 to |loaded|
      invariant Probe(loaded, pc, 0) == Probe(loaded, pc, probe)
    {
      var slot := loaded[SlotAt(page, probe, |loaded|)];
      if slot.None? {
        return None;
      }
      if slot.value.Contains(pc) {
        r := SearchSites(slot.value, pc);
        return;
      }
    }
    return None;
  }

  // ---- capacity -----------------------------------------------------------------------------

  lemma DoubledPower(n: nat)
    requires IsPowerOfTwo(n)
    ensures IsPowerOfTwo(n * 2)
  {
    assert n * 2 / 2 == n;
  }

  /** The number of index slots for a region capacity: the least power of two at or above four times it. */
  method IndexCapacity(capacity: nat) returns (r: Result<nat, RegistryError>)
    ensures r.Ok? <==> capacity > 0 && capacity * 4 <= U64_SIZE / 2
    ensures r.Err? ==> r.error == if capacity == 0 then ZeroCapacity else CapacityOverflow
    ensures r.Ok? ==> IsPowerOfTwo(r.value) && 4 * capacity <= r.value < 8 * capacity && r.value >= 4
  {
    if capacity == 0 {
      return Err(ZeroCapacity);
    }
    if capacity * 4 > U64_SIZE / 2 {
      return Err(CapacityOverflow);
    }
    var n := 1;
    while n < capacity * 4
      invariant IsPowerOfTwo(n) && n < 8 * capacity
      decreases 8 * capacity - n
    {
      DoubledPower(n);
      n := n * 2;
    }
    return Ok(n);
  }

  // ---- the registry -------------------------------------------------------------------------

  ghost predicate RangesMatch(ranges: map<nat, nat>, regions: seq<Region>) {
    && (forall region :: region in regions ==> region.start in ranges && ranges[region.start] == region.end)
    && (forall start :: start in ranges ==> exists region :: region in regions && region.start == start)
  }

  ghost function Published(regions: seq<Region>): set<Region> {
    set region | region in regions
  }

  lemma OverlapByNeighbours(regions: seq<Region>, ranges: map<nat, nat>, region: Region, other: Region, floor: Option<nat>, ceiling: Option<nat>)
    requires SoundRegions(Published(regions)) && RangesMatch(ranges, regions) && ValidRegion(region)
    requires other in regions && !Disjoint(other, region)
    requires floor.None? ==> forall k :: k in ranges ==> k > region.start
    requires floor.Some? ==> floor.value in ranges && floor.value <= region.start
    requires floor.Some? ==> forall k :: k in ranges && k <= region.start ==> k <= floor.value
    requires ceiling.None? ==> forall k :: k in ranges ==> k < region.start
    requires ceiling.Some? ==> forall k :: k in ranges && k >= region.start ==> k >= ceiling.value
    ensures (floor.Some? && ranges[floor.value] > region.start) || (ceiling.Some? && ceiling.value < region.end)
  {
    assert other in Published(regions);
    assert ValidRegion(other);
    if other.start <= region.start {
      assert floor.Some?;
      var below :| below in regions && below.start == floor.value;
      assert below in Published(regions);
      assert ValidRegion(below);
      if below != other {
        assert Disjoint(below, other);
      }
    } else {
      assert ceiling.Some?;
    }
  }

  ghost predicate PublishAccepts(regions: seq<Region>, capacity: nat, slots: Slots, region: Region) {
    && ValidRegion(region)
    && |regions| < capacity
    && (forall other :: other in regions ==> Disjoint(other, region))
    && PageCount(region) <= |Vacant(slots)|
  }

  /** What keeps a region from being published. */
  ghost predicate PublishFails(regions: seq<Region>, capacity: nat, slots: Slots, region: Region, why: RegistryError) {
    match why
    case InvalidRegion => !ValidRegion(region)
    case CapacityExhausted => |regions| >= capacity
    case OverlappingRegion => exists other :: other in regions && !Disjoint(other, region)
    case IndexExhausted => ValidRegion(region) && PageCount(region) > |Vacant(slots)|
    case _ => false
  }

  /** The index slots a list of regions takes. */
  function PagesOf(regions: seq<Region>): nat {
    if regions == [] then 0
    else
      var last := regions[|regions| - 1];
      PagesOf(regions[..|regions| - 1]) + if last.start < last.end then PageCount(last) else 0
  }

  ghost predicate AllValid(regions: seq<Region>) {
    forall i :: 0 <= i < |regions| ==> ValidRegion(regions[i])
  }

  ghost predicate AllApart(regions: seq<Region>) {
    forall i, j :: 0 <= i < j < |regions| ==> Disjoint(regions[i], regions[j])
  }

  /** The first `k` regions of the queue have been published. */
  ghost predicate PublishedSoFar(regions0: seq<Region>, slots0: Slots, queue: seq<Region>, k: nat, regions: seq<Region>, slots: Slots) {
    && k <= |queue|
    && regions == regions0 + queue[..k]
    && AllValid(queue[..k]) && AllApart(queue[..k])
    && |Vacant(slots)| + PagesOf(queue[..k]) == |Vacant(slots0)|
  }

  lemma PublishedOneMore(regions0: seq<Region>, slots0: Slots, queue: seq<Region>, k: nat, regions: seq<Region>, slots: Slots, slots': Slots)
    requires k < |queue| && PublishedSoFar(regions0, slots0, queue, k, regions, slots)
    requires ValidRegion(queue[k]) && forall other :: other in regions ==> Disjoint(other, queue[k])
    requires |Vacant(slots')| + PageCount(queue[k]) == |Vacant(slots)|
    ensures PublishedSoFar(regions0, slots0, queue, k + 1, regions + [queue[k]], slots')
  {
    assert queue[..k + 1] == queue[..k] + [queue[k]];
    assert queue[..k + 1][..k] == queue[..k];
    forall i | 0 <= i < k
      ensures Disjoint(queue[i], queue[k])
    {
      assert (regions0 + queue[..k])[|regions0| + i] == queue[i];
    }
  }

  lemma PublishKeeps(slots: Slots, selected: set<nat>, regions: seq<Region>, ranges: map<nat, nat>, region: Region)
    requires SoundRegions(Published(regions)) && RangesMatch(ranges, regions)
    requires AllIndexed(slots, Published(regions)) && Holds(slots, Published(regions))
    requires ValidRegion(region) && forall other :: other in regions ==> Disjoint(other, region)
    requires IsPlan(slots, selected, region)
    ensures SoundRegions(Published(regions + [region]))
    ensures RangesMatch(ranges[region.start := region.end], regions + [region])
    ensures AllIndexed(Filled(slots, selected, region), Published(regions + [region]))
    ensures Holds(Filled(slots, selected, region), Published(regions + [region]))
  {
    PlanIndexes(slots, selected, region);
    GrowthKeepsIndexed(slots, Filled(slots, selected, region), Published(regions));
    assert Published(regions + [region]) == Published(regions) + {region};
    RangesGrow(regions, ranges, region);
  }

  lemma RangesGrow(regions: seq<Region>, ranges: map<nat, nat>, region: Region)
    requires RangesMatch(ranges, regions) && SoundRegions(Published(regions))
    requires ValidRegion(region) && forall other :: other in regions ==> Disjoint(other, region)
    ensures RangesMatch(ranges[region.start := region.end], regions + [region])
  {
    forall other | other in regions
      ensures other.start != region.start
    {
      assert other in Published(regions);
      assert ValidRegion(other);
    }
    var grown := ranges[region.start := region.end];
    forall start | start in grown
      ensures exists r :: r in regions + [region] && r.start == start
    {
      if start == region.start {
        assert region in regions + [region];
      } else {
        var r :| r in regions && r.start == start;
        assert r in regions + [region];
      }
    }
  }

  /**
   A handler that looks up `pc` while regions are being published, loading each slot at any recorded
   moment: a region published before it started is attributed exactly, and any hit is correct.
   */
  lemma FindWhilePublishing(moments: seq<Slots>, before: Slots, after: Slots, loaded: Slots, picks: seq<nat>, earlier: seq<Region>, later: seq<Region>, pc: nat)
    requires IsGrowth(moments, before, after)
    requires IsMixture(loaded, moments, picks) && |loaded| == |before|
    requires earlier <= later && SoundRegions(Published(later))
    requires AllIndexed(before, Published(earlier)) && Holds(after, Published(later))
    ensures match Probe(loaded, pc, 0)
            case Some(site) => Attributes(Published(later), pc, site)
            case None => NothingAt(Published(earlier), pc)
    ensures forall region :: region in earlier && region.Contains(pc) ==>
              Probe(loaded, pc, 0) == ScanSites(region.sites, pc)
  {
    MixtureIsBetween(moments, before, after, loaded, picks);
    assert Published(earlier) <= Published(later);
    LookupDuringPublication(before, loaded, after, Published(earlier), Published(later), pc);
  }

  class NativeFaultRegistry {
    const slots: array<Option<Region>>
    const capacity: nat
    var regions: seq<Region>
    var ranges: map<nat, nat>

    ghost predicate Valid()
      reads this, slots
    {
      && slots.Length > 0
      && |regions| <= capacity
      && SoundRegions(Published(regions))
      && RangesMatch(ranges, regions)
      && AllIndexed(slots[..], Published(regions))
      && Holds(slots[..], Published(regions))
    }

    constructor (capacity: nat, count: nat)
      requires count > 0
      ensures Valid() && regions == [] && this.capacity == capacity
      ensures slots.Length == count && fresh(slots)
      ensures forall i :: 0 <= i < count ==> slots[i].None?
    {
      this.capacity := capacity;
      regions := [];
      ranges := map[];
      slots := new Option<Region>[count](_ => None);
    }

    static method WithCapacity(capacity: nat) returns (r: Result<NativeFaultRegistry, RegistryError>)
      ensures r.Ok? <==> capacity > 0 && capacity * 4 <= U64_SIZE / 2
      ensures r.Err? ==> r.error == if capacity == 0 then ZeroCapacity else CapacityOverflow
      ensures r.Ok? ==> fresh(r.value) && fresh(r.value.slots) && r.value.Valid()
      ensures r.Ok? ==> r.value.regions == [] && r.value.capacity == capacity
      ensures r.Ok? ==> IsPowerOfTwo(r.value.slots.Length) && 4 * capacity <= r.value.slots.Length < 8 * capacity
      ensures r.Ok? ==> |Vacant(r.value.slots[..])| == r.value.slots.Length
    {
      var count := IndexCapacity(capacity);
      match count {
        case Err(error) => return Err(error);
        case Ok(n) =>
          var registry := new NativeFaultRegistry(capacity, n);
          AllVacant(registry.slots[..]);
          return Ok(registry);
      }
    }

    method OverlapsPublished(region: Region) returns (b: bool)
      requires Valid() && ValidRegion(region)
      ensures b <==> exists other :: other in regions && !Disjoint(other, region)
    {
      var floor := FloorKey(ranges, region.start);
      var ceiling := CeilingKey(ranges, region.start);
      b := (floor.Some? && ranges[floor.value] > region.start) || (ceiling.Some? && ceiling.value < region.end);
      if b {
        var start := if floor.Some? && ranges[floor.value] > region.start then floor.value else ceiling.value;
        ghost var other :| other in regions && other.start == start;
        assert other in Published(regions);
        assert ValidRegion(other) && !Disjoint(other, region);
      } else {
        forall other | other in regions
          ensures Disjoint(other, region)
        {
          if !Disjoint(other, region) {
            OverlapByNeighbours(regions, ranges, region, other, floor, ceiling);
          }
        }
      }
    }

    method VacantIndexSlot(page: nat, selected: set<nat>) returns (r: Option<nat>)
      requires slots.Length > 0
      ensures r.Some? ==> r.value in Vacant(slots[..]) - selected
      ensures r.Some? ==> Planned(slots[..], selected + {r.value}, page)
      ensures r.None? ==> Vacant(slots[..]) <= selected
    {
      for i := 0 to slots.Length
        invariant forall j :: 0 <= j < i ==> slots[SlotAt(page, j, slots.Length)].Some? || SlotAt(page, j, slots.Length) in selected
      {
        var index := SlotAt(page, i, slots.Length);
        if slots[index].None? && index !in selected {
          assert slots[..][index].None?;
          assert PlannedAt(slots[..], selected + {index}, page, i);
          return Some(index);
        }
      }
      forall slot | slot in Vacant(slots[..])
        ensures slot in selected
      {
        var at := ProbesReachEverySlot(page, slot, slots.Length);
      }
      r := None;
    }

    /** Chooses one vacant slot for every page the region touches, before anything is stored. */
    method PlanSlots(region: Region) returns (r: Option<set<nat>>)
      requires slots.Length > 0 && ValidRegion(region)
      ensures r.Some? <==> PageCount(region) <= |Vacant(slots[..])|
      ensures r.Some? ==> IsPlan(slots[..], r.value, region) && |r.value| == PageCount(region)
    {
      var selected: set<nat> := {};
      var page := PageOf(region.start);
      var last := PageOf(region.end - 1);
      ghost var index := region.start / DIRECT_PAGE_SIZE;
      while page <= last
        invariant page == index * DIRECT_PAGE_SIZE
        invariant PlanInvariant(slots[..], region, selected, index)
      {
        var slot := VacantIndexSlot(page, selected);
        if slot.None? {
          PlanFails(slots[..], region, selected, index);
          return None;
        }
        PlanStep(slots[..], region, selected, index, slot.value);
        selected := selected + {slot.value};
        page := page + DIRECT_PAGE_SIZE;
        index := index + 1;
      }
      PlanDone(slots[..], region, selected, index);
      return Some(selected);
    }

    /** Stores the region into its slots in ascending order, one release store at a time. */
    method StoreSlots(region: Region, selected: set<nat>) returns (ghost moments: seq<Slots>)
      requires selected <= Vacant(slots[..])
      modifies slots
      ensures slots[..] == Filled(old(slots[..]), selected, region)
      ensures IsGrowth(moments, old(slots[..]), slots[..])
    {
      moments := [slots[..]];
      for slot := 0 to slots.Length
        invariant forall i :: 0 <= i < slots.Length ==>
                    slots[i] == if i in selected && i < slot then Some(region) else old(slots[i])
        invariant IsGrowth(moments, old(slots[..]), slots[..])
      {
        if slot in selected {
          ghost var before := slots[..];
          assert old(slots[..])[slot].None?;
          slots[slot] := Some(region);
          assert Grows(before, slots[..]) && OneStore(before, slots[..]);
          GrowthExtends(moments, old(slots[..]), before, slots[..]);
          moments := moments + [slots[..]];
        }
      }
    }

    /**
     Publishes one region. Acceptance is decided exactly, a refusal changes nothing, and `moments`
     records every state of the index that a concurrent reader can load from.
     */
    method Publish(region: Region) returns (r: Result<(), RegistryError>, ghost moments: seq<Slots>)
      requires Valid()
      modifies this, slots
      ensures Valid()
      ensures r.Ok? <==> PublishAccepts(old(regions), capacity, old(slots[..]), region)
      ensures r.Ok? ==> regions == old(regions) + [region]
      ensures r.Ok? ==> |Vacant(slots[..])| == |Vacant(old(slots[..]))| - PageCount(region)
      ensures r.Err? ==> regions == old(regions) && ranges == old(ranges) && slots[..] == old(slots[..])
      ensures r.Err? ==> PublishFails(old(regions), capacity, old(slots[..]), region, r.error)
      ensures IsGrowth(moments, old(slots[..]), slots[..])
    {
      moments := [slots[..]];
      var valid := ValidateRegion(region);
      if !valid {
        return Err(InvalidRegion), moments;
      }
      if |regions| == capacity {
        return Err(CapacityExhausted), moments;
      }
      var overlaps := OverlapsPublished(region);
      if overlaps {
        return Err(OverlappingRegion), moments;
      }
      var plan := PlanSlots(region);
      if plan.None? {
        return Err(IndexExhausted), moments;
      }
      ranges := ranges[region.start := region.end];
      regions := regions + [region];
      moments := StoreSlots(region, plan.value);
      PublishKeeps(old(slots[..]), plan.value, old(regions), old(ranges), region);
      FilledVacancies(old(slots[..]), plan.value, region);
      return Ok(()), moments;
    }

    /** Publishes in order and stops at the first refusal; the record of moments spans the whole run. */
    method PublishAll(queue: seq<Region>) returns (r: Result<(), RegistryError>, ghost moments: seq<Slots>)
      requires Valid()
      modifies this, slots
      ensures Valid()
      ensures r.Ok? ==> PublishedSoFar(old(regions), old(slots[..]), queue, |queue|, regions, slots[..])
      ensures r.Err? ==> exists k :: 0 <= k < |queue| && PublishedSoFar(old(regions), old(slots[..]), queue, k, regions, slots[..])
                                     && !PublishAccepts(regions, capacity, slots[..], queue[k])
      ensures IsGrowth(moments, old(slots[..]), slots[..])
    {
      moments := [slots[..]];
      for k := 0 to |queue|
        invariant Valid()
        invariant PublishedSoFar(old(regions), old(slots[..]), queue, k, regions, slots[..])
        invariant IsGrowth(moments, old(slots[..]), slots[..])
      {
        ghost var before, known := slots[..], regions;
        var published, steps := Publish(queue[k]);
        GrowthsCompose(moments, steps, old(slots[..]), before, slots[..]);
        moments := moments + steps;
        if published.Err? {
          return published, moments;
        }
        PublishedOneMore(old(regions), old(slots[..]), queue, k, known, before, slots[..]);
      }
      r := Ok(());
    }

    /** Lookup with no publication under way. */
    method Find(pc: nat) returns (r: Option<Site>)
      requires Valid()
      ensures match r
              case Some(site) => Attributes(Published(regions), pc, site)
              case None => NothingAt(Published(regions), pc)
    {
      r := FindSite(slots[..], pc);
      LookupIsExact(slots[..], Published(regions), pc);
    }
  }

  lemma AllVacant(slots: Slots)
    requires forall i :: 0 <= i < |slots| ==> slots[i].None?
    ensures |Vacant(slots)| == |slots|
    decreases |slots|
  {
    if slots != [] {
      var rest := slots[..|slots| - 1];
      AllVacant(rest);
      assert Vacant(slots) == Vacant(rest) + {|rest|};
    } else {
      assert Vacant(slots) == {};
    }
  }
}
