/** Creating a fault registry from a list of regions: sorted, sized and published one by one. */
module RegistryCreation {
  import opened Primitives
  import opened FaultIndex
  import opened FaultRegistry

  // ---- sorting by start ---------------------------------------------------------------------

  ghost predicate ByStart(regions: seq<Region>) {
    forall i, j :: 0 <= i < j < |regions| ==> regions[i].start <= regions[j].start
  }

  function Inserted(regions: seq<Region>, k: nat, region: Region): seq<Region>
    requires k <= |regions|
  {
    regions[..k] + [region] + regions[k..]
  }

  /** The element of the longer list behind element `i` of the shorter. */
  function Shifted(k: nat, i: nat): nat {
    if i < k then i else i + 1
  }

  lemma InsertedAt(regions: seq<Region>, k: nat, region: Region, i: nat)
    requires k <= |regions| && i <= |regions|
    ensures Inserted(regions, k, region)[k] == region
    ensures i < |regions| ==> Inserted(regions, k, region)[Shifted(k, i)] == regions[i]
  {
  }

  lemma InsertedByStart(regions: seq<Region>, k: nat, region: Region)
    requires ByStart(regions) && k <= |regions|
    requires forall i :: 0 <= i < k ==> regions[i].start <= region.start
    requires k < |regions| ==> region.start <= regions[k].start
    ensures ByStart(Inserted(regions, k, region))
  {
    var r := Inserted(regions, k, region);
    forall i, j | 0 <= i < j < |r|
      ensures r[i].start <= r[j].start
    {
      assert r[i] == if i < k then regions[i] else if i == k then region else regions[i - 1];
      assert r[j] == if j < k then regions[j] else if j == k then region else regions[j - 1];
    }
  }

  ghost predicate ApartFrom(regions: seq<Region>, region: Region) {
    forall i :: 0 <= i < |regions| ==> Disjoint(regions[i], region)
  }

  lemma InsertedApart(regions: seq<Region>, k: nat, region: Region)
    requires k <= |regions|
    ensures AllApart(Inserted(regions, k, region)) <==> AllApart(regions) && ApartFrom(regions, region)
  {
    var r := Inserted(regions, k, region);
    if AllApart(r) {
      forall i, j | 0 <= i < j < |regions|
        ensures Disjoint(regions[i], regions[j]) && Disjoint(regions[i], region) && Disjoint(regions[j], region)
      {
        InsertedAt(regions, k, region, i);
        InsertedAt(regions, k, region, j);
        assert Disjoint(r[Shifted(k, i)], r[Shifted(k, j)]);
      }
      forall i | 0 <= i < |regions|
        ensures Disjoint(regions[i], region)
      {
        InsertedAt(regions, k, region, i);
      }
    }
    if AllApart(regions) && ApartFrom(regions, region) {
      forall i, j | 0 <= i < j < |r|
        ensures Disjoint(r[i], r[j])
      {
        assert r[i] == if i < k then regions[i] else if i == k then region else regions[i - 1];
        assert r[j] == if j < k then regions[j] else if j == k then region else regions[j - 1];
      }
    }
  }

  lemma InsertedValid(regions: seq<Region>, k: nat, region: Region)
    requires k <= |regions|
    ensures AllValid(Inserted(regions, k, region)) <==> AllValid(regions) && ValidRegion(region)
  {
    var r := Inserted(regions, k, region);
    forall i | 0 <= i < |regions|
      ensures r[Shifted(k, i)] == regions[i] && r[k] == region
    {
      InsertedAt(regions, k, region, i);
    }
    assert r[k] == region;
  }

  function SlotsOf(region: Region): nat {
    if region.start < region.end then PageCount(region) else 0
  }

  lemma {:induction false} InsertedPages(regions: seq<Region>, k: nat, region: Region)
    requires k <= |regions|
    ensures PagesOf(Inserted(regions, k, region)) == PagesOf(regions) + SlotsOf(region)
    decreases |regions|
  {
    var r := Inserted(regions, k, region);
    if k == |regions| {
      assert r[..|r| - 1] == regions;
    } else {
      var n := |regions| - 1;
      InsertedPages(regions[..n], k, region);
      InsertedBeforeLast(regions, k, region);
    }
  }

  lemma InsertedBeforeLast(regions: seq<Region>, k: nat, region: Region)
    requires k < |regions|
    ensures var r, n := Inserted(regions, k, region), |regions| - 1;
            r[..|r| - 1] == Inserted(regions[..n], k, region) && r[|r| - 1] == regions[n]
  {
  }

  /** The same regions, as far as publishing them is concerned. */
  ghost predicate SameTerms(a: seq<Region>, b: seq<Region>) {
    && multiset(a) == multiset(b)
    && (AllValid(a) <==> AllValid(b))
    && (AllApart(a) <==> AllApart(b))
    && PagesOf(a) == PagesOf(b)
  }

  lemma SameTermsInserted(sorted: seq<Region>, regions: seq<Region>, k: nat, region: Region)
    requires SameTerms(sorted, regions) && k <= |sorted|
    ensures SameTerms(Inserted(sorted, k, region), regions + [region])
  {
    InsertedElements(sorted, k, region);
    InsertedElements(regions, |regions|, region);
    assert Inserted(regions, |regions|, region) == regions + [region];
    InsertedValid(sorted, k, region);
    InsertedValid(regions, |regions|, region);
    InsertedApart(sorted, k, region);
    InsertedApart(regions, |regions|, region);
    ApartByElements(sorted, regions, region);
    InsertedPages(sorted, k, region);
    InsertedPages(regions, |regions|, region);
  }

  lemma InsertedElements(regions: seq<Region>, k: nat, region: Region)
    requires k <= |regions|
    ensures multiset(Inserted(regions, k, region)) == multiset(regions) + multiset{region}
  {
    assert regions == regions[..k] + regions[k..];
  }

  lemma ApartByElements(a: seq<Region>, b: seq<Region>, region: Region)
    requires multiset(a) == multiset(b)
    ensures ApartFrom(a, region) <==> ApartFrom(b, region)
  {
    assert forall r :: r in a <==> r in multiset(a);
    assert forall r :: r in b <==> r in multiset(b);
    assert ApartFrom(a, region) <==> forall r :: r in a ==> Disjoint(r, region);
    assert ApartFrom(b, region) <==> forall r :: r in b ==> Disjoint(r, region);
  }

  method InsertByStart(sorted: seq<Region>, ghost regions: seq<Region>, region: Region) returns (sorted': seq<Region>)
    requires ByStart(sorted) && SameTerms(sorted, regions)
    ensures ByStart(sorted') && SameTerms(sorted', regions + [region])
  {
    var k := 0;
    while k < |sorted| && sorted[k].start <= region.start
      invariant 0 <= k <= |sorted|
      invariant forall i :: 0 <= i < k ==> sorted[i].start <= region.start
    {
      k := k + 1;
    }
    InsertedByStart(sorted, k, region);
    SameTermsInserted(sorted, regions, k, region);
    return Inserted(sorted, k, region);
  }

  method SortByStart(regions: seq<Region>) returns (sorted: seq<Region>)
    ensures ByStart(sorted) && SameTerms(sorted, regions)
    decreases |regions|
  {
    if regions == [] {
      return [];
    }
    var n := |regions| - 1;
    var rest := SortByStart(regions[..n]);
    sorted := InsertByStart(rest, regions[..n], regions[n]);
    assert regions == regions[..n] + [regions[n]];
  }

  // ---- creation -----------------------------------------------------------------------------

  /** The smallest power of two that is at least four times the capacity. */
  ghost predicate IndexSize(capacity: nat, n: nat) {
    IsPowerOfTwo(n) && 4 * capacity <= n < 8 * capacity
  }

  lemma {:induction false} PowersApart(m: nat, n: nat)
    requires IsPowerOfTwo(m) && IsPowerOfTwo(n) && m < n
    ensures 2 * m <= n
  {
    if m > 1 {
      PowersApart(m / 2, n / 2);
    }
  }

  lemma IndexSizeUnique(capacity: nat, m: nat, n: nat)
    requires IndexSize(capacity, m) && IndexSize(capacity, n)
    ensures m == n
  {
    if m < n {
      PowersApart(m, n);
    } else if n < m {
      PowersApart(n, m);
    }
  }

  /** The regions are valid, no two share an address, and their pages fit the index made for them. */
  ghost predicate Registrable(regions: seq<Region>) {
    && AllValid(regions)
    && AllApart(regions)
    && exists n: nat :: IndexSize(Max(|regions|, 1), n) && PagesOf(regions) <= n
  }

  lemma {:induction false} PagesGrow(regions: seq<Region>, k: nat)
    requires k <= |regions|
    ensures PagesOf(regions[..k]) <= PagesOf(regions)
  {
    if k == |regions| {
      assert regions[..k] == regions;
    } else {
      PagesGrow(regions[..|regions| - 1], k);
      assert regions[..|regions| - 1][..k] == regions[..k];
    }
  }

  /** The next of some registrable regions is accepted after those before it. */
  lemma NextIsAccepted(queue: seq<Region>, slots0: Slots, k: nat, regions: seq<Region>, slots: Slots)
    requires AllValid(queue) && AllApart(queue) && PagesOf(queue) <= |Vacant(slots0)| && k < |queue|
    requires PublishedSoFar([], slots0, queue, k, regions, slots)
    ensures PublishAccepts(regions, Max(|queue|, 1), slots, queue[k])
  {
    assert regions == queue[..k];
    NextFits(queue, k, |Vacant(slots0)|);
  }

  lemma NextFits(queue: seq<Region>, k: nat, total: nat)
    requires k < |queue| && ValidRegion(queue[k]) && PagesOf(queue) <= total
    ensures PagesOf(queue[..k]) + PageCount(queue[k]) <= total
  {
    PagesGrow(queue, k + 1);
    assert queue[..k + 1][..k] == queue[..k];
  }

  /**
   A registry of the given regions. It is created exactly when they are registrable, whatever their
   order, and it then publishes exactly them.
   */
  method NewRegistry(regions: seq<Region>) returns (r: Result<NativeFaultRegistry, RegistryError>)
    ensures r.Ok? <==> Max(|regions|, 1) * 4 <= U64_SIZE / 2 && Registrable(regions)
    ensures r.Ok? ==> r.value.Valid() && fresh(r.value) && fresh(r.value.slots) && multiset(r.value.regions) == multiset(regions)
  {
    var sorted := SortByStart(regions);
    var created := NativeFaultRegistry.WithCapacity(Max(|regions|, 1));
    if created.Err? {
      return created;
    }
    var registry := created.value;
    ghost var n, slots0 := registry.slots.Length, registry.slots[..];
    var published, moments := registry.PublishAll(sorted);
    if published.Err? {
      ghost var k :| 0 <= k < |sorted| && PublishedSoFar([], slots0, sorted, k, registry.regions, registry.slots[..])
                     && !PublishAccepts(registry.regions, registry.capacity, registry.slots[..], sorted[k]);
      RefusedMeansUnregistrable(regions, sorted, n, slots0, k, registry.regions, registry.slots[..]);
      return Err(published.error);
    }
    PublishedMeansRegistrable(regions, sorted, n, slots0, registry.regions, registry.slots[..]);
    return Ok(registry);
  }

  lemma SameCount(a: seq<Region>, b: seq<Region>)
    requires multiset(a) == multiset(b)
    ensures |a| == |b|
  {
    assert |multiset(a)| == |a| && |multiset(b)| == |b|;
  }

  lemma RefusedMeansUnregistrable(regions: seq<Region>, sorted: seq<Region>, n: nat, slots0: Slots, k: nat, known: seq<Region>, slots: Slots)
    requires SameTerms(sorted, regions) && IndexSize(Max(|regions|, 1), n) && |Vacant(slots0)| == n
    requires k < |sorted| && PublishedSoFar([], slots0, sorted, k, known, slots)
    requires !PublishAccepts(known, Max(|regions|, 1), slots, sorted[k])
    ensures !Registrable(regions)
  {
    SizeDecides(regions, n);
    SameCount(sorted, regions);
    if Registrable(regions) {
      NextIsAccepted(sorted, slots0, k, known, slots);
    }
  }

  lemma PublishedMeansRegistrable(regions: seq<Region>, sorted: seq<Region>, n: nat, slots0: Slots, known: seq<Region>, slots: Slots)
    requires SameTerms(sorted, regions) && IndexSize(Max(|regions|, 1), n) && |Vacant(slots0)| == n
    requires PublishedSoFar([], slots0, sorted, |sorted|, known, slots)
    ensures Registrable(regions) && multiset(known) == multiset(regions)
  {
    SizeDecides(regions, n);
    assert sorted[..|sorted|] == sorted;
    assert [] + sorted == sorted;
  }

  lemma SizeDecides(regions: seq<Region>, n: nat)
    requires IndexSize(Max(|regions|, 1), n)
    ensures Registrable(regions) <==> AllValid(regions) && AllApart(regions) && PagesOf(regions) <= n
  {
    if m: nat :| IndexSize(Max(|regions|, 1), m) && PagesOf(regions) <= m {
      IndexSizeUnique(Max(|regions|, 1), m, n);
    }
  }
}
