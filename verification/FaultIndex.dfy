/**
 The open-addressed page index behind native fault attribution.

 A slot is written once and never cleared. A signal handler probes the slots without a lock while
 another thread publishes, so what it sees is a mixture of moments: any slot vector between the
 vector at its start and the vector at its end. The lookup results below are stated for every
 such mixture.
 */
module FaultIndex {
  import opened Primitives

  const DIRECT_PAGE_SIZE: nat := 4096
  const HASH_MULTIPLIER: nat := 0x9e37_79b9_7f4a_7c15

  /** Guest metadata of the site is carried as an opaque number. */
  datatype Site = Site(start: nat, end: nat, metadata: nat) {
    predicate Contains(pc: nat) {
      start <= pc < end
    }
  }

  datatype Region = Region(start: nat, end: nat, sites: seq<Site>) {
    predicate Contains(pc: nat) {
      start <= pc < end
    }
  }

  type Slots = seq<Option<Region>>

  function PageOf(pc: nat): nat {
    pc / DIRECT_PAGE_SIZE * DIRECT_PAGE_SIZE
  }

  function PageHash(page: nat): nat {
    page / DIRECT_PAGE_SIZE * HASH_MULTIPLIER % U64_SIZE
  }

  /** Neighbouring pages are hashed a fixed odd distance apart, wrapping at 64 bits. */
  lemma HashSteps(pc: nat)
    ensures PageHash(PageOf(pc)) == PageHash(pc)
    ensures pc < 4096 ==> PageHash(pc) == 0
    ensures PageHash(pc + 4096) == (PageHash(pc) + 0x9e37_79b9_7f4a_7c15) % 0x1_0000_0000_0000_0000
  {
    DivModUnique(PageOf(pc), 4096, pc / 4096, 0);
    DivModUnique(pc + 4096, 4096, pc / 4096 + 1, pc % 4096);
    var h := pc / 4096 * HASH_MULTIPLIER;
    assert (pc / 4096 + 1) * HASH_MULTIPLIER == h + HASH_MULTIPLIER;
    WrapsOnce(h, HASH_MULTIPLIER);
  }

  lemma WrapsOnce(a: nat, b: nat)
    ensures (a + b) % U64_SIZE == (a % U64_SIZE + b) % U64_SIZE
  {
    var q, r := (a % U64_SIZE + b) / U64_SIZE, (a % U64_SIZE + b) % U64_SIZE;
    DivModUnique(a + b, U64_SIZE, a / U64_SIZE + q, r);
  }

  /** The multiplier's inverse modulo the width of the hash. */
  const HASH_INVERSE: nat := 0xf1de_83e1_9937_733d

  lemma HashUndone(n: nat)
    requires n < U64_SIZE
    ensures n * HASH_MULTIPLIER % U64_SIZE * HASH_INVERSE % U64_SIZE == n
  {
    var product := n * HASH_MULTIPLIER;
    var wraps := HASH_MULTIPLIER * HASH_INVERSE / U64_SIZE;
    assert HASH_MULTIPLIER * HASH_INVERSE == wraps * U64_SIZE + 1;
    var q := product / U64_SIZE;
    assert product == q * U64_SIZE + product % U64_SIZE;
    assert product % U64_SIZE * HASH_INVERSE == (n * wraps - q * HASH_INVERSE) * U64_SIZE + n;
    DivModUnique(product % U64_SIZE * HASH_INVERSE, U64_SIZE, n * wraps - q * HASH_INVERSE, n);
  }

  /** No two pages have the same hash. */
  lemma HashSeparatesPages(pc: nat, other: nat)
    requires pc < U64_SIZE && other < U64_SIZE
    ensures PageHash(pc) == PageHash(other) <==> pc / 4096 == other / 4096
  {
    HashUndone(pc / 4096);
    HashUndone(other / 4096);
  }

  /** The slot of the `probe`th step for a page; masking by a power of two is a remainder. */
  function SlotAt(page: nat, probe: nat, count: nat): (r: nat)
    requires count > 0
    ensures r < count
  {
    (PageHash(page) % count + probe) % count
  }

  // ---- sites inside one region --------------------------------------------------------------

  ghost predicate ValidRegion(region: Region) {
    && region.start < region.end
    && (forall i :: 0 <= i < |region.sites| ==>
          region.start <= region.sites[i].start < region.sites[i].end <= region.end)
    && (forall i :: 0 < i < |region.sites| ==> region.sites[i - 1].end <= region.sites[i].start)
  }

  /** Whether a region may be published. */
  method ValidateRegion(region: Region) returns (valid: bool)
    ensures valid <==> ValidRegion(region)
  {
    if region.start >= region.end {
      return false;
    }
    for i := 0 to |region.sites|
      invariant forall k :: 0 <= k < i ==> region.start <= region.sites[k].start < region.sites[k].end <= region.end
    {
      var site := region.sites[i];
      if site.start < region.start || site.start >= site.end || site.end > region.end {
        return false;
      }
    }
    for i := 0 to |region.sites|
      invariant forall k :: 0 < k < i ==> region.sites[k - 1].end <= region.sites[k].start
    {
      if i > 0 && region.sites[i - 1].end > region.sites[i].start {
        return false;
      }
    }
    return true;
  }

  lemma {:induction false} SitesOrdered(region: Region, i: nat, j: nat)
    requires ValidRegion(region) && i < j < |region.sites|
    ensures region.sites[i].end <= region.sites[j].start
    decreases j
  {
    if i < j - 1 {
      SitesOrdered(region, i, j - 1);
    }
  }

  /** Reference answer: the first site, in order, that contains `pc`. */
  function ScanSites(sites: seq<Site>, pc: nat): Option<Site> {
    if sites == [] then None
    else if sites[0].Contains(pc) then Some(sites[0])
    else ScanSites(sites[1..], pc)
  }

  lemma {:induction false} ScanFinds(sites: seq<Site>, pc: nat)
    ensures ScanSites(sites, pc).Some? ==> ScanSites(sites, pc).value in sites && ScanSites(sites, pc).value.Contains(pc)
    ensures ScanSites(sites, pc).None? ==> forall site :: site in sites ==> !site.Contains(pc)
  {
    if sites != [] {
      ScanFinds(sites[1..], pc);
      assert forall site :: site in sites <==> site == sites[0] || site in sites[1..];
    }
  }

  lemma ScanIs(region: Region, pc: nat, k: nat)
    requires ValidRegion(region) && k < |region.sites| && region.sites[k].Contains(pc)
    ensures ScanSites(region.sites, pc) == Some(region.sites[k])
  {
    ScanFinds(region.sites, pc);
    assert region.sites[k] in region.sites;
    var found := ScanSites(region.sites, pc).value;
    var j :| 0 <= j < |region.sites| && region.sites[j] == found;
    if j < k {
      SitesOrdered(region, j, k);
    } else if k < j {
      SitesOrdered(region, k, j);
    }
  }

  /** The number of sites starting at or before `pc`. */
  method PartitionPoint(region: Region, pc: nat) returns (k: nat)
    requires ValidRegion(region)
    ensures k <= |region.sites|
    ensures forall i :: 0 <= i < k ==> region.sites[i].start <= pc
    ensures forall i :: k <= i < |region.sites| ==> region.sites[i].start > pc
  {
    var low, high := 0, |region.sites|;
    while low < high
      invariant 0 <= low <= high <= |region.sites|
      invariant forall i :: 0 <= i < low ==> region.sites[i].start <= pc
      invariant forall i :: high <= i < |region.sites| ==> region.sites[i].start > pc
    {
      var mid := (low + high) / 2;
      if region.sites[mid].start <= pc {
        forall i | 0 <= i < mid
          ensures region.sites[i].start <= pc
        {
          SitesOrdered(region, i, mid);
        }
        low := mid + 1;
      } else {
        forall i | mid < i < |region.sites|
          ensures region.sites[i].start > pc
        {
          SitesOrdered(region, mid, i);
        }
        high := mid;
      }
    }
    k := low;
  }

  /** The binary search over the sites gives the answer of the linear scan. */
  method SearchSites(region: Region, pc: nat) returns (r: Option<Site>)
    requires ValidRegion(region)
    ensures r == ScanSites(region.sites, pc)
  {
    var k := PartitionPoint(region, pc);
    ScanFinds(region.sites, pc);
    if k == 0 {
      return None;
    }
    var site := region.sites[k - 1];
    if pc < site.end {
      ScanIs(region, pc, k - 1);
      return Some(site);
    }
    forall i | 0 <= i < k
      ensures !region.sites[i].Contains(pc)
    {
      if i < k - 1 {
        SitesOrdered(region, i, k - 1);
      }
    }
    return None;
  }

  // ---- the index ----------------------------------------------------------------------------

  ghost predicate ReachedAt(slots: Slots, page: nat, region: Region, probe: nat) {
    && probe < |slots|
    && slots[SlotAt(page, probe, |slots|)] == Some(region)
    && forall j :: 0 <= j < probe ==> slots[SlotAt(page, j, |slots|)].Some?
  }

  ghost predicate Reached(slots: Slots, page: nat, region: Region) {
    exists probe :: ReachedAt(slots, page, region, probe)
  }

  ghost predicate Indexed(slots: Slots, region: Region) {
    forall pc: nat :: region.Contains(pc) ==> Reached(slots, PageOf(pc), region)
  }

  ghost predicate Disjoint(a: Region, b: Region) {
    a.end <= b.start || b.end <= a.start
  }

  /** Published regions are valid and share no address. */
  ghost predicate SoundRegions(regions: set<Region>) {
    && (forall a :: a in regions ==> ValidRegion(a))
    && (forall a, b :: a in regions && b in regions && a != b ==> Disjoint(a, b))
  }

  ghost predicate Holds(slots: Slots, regions: set<Region>) {
    forall i :: 0 <= i < |slots| && slots[i].Some? ==> slots[i].value in regions
  }

  ghost predicate AllIndexed(slots: Slots, regions: set<Region>) {
    forall region :: region in regions ==> Indexed(slots, region)
  }

  /** The loop of the lock-free lookup, from its `probe`th step on. */
  ghost function Probe(slots: Slots, pc: nat, probe: nat): Option<Site>
    decreases |slots| - probe
  {
    if probe >= |slots| then None
    else
      var slot := slots[SlotAt(PageOf(pc), probe, |slots|)];
      if slot.None? then None
      else if slot.value.Contains(pc) then ScanSites(slot.value.sites, pc)
      else Probe(slots, pc, probe + 1)
  }

  /** Every slot of `a` keeps its region in `b`. */
  ghost predicate Grows(a: Slots, b: Slots) {
    && |a| == |b|
    && forall i :: 0 <= i < |a| && a[i].Some? ==> b[i] == a[i]
  }

  lemma GrowsTransitive(a: Slots, b: Slots, c: Slots)
    requires Grows(a, b) && Grows(b, c)
    ensures Grows(a, c)
  {
  }

  lemma GrowthKeepsReached(a: Slots, b: Slots, page: nat, region: Region)
    requires Grows(a, b) && Reached(a, page, region)
    ensures Reached(b, page, region)
  {
    var probe :| ReachedAt(a, page, region, probe);
    assert ReachedAt(b, page, region, probe);
  }

  lemma GrowthKeepsIndexed(a: Slots, b: Slots, regions: set<Region>)
    requires Grows(a, b) && AllIndexed(a, regions)
    ensures AllIndexed(b, regions)
  {
    forall region, pc | region in regions && region.Contains(pc)
      ensures Reached(b, PageOf(pc), region)
    {
      assert Indexed(a, region);
      GrowthKeepsReached(a, b, PageOf(pc), region);
    }
  }

  lemma {:induction false} ProbeHits(slots: Slots, regions: set<Region>, region: Region, pc: nat, from: nat, hit: nat)
    requires SoundRegions(regions) && Holds(slots, regions)
    requires region in regions && region.Contains(pc)
    requires ReachedAt(slots, PageOf(pc), region, hit) && from <= hit
    ensures Probe(slots, pc, from) == ScanSites(region.sites, pc)
    decreases hit - from
  {
    var slot := slots[SlotAt(PageOf(pc), from, |slots|)];
    if !slot.value.Contains(pc) {
      ProbeHits(slots, regions, region, pc, from + 1, hit);
    }
  }

  lemma {:induction false} ProbeIsSound(slots: Slots, regions: set<Region>, pc: nat, from: nat)
    requires Holds(slots, regions)
    ensures Probe(slots, pc, from).Some? ==> Attributes(regions, pc, Probe(slots, pc, from).value)
    decreases |slots| - from
  {
    if from < |slots| {
      var slot := slots[SlotAt(PageOf(pc), from, |slots|)];
      if slot.Some? {
        ScanFinds(slot.value.sites, pc);
        ProbeIsSound(slots, regions, pc, from + 1);
      }
    }
  }

  /** `site` lies in one of the regions and contains `pc`. */
  ghost predicate Attributes(regions: set<Region>, pc: nat, site: Site) {
    site.Contains(pc) && exists region :: region in regions && site in region.sites
  }

  ghost predicate NothingAt(regions: set<Region>, pc: nat) {
    forall region, site :: region in regions && site in region.sites ==> !site.Contains(pc)
  }

  lemma RegionDecides(regions: set<Region>, region: Region, pc: nat)
    requires SoundRegions(regions) && region in regions && region.Contains(pc)
    requires ScanSites(region.sites, pc).None?
    ensures NothingAt(regions, pc)
  {
    ScanFinds(region.sites, pc);
    forall other, site | other in regions && site in other.sites
      ensures !site.Contains(pc)
    {
      assert ValidRegion(other);
      if other != region {
        assert Disjoint(other, region);
      }
    }
  }

  lemma OutsideIsNothing(regions: set<Region>, pc: nat)
    requires SoundRegions(regions)
    requires forall region :: region in regions ==> !region.Contains(pc)
    ensures NothingAt(regions, pc)
  {
    forall other, site | other in regions && site in other.sites
      ensures !site.Contains(pc)
    {
      assert ValidRegion(other);
    }
  }

  /**
   Lookup during publication: whatever mixture of moments between `before` and `after` the probe
   loads, a hit is a site of a published region containing `pc`, and a miss means no region
   published before the lookup began has a site at `pc`.
   */
  lemma LookupDuringPublication(before: Slots, loaded: Slots, after: Slots, earlier: set<Region>, later: set<Region>, pc: nat)
    requires Grows(before, loaded) && Grows(loaded, after)
    requires earlier <= later && SoundRegions(later)
    requires AllIndexed(before, earlier) && Holds(after, later)
    ensures match Probe(loaded, pc, 0)
            case Some(site) => Attributes(later, pc, site)
            case None => NothingAt(earlier, pc)
    ensures forall region :: region in earlier && region.Contains(pc) ==>
              Probe(loaded, pc, 0) == ScanSites(region.sites, pc)
  {
    assert Holds(loaded, later);
    ProbeIsSound(loaded, later, pc, 0);
    GrowthKeepsIndexed(before, loaded, earlier);
    forall region | region in earlier && region.Contains(pc)
      ensures Probe(loaded, pc, 0) == ScanSites(region.sites, pc)
      ensures Probe(loaded, pc, 0).None? ==> NothingAt(earlier, pc)
    {
      assert Indexed(loaded, region);
      var hit :| ReachedAt(loaded, PageOf(pc), region, hit);
      ProbeHits(loaded, later, region, pc, 0, hit);
      assert SoundRegions(earlier);
      if Probe(loaded, pc, 0).None? {
        RegionDecides(earlier, region, pc);
      }
    }
    if forall region :: region in earlier ==> !region.Contains(pc) {
      OutsideIsNothing(earlier, pc);
    }
  }

  /** With no publication under way the lookup is the linear scan of all published sites. */
  lemma LookupIsExact(slots: Slots, regions: set<Region>, pc: nat)
    requires SoundRegions(regions) && AllIndexed(slots, regions) && Holds(slots, regions)
    ensures match Probe(slots, pc, 0)
            case Some(site) => Attributes(regions, pc, site)
            case None => NothingAt(regions, pc)
  {
    LookupDuringPublication(slots, slots, slots, regions, regions, pc);
  }

  /** `b` is `a` with at most one slot stored to. */
  ghost predicate OneStore(a: Slots, b: Slots) {
    |a| == |b| && forall j, k :: 0 <= j < k < |a| ==> a[j] == b[j] || a[k] == b[k]
  }

  /** A record of every state the index went through, store by store, each keeping what the earlier ones held. */
  ghost predicate IsGrowth(moments: seq<Slots>, before: Slots, after: Slots) {
    && |moments| > 0
    && moments[0] == before
    && moments[|moments| - 1] == after
    && (forall i, j :: 0 <= i <= j < |moments| ==> Grows(moments[i], moments[j]))
    && (forall i :: 0 < i < |moments| ==> OneStore(moments[i - 1], moments[i]))
  }

  lemma GrowthExtends(moments: seq<Slots>, before: Slots, after: Slots, next: Slots)
    requires IsGrowth(moments, before, after) && Grows(after, next) && OneStore(after, next)
    ensures IsGrowth(moments + [next], before, next)
  {
    var longer := moments + [next];
    forall i, j | 0 <= i <= j < |longer|
      ensures Grows(longer[i], longer[j])
    {
      if i < |moments| == j {
        GrowsTransitive(moments[i], after, next);
      }
    }
  }

  lemma GrowthsCompose(first: seq<Slots>, second: seq<Slots>, before: Slots, between: Slots, after: Slots)
    requires IsGrowth(first, before, between) && IsGrowth(second, between, after)
    ensures IsGrowth(first + second, before, after)
  {
    var both := first + second;
    forall i, j | 0 <= i <= j < |both|
      ensures Grows(both[i], both[j])
    {
      if i < |first| <= j {
        assert Grows(first[i], between) && Grows(between, second[j - |first|]);
        GrowsTransitive(first[i], between, second[j - |first|]);
      }
    }
  }

  /** `loaded` takes each slot from one of the recorded moments; loads need not be in time order. */
  ghost predicate IsMixture(loaded: Slots, moments: seq<Slots>, picks: seq<nat>) {
    && |picks| == |loaded|
    && forall k :: 0 <= k < |picks| ==>
         picks[k] < |moments| && |moments[picks[k]]| == |loaded| && loaded[k] == moments[picks[k]][k]
  }

  lemma MixtureIsBetween(moments: seq<Slots>, before: Slots, after: Slots, loaded: Slots, picks: seq<nat>)
    requires IsGrowth(moments, before, after)
    requires IsMixture(loaded, moments, picks) && |loaded| == |before|
    ensures Grows(before, loaded) && Grows(loaded, after)
  {
    forall k | 0 <= k < |loaded|
      ensures before[k].Some? ==> loaded[k] == before[k]
      ensures loaded[k].Some? ==> |after| == |loaded| && after[k] == loaded[k]
    {
      assert Grows(moments[0], moments[picks[k]]);
      assert Grows(moments[picks[k]], moments[|moments| - 1]);
    }
    assert Grows(moments[0], moments[|moments| - 1]);
  }
}
