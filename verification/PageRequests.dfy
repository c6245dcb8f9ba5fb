/**
 Serving CPU requests for pages one after another while the device is quiet: what each delivered page
 holds, and exactly when that is the newest content any resource held for it.
 */
module PageRequests {
  import opened Primitives
  import opened CanonicalMemory
  import opened DeviceWrites
  import opened Writebacks
  import opened WritebackPipeline
  import opened PageReplay

  // ---- one request --------------------------------------------------------------------------

  ghost function MarkSegments(completed: map<nat, nat>, segments: seq<Segment>, point: nat): map<nat, nat> {
    if segments == [] then completed
    else Marked(MarkSegments(completed, segments[..|segments| - 1], point), segments[|segments| - 1].page, point)
  }

  /** Every page an image demand was stored to is complete up to the point. */
  ghost function MarkDemands(completed: map<nat, nat>, resources: Resources, ds: seq<Demand>, point: nat): map<nat, nat> {
    if ds == [] then completed
    else
      var before := MarkDemands(completed, resources, ds[..|ds| - 1], point);
      var backing := ImageBacking(resources, ds[|ds| - 1]);
      if backing.Some? then MarkSegments(before, backing.value.segments, point) else before
  }

  method MarkBackingCompleted(mirrors: PageMirrors, backing: Backing, point: nat)
    modifies mirrors`completed
    ensures mirrors.completed == MarkSegments(old(mirrors.completed), backing.segments, point)
  {
    for k := 0 to |backing.segments|
      invariant mirrors.completed == MarkSegments(old(mirrors.completed), backing.segments[..k], point)
    {
      assert backing.segments[..k + 1][..k] == backing.segments[..k];
      mirrors.MarkPageCompleted(backing.segments[k].page, point);
    }
    assert backing.segments[..|backing.segments|] == backing.segments;
  }

  method MarkImagesCompleted(mirrors: PageMirrors, resources: Resources, ds: seq<Demand>, point: nat)
    modifies mirrors`completed
    ensures mirrors.completed == MarkDemands(old(mirrors.completed), resources, ds, point)
  {
    for k := 0 to |ds|
      invariant mirrors.completed == MarkDemands(old(mirrors.completed), resources, ds[..k], point)
    {
      assert ds[..k + 1][..k] == ds[..k];
      var backing := ImageBacking(resources, ds[k]);
      if backing.Some? {
        MarkBackingCompleted(mirrors, backing.value, point);
      }
    }
    assert ds[..|ds|] == ds;
  }

  /** The mirror of the page is known to be complete up to the point. */
  predicate Complete(pages: Mirrors, completed: map<nat, nat>, page: nat, point: nat) {
    page in pages && page in completed && completed[page] >= point
  }

  /**
   Answers a request for a page. A mirror known to be complete is handed out as it is; otherwise the
   page is materialized first. `settled` are the mirrors when the page is handed out.
   */
  method MakeCpuVisible(mirrors: PageMirrors, resources: Resources, device: Device, page: nat, point: nat, arrived: Option<nat>)
    returns (bytes: Option<seq<u8>>, resources': Resources, ghost settled: Mirrors, ghost ds: seq<Demand>)
    requires AllSound(resources) && ImagesInside(resources, device)
    modifies mirrors
    ensures Complete(old(mirrors.pages), old(mirrors.completed), page, point) ==>
              bytes.Some? && settled == old(mirrors.pages) && resources' == resources
              && mirrors.completed == old(mirrors.completed) - {page}
    ensures !Complete(old(mirrors.pages), old(mirrors.completed), page, point) ==>
              && CollectedAll(ds, resources, page) && NonEmptyRanges(ds)
              && (bytes.Some? <==> && AllEncodable(resources, device, ds) && AllFit(resources, old(mirrors.pages), page, ds)
                                   && AllArrive(ds, arrived) && page in old(mirrors.pages))
    ensures !Complete(old(mirrors.pages), old(mirrors.completed), page, point) && bytes.Some? ==>
              && AllSettled(resources, device, page, old(mirrors.pages), settled) && AllMaterialized(resources, resources', page)
              && mirrors.completed == Marked(MarkDemands(old(mirrors.completed), resources, ds, point), page, point) - {page}
    ensures bytes.Some? ==> page in settled && bytes == Some(settled[page]) && mirrors.pages == settled - {page}
    ensures bytes.None? ==> resources' == resources || (AllMaterialized(resources, resources', page) && page !in old(mirrors.pages))
  {
    ds, settled, resources' := [], mirrors.pages, resources;
    if Complete(mirrors.pages, mirrors.completed, page, point) {
      bytes := mirrors.Take(page);
      return;
    }
    var ok, demands;
    ok, demands, resources' := MaterializePage(resources, device, page, mirrors, arrived);
    ds, settled := demands, mirrors.pages;
    if !ok || page !in mirrors.pages {
      return None, resources', settled, ds;
    }
    MarkImagesCompleted(mirrors, resources, demands, point);
    mirrors.MarkPageCompleted(page, point);
    bytes := mirrors.Take(page);
  }

  // ---- what is left after some pages --------------------------------------------------------

  ghost predicate OnAny(r: Resource, b: nat, done: seq<nat>) {
    exists page :: page in done && LiesOn(r, b, page)
  }

  ghost predicate ImageOnAny(r: Resource, s: nat, binding: nat, done: seq<nat>) {
    exists page :: page in done && ImageOnPage(r, s, binding, page)
  }

  /** Resource `r` is `r0` without what lies on the pages in `done`. */
  ghost predicate LeftAfter(r0: Resource, r: Resource, done: seq<nat>) {
    && SoundResource(r)
    && SameShape(r0, r)
    && (forall b :: LastSerial(r.writes, b) == if OnAny(r0, b, done) then None else LastSerial(r0.writes, b))
    && (forall s, binding :: DeviceWrite(ImageBinding(binding), s) in r.writes <==>
          DeviceWrite(ImageBinding(binding), s) in r0.writes && !ImageOnAny(r0, s, binding, done))
  }

  ghost predicate AllLeftAfter(resources0: Resources, resources: Resources, done: seq<nat>) {
    resources.Keys == resources0.Keys && forall h :: h in resources0 ==> LeftAfter(resources0[h], resources[h], done)
  }

  lemma LeftAfterOneMore(r0: Resource, r: Resource, r': Resource, done: seq<nat>, page: nat)
    requires LeftAfter(r0, r, done) && Materialized(r, r', page)
    ensures LeftAfter(r0, r', done + [page])
  {
    assert forall x :: x in done + [page] <==> x in done || x == page;
    forall b
      ensures OnAny(r0, b, done + [page]) <==> OnAny(r0, b, done) || LiesOn(r, b, page)
    {
      assert LiesOn(r, b, page) <==> LiesOn(r0, b, page);
      assert page in done + [page];
    }
    forall s, binding
      ensures DeviceWrite(ImageBinding(binding), s) in r'.writes <==>
              DeviceWrite(ImageBinding(binding), s) in r0.writes && !ImageOnAny(r0, s, binding, done + [page])
    {
      ImageLeft(r0, r, done, page, s, binding);
    }
  }

  lemma ImageLeft(r0: Resource, r: Resource, done: seq<nat>, page: nat, s: nat, binding: nat)
    requires LeftAfter(r0, r, done)
    ensures ImageOnAny(r0, s, binding, done + [page]) <==> ImageOnAny(r0, s, binding, done) || ImageOnPage(r0, s, binding, page)
    ensures ImageOnPage(r, s, binding, page) <==> ImageOnPage(r0, s, binding, page) && !ImageOnAny(r0, s, binding, done)
  {
    assert forall x :: x in done + [page] <==> x in done || x == page;
    if ImageOnPage(r0, s, binding, page) {
      assert page in done + [page];
    }
  }

  lemma LeftAfterNothing(r: Resource)
    requires SoundResource(r)
    ensures LeftAfter(r, r, [])
  {
  }

  lemma AllLeftAfterOneMore(resources0: Resources, resources: Resources, resources': Resources, done: seq<nat>, page: nat)
    requires AllLeftAfter(resources0, resources, done) && AllMaterialized(resources, resources', page)
    ensures AllLeftAfter(resources0, resources', done + [page])
  {
    forall h | h in resources0
      ensures LeftAfter(resources0[h], resources'[h], done + [page])
    {
      LeftAfterOneMore(resources0[h], resources[h], resources'[h], done, page);
    }
  }

  lemma InsideLeftAfter(resources0: Resources, resources: Resources, done: seq<nat>, device: Device)
    requires AllLeftAfter(resources0, resources, done) && ImagesInside(resources0, device)
    ensures ImagesInside(resources, device)
  {
    forall d: Demand | d.ImageDemand?
      ensures ImageBacking(resources, d) == ImageBacking(resources0, d)
    {
    }
  }

  /** Resource `h` at serial `s` holds `v` for the byte and is first demanded by `page`, after the pages in `done`. */
  ghost predicate FirstBrings(resources0: Resources, device: Device, done: seq<nat>, page: nat, q: nat, p: nat, h: nat, s: nat, v: u8) {
    && h in resources0
    && (|| (q == page && page !in done && exists b :: DirtyOnPage(resources0[h], s, b, page, p) && DeviceByte(device, h, b) == Some(v))
        || (exists binding :: && ImageOnPage(resources0[h], s, binding, page) && !ImageOnAny(resources0[h], s, binding, done)
                              && device.image(ImageDemand(h, s, binding), q, p) == Some(v)))
  }

  lemma DirtyLeft(r0: Resource, r: Resource, done: seq<nat>, s: nat, b: nat, page: nat, p: nat)
    requires LeftAfter(r0, r, done)
    ensures DirtyOnPage(r, s, b, page, p) <==> DirtyOnPage(r0, s, b, page, p) && page !in done
  {
    if r0.BufferResource? && OnPage(r0.backing.segments, b, page, p) {
      assert OnAny(r0, b, done) <==> page in done by {
        assert forall x :: LiesOn(r0, b, x) <==> x == page;
      }
    }
  }

  lemma BringsLeft(resources0: Resources, resources: Resources, device: Device, done: seq<nat>, page: nat, q: nat, p: nat, h: nat, s: nat, v: u8)
    requires AllLeftAfter(resources0, resources, done)
    ensures Brings(resources, device, page, q, p, h, s, v) <==> FirstBrings(resources0, device, done, page, q, p, h, s, v)
  {
    if h in resources0 {
      forall b
        ensures DirtyOnPage(resources[h], s, b, page, p) <==> DirtyOnPage(resources0[h], s, b, page, p) && page !in done
      {
        DirtyLeft(resources0[h], resources[h], done, s, b, page, p);
      }
      forall binding
        ensures ImageOnPage(resources[h], s, binding, page) <==>
                ImageOnPage(resources0[h], s, binding, page) && !ImageOnAny(resources0[h], s, binding, done)
      {
        ImageLeft(resources0[h], resources[h], done, page, s, binding);
      }
    }
  }

  // ---- what the mirrors hold after some pages -----------------------------------------------

  /** The resource holds `v` for the byte and is first demanded by the page at place `i`. */
  ghost predicate Batch(resources0: Resources, device: Device, done: seq<nat>, i: nat, q: nat, p: nat, h: nat, s: nat, v: u8) {
    i < |done| && FirstBrings(resources0, device, done[..i], done[i], q, p, h, s, v)
  }

  ghost predicate NewestOfBatch(resources0: Resources, device: Device, done: seq<nat>, i: nat, q: nat, p: nat, h: nat, s: nat) {
    forall h', s', v' :: Batch(resources0, device, done, i, q, p, h', s', v') ==> NotNewer(h', s', h, s)
  }

  ghost predicate Quiet(resources0: Resources, device: Device, done: seq<nat>, i: nat, q: nat, p: nat) {
    forall h, s, v :: !Batch(resources0, device, done, i, q, p, h, s, v)
  }

  ghost predicate QuietFrom(resources0: Resources, device: Device, done: seq<nat>, from: nat, q: nat, p: nat) {
    forall i :: from <= i < |done| ==> Quiet(resources0, device, done, i, q, p)
  }

  ghost predicate LastWritten(resources0: Resources, device: Device, done: seq<nat>, i: nat, q: nat, p: nat, h: nat, s: nat, v: u8) {
    && Batch(resources0, device, done, i, q, p, h, s, v)
    && NewestOfBatch(resources0, device, done, i, q, p, h, s)
    && QuietFrom(resources0, device, done, i + 1, q, p)
  }

  /** The byte holds the newest content of the last batch that brought any, or what it held at first. */
  ghost predicate Described(resources0: Resources, device: Device, done: seq<nat>, q: nat, p: nat, before: u8, after: u8) {
    || (exists i, h, s :: LastWritten(resources0, device, done, i, q, p, h, s, after))
    || (after == before && QuietFrom(resources0, device, done, 0, q, p))
  }

  lemma QuietHoldsNone(resources0: Resources, device: Device, done: seq<nat>, i: nat, q: nat, p: nat, h: nat, s: nat, v: u8)
    requires QuietFrom(resources0, device, done, 0, q, p)
    ensures !Batch(resources0, device, done, i, q, p, h, s, v)
  {
    if i < |done| {
      assert Quiet(resources0, device, done, i, q, p);
    }
  }

  lemma BatchOnPrefix(resources0: Resources, device: Device, done: seq<nat>, page: nat, i: nat, q: nat, p: nat, h: nat, s: nat, v: u8)
    requires i < |done|
    ensures Batch(resources0, device, done + [page], i, q, p, h, s, v) <==> Batch(resources0, device, done, i, q, p, h, s, v)
  {
    assert (done + [page])[..i] == done[..i];
  }

  lemma LastBatch(resources0: Resources, device: Device, done: seq<nat>, page: nat, q: nat, p: nat, h: nat, s: nat, v: u8)
    ensures Batch(resources0, device, done + [page], |done|, q, p, h, s, v) <==> FirstBrings(resources0, device, done, page, q, p, h, s, v)
  {
    assert (done + [page])[..|done|] == done;
  }

  lemma QuietOneMore(resources0: Resources, device: Device, done: seq<nat>, page: nat, from: nat, q: nat, p: nat)
    requires from <= |done| && QuietFrom(resources0, device, done, from, q, p)
    requires forall h, s, v :: !FirstBrings(resources0, device, done, page, q, p, h, s, v)
    ensures QuietFrom(resources0, device, done + [page], from, q, p)
  {
    forall i, h, s, v | from <= i < |done| + 1
      ensures !Batch(resources0, device, done + [page], i, q, p, h, s, v)
    {
      if i < |done| {
        BatchOnPrefix(resources0, device, done, page, i, q, p, h, s, v);
        assert Quiet(resources0, device, done, i, q, p);
      } else {
        LastBatch(resources0, device, done, page, q, p, h, s, v);
      }
    }
  }

  lemma LastWrittenStays(resources0: Resources, device: Device, done: seq<nat>, page: nat, i: nat, q: nat, p: nat, h: nat, s: nat, v: u8)
    requires LastWritten(resources0, device, done, i, q, p, h, s, v)
    requires forall h, s, v :: !FirstBrings(resources0, device, done, page, q, p, h, s, v)
    ensures LastWritten(resources0, device, done + [page], i, q, p, h, s, v)
  {
    QuietOneMore(resources0, device, done, page, i + 1, q, p);
    BatchOnPrefix(resources0, device, done, page, i, q, p, h, s, v);
    forall h', s', v' | Batch(resources0, device, done + [page], i, q, p, h', s', v')
      ensures NotNewer(h', s', h, s)
    {
      BatchOnPrefix(resources0, device, done, page, i, q, p, h', s', v');
    }
  }

  lemma NewlyWritten(resources0: Resources, device: Device, done: seq<nat>, page: nat, q: nat, p: nat, h: nat, s: nat, v: u8)
    requires FirstBrings(resources0, device, done, page, q, p, h, s, v)
    requires forall h', s', v' :: FirstBrings(resources0, device, done, page, q, p, h', s', v') ==> NotNewer(h', s', h, s)
    ensures LastWritten(resources0, device, done + [page], |done|, q, p, h, s, v)
  {
    LastBatch(resources0, device, done, page, q, p, h, s, v);
    forall h', s', v' | Batch(resources0, device, done + [page], |done|, q, p, h', s', v')
      ensures NotNewer(h', s', h, s)
    {
      LastBatch(resources0, device, done, page, q, p, h', s', v');
    }
  }

  /** One more page settled. */
  lemma DescribedOneMore(resources0: Resources, resources: Resources, device: Device, done: seq<nat>, page: nat, q: nat, p: nat,
                         before: u8, middle: u8, after: u8)
    requires AllLeftAfter(resources0, resources, done)
    requires Described(resources0, device, done, q, p, before, middle) && Settled(resources, device, page, q, p, middle, after)
    ensures Described(resources0, device, done + [page], q, p, before, after)
  {
    forall h, s, v
      ensures Brings(resources, device, page, q, p, h, s, v) <==> FirstBrings(resources0, device, done, page, q, p, h, s, v)
    {
      BringsLeft(resources0, resources, device, done, page, q, p, h, s, v);
    }
    if h, s :| Brings(resources, device, page, q, p, h, s, after) && NewestBrought(resources, device, page, q, p, h, s) {
      NewlyWritten(resources0, device, done, page, q, p, h, s, after);
    } else if i, h, s :| LastWritten(resources0, device, done, i, q, p, h, s, middle) {
      LastWrittenStays(resources0, device, done, page, i, q, p, h, s, middle);
    } else {
      QuietOneMore(resources0, device, done, page, 0, q, p);
    }
  }

  datatype Request = Request(page: nat, point: nat, arrived: Option<nat>)

  ghost predicate DescribedPage(resources0: Resources, device: Device, done: seq<nat>, q: nat, bytes0: seq<u8>, bytes: seq<u8>) {
    |bytes| == |bytes0| && forall p :: 0 <= p < |bytes| ==> Described(resources0, device, done, q, p, bytes0[p], bytes[p])
  }

  /** Where a run stands once the pages in `done` have been materialized. */
  ghost predicate RunAt(resources0: Resources, pages0: Mirrors, device: Device, done: seq<nat>, resources: Resources, pages: Mirrors) {
    && AllLeftAfter(resources0, resources, done)
    && pages.Keys <= pages0.Keys
    && forall q :: q in pages ==> DescribedPage(resources0, device, done, q, pages0[q], pages[q])
  }

  lemma RunMaterializes(resources0: Resources, pages0: Mirrors, device: Device, done: seq<nat>, resources: Resources, pages: Mirrors,
                        page: nat, resources': Resources, settled: Mirrors)
    requires RunAt(resources0, pages0, device, done, resources, pages)
    requires AllSettled(resources, device, page, pages, settled) && AllMaterialized(resources, resources', page)
    ensures RunAt(resources0, pages0, device, done + [page], resources', settled)
  {
    AllLeftAfterOneMore(resources0, resources, resources', done, page);
    forall q | q in settled
      ensures DescribedPage(resources0, device, done + [page], q, pages0[q], settled[q])
    {
      assert DescribedPage(resources0, device, done, q, pages0[q], pages[q]);
      forall p | 0 <= p < |settled[q]|
        ensures Described(resources0, device, done + [page], q, p, pages0[q][p], settled[q][p])
      {
        DescribedOneMore(resources0, resources, device, done, page, q, p, pages0[q][p], pages[q][p], settled[q][p]);
      }
    }
  }

  lemma RunStarts(resources0: Resources, pages0: Mirrors, device: Device)
    requires AllSound(resources0)
    ensures RunAt(resources0, pages0, device, [], resources0, pages0)
  {
    forall h | h in resources0
      ensures LeftAfter(resources0[h], resources0[h], [])
    {
      LeftAfterNothing(resources0[h]);
    }
  }

  // ---- when the newest content is delivered -------------------------------------------------

  /** Resource `h`, last written at serial `s`, holds `v` for byte `p` of page `q`. */
  ghost predicate Holds(resources: Resources, device: Device, q: nat, p: nat, h: nat, s: nat, v: u8) {
    Brings(resources, device, q, q, p, h, s, v)
  }

  ghost predicate NewestHolder(resources: Resources, device: Device, q: nat, p: nat, h: nat, s: nat) {
    forall h', s', v' :: Holds(resources, device, q, p, h', s', v') ==> NotNewer(h', s', h, s)
  }

  lemma BatchIsHolder(resources0: Resources, device: Device, done: seq<nat>, i: nat, q: nat, p: nat, h: nat, s: nat, v: u8)
    requires ImagesInside(resources0, device) && Batch(resources0, device, done, i, q, p, h, s, v)
    ensures Holds(resources0, device, q, p, h, s, v)
  {
    if binding :| && ImageOnPage(resources0[h], s, binding, done[i]) && !ImageOnAny(resources0[h], s, binding, done[..i])
                  && device.image(ImageDemand(h, s, binding), q, p) == Some(v) {
      assert Touches(ImageBacking(resources0, ImageDemand(h, s, binding)).value, q);
      assert ImageOnPage(resources0[h], s, binding, q);
    }
  }

  ghost predicate TimelyAt(resources0: Resources, device: Device, done: seq<nat>, i: nat, q: nat, p: nat, h: nat, s: nat, v: u8) {
    && Batch(resources0, device, done, i, q, p, h, s, v)
    && NewestHolder(resources0, device, q, p, h, s)
    && QuietFrom(resources0, device, done, i + 1, q, p)
  }

  /** A newest holder is in the last batch that brought anything for the byte. */
  ghost predicate Timely(resources0: Resources, device: Device, done: seq<nat>, q: nat, p: nat) {
    exists i, h, s, v :: TimelyAt(resources0, device, done, i, q, p, h, s, v)
  }

  ghost predicate FromNewest(resources0: Resources, device: Device, q: nat, p: nat, v: u8) {
    exists h, s :: Holds(resources0, device, q, p, h, s, v) && NewestHolder(resources0, device, q, p, h, s)
  }

  ghost predicate FromOlder(resources0: Resources, device: Device, q: nat, p: nat, v: u8) {
    exists h, s :: Holds(resources0, device, q, p, h, s, v) && !NewestHolder(resources0, device, q, p, h, s)
  }

  /** The byte delivered is a newest holder's exactly when it is timely; otherwise it is an older one's or the first. */
  lemma NewestExactlyWhenTimely(resources0: Resources, device: Device, done: seq<nat>, q: nat, p: nat, before: u8, after: u8)
    requires ImagesInside(resources0, device) && Described(resources0, device, done, q, p, before, after)
    ensures Timely(resources0, device, done, q, p) ==> FromNewest(resources0, device, q, p, after)
    ensures !Timely(resources0, device, done, q, p) ==>
              || FromOlder(resources0, device, q, p, after)
              || (after == before && QuietFrom(resources0, device, done, 0, q, p))
  {
    if i, h, s :| LastWritten(resources0, device, done, i, q, p, h, s, after) {
      BatchIsHolder(resources0, device, done, i, q, p, h, s, after);
      if Timely(resources0, device, done, q, p) {
        TimelyIsLastWritten(resources0, device, done, i, q, p, h, s, after);
      } else {
        assert !TimelyAt(resources0, device, done, i, q, p, h, s, after);
      }
    } else {
      forall i: nat, h, s, v
        ensures !TimelyAt(resources0, device, done, i, q, p, h, s, v)
      {
        QuietHoldsNone(resources0, device, done, i, q, p, h, s, v);
      }
    }
  }

  lemma TimelyIsLastWritten(resources0: Resources, device: Device, done: seq<nat>, i: nat, q: nat, p: nat, h: nat, s: nat, v: u8)
    requires ImagesInside(resources0, device) && Timely(resources0, device, done, q, p)
    requires LastWritten(resources0, device, done, i, q, p, h, s, v)
    ensures NewestHolder(resources0, device, q, p, h, s)
  {
    var j: nat, h', s', v' :| TimelyAt(resources0, device, done, j, q, p, h', s', v');
    BatchIsHolder(resources0, device, done, i, q, p, h, s, v);
    assert i > j ==> Quiet(resources0, device, done, i, q, p);
    assert j > i ==> Quiet(resources0, device, done, j, q, p);
    assert i == j;
  }

  // ---- pages that share no image ------------------------------------------------------------

  /** An image of the resource that holds the byte lies on another page too. */
  ghost predicate Spans(resources0: Resources, device: Device, q: nat, p: nat, h: nat, s: nat) {
    && h in resources0
    && exists binding, page: nat :: && page != q && ImageOnPage(resources0[h], s, binding, page)
                                    && device.image(ImageDemand(h, s, binding), q, p).Some?
  }

  /** A holder of the byte that spans pages is its only holder. */
  ghost predicate Unshared(resources0: Resources, device: Device, q: nat, p: nat) {
    forall h, s, h', s', v, v' ::
      Holds(resources0, device, q, p, h, s, v) && Spans(resources0, device, q, p, h, s) && Holds(resources0, device, q, p, h', s', v') ==>
        h' == h && s' == s
  }

  lemma FirstPlace(done: seq<nat>, q: nat) returns (i: nat)
    requires q in done
    ensures i < |done| && done[i] == q && q !in done[..i]
  {
    i := 0;
    while done[i] != q
      invariant i < |done| && q in done[i..] && q !in done[..i]
      decreases |done| - i
    {
      i := i + 1;
    }
  }

  /** The first page of `done` an image lies on. */
  lemma FirstTouched(r: Resource, s: nat, binding: nat, done: seq<nat>) returns (i: nat)
    requires ImageOnAny(r, s, binding, done)
    ensures i < |done| && ImageOnPage(r, s, binding, done[i]) && !ImageOnAny(r, s, binding, done[..i])
  {
    i := 0;
    while !ImageOnPage(r, s, binding, done[i])
      invariant i < |done| && !ImageOnAny(r, s, binding, done[..i])
      invariant exists k :: i <= k < |done| && ImageOnPage(r, s, binding, done[k])
      decreases |done| - i
    {
      assert done[..i + 1] == done[..i] + [done[i]];
      i := i + 1;
    }
  }

  /** What holds a byte of a materialized page has been brought. */
  lemma HolderIsBrought(resources0: Resources, device: Device, done: seq<nat>, q: nat, p: nat, h: nat, s: nat, v: u8) returns (i: nat)
    requires q in done && Holds(resources0, device, q, p, h, s, v)
    ensures Batch(resources0, device, done, i, q, p, h, s, v)
  {
    if b :| DirtyOnPage(resources0[h], s, b, q, p) && DeviceByte(device, h, b) == Some(v) {
      i := FirstPlace(done, q);
    } else {
      var binding :| ImageOnPage(resources0[h], s, binding, q) && device.image(ImageDemand(h, s, binding), q, p) == Some(v);
      assert ImageOnAny(resources0[h], s, binding, done);
      i := FirstTouched(resources0[h], s, binding, done);
    }
  }

  /** A holder that does not span pages is brought by its own page. */
  lemma BroughtByOwnPage(resources0: Resources, device: Device, done: seq<nat>, i: nat, q: nat, p: nat, h: nat, s: nat, v: u8)
    requires ImagesInside(resources0, device)
    requires Batch(resources0, device, done, i, q, p, h, s, v) && !Spans(resources0, device, q, p, h, s)
    ensures done[i] == q && q !in done[..i]
  {
    if binding :| && ImageOnPage(resources0[h], s, binding, done[i]) && !ImageOnAny(resources0[h], s, binding, done[..i])
                  && device.image(ImageDemand(h, s, binding), q, p) == Some(v) {
      assert Touches(ImageBacking(resources0, ImageDemand(h, s, binding)).value, q);
      assert ImageOnPage(resources0[h], s, binding, q);
    }
  }

  lemma SameBatch(done: seq<nat>, q: nat, i: nat, j: nat)
    requires i < |done| && j < |done| && done[i] == q && done[j] == q && q !in done[..i] && q !in done[..j]
    ensures i == j
  {
    forall a, b | 0 <= a < b < |done| && done[a] == q
      ensures q in done[..b]
    {
      assert done[..b][a] == q;
    }
  }

  /**
   A materialized page is delivered with the newest content of each byte for which an image that
   spans pages, if one holds the byte, is the only holder.
   */
  lemma UnsharedIsNewest(resources0: Resources, device: Device, done: seq<nat>, q: nat, p: nat, before: u8, after: u8)
    requires ImagesInside(resources0, device) && q in done && Unshared(resources0, device, q, p)
    requires Described(resources0, device, done, q, p, before, after)
    ensures FromNewest(resources0, device, q, p, after)
            || (after == before && forall h, s, v :: !Holds(resources0, device, q, p, h, s, v))
  {
    if i, h, s :| LastWritten(resources0, device, done, i, q, p, h, s, after) {
      BatchIsHolder(resources0, device, done, i, q, p, h, s, after);
      forall h', s', v' | Holds(resources0, device, q, p, h', s', v')
        ensures NotNewer(h', s', h, s)
      {
        UnsharedNotNewer(resources0, device, done, i, q, p, h, s, after, h', s', v');
      }
    } else {
      forall h, s, v
        ensures !Holds(resources0, device, q, p, h, s, v)
      {
        if Holds(resources0, device, q, p, h, s, v) {
          var i := HolderIsBrought(resources0, device, done, q, p, h, s, v);
          QuietHoldsNone(resources0, device, done, i, q, p, h, s, v);
        }
      }
    }
  }

  lemma UnsharedNotNewer(resources0: Resources, device: Device, done: seq<nat>, i: nat, q: nat, p: nat, h: nat, s: nat, v: u8,
                         h': nat, s': nat, v': u8)
    requires ImagesInside(resources0, device) && q in done && Unshared(resources0, device, q, p)
    requires LastWritten(resources0, device, done, i, q, p, h, s, v) && Holds(resources0, device, q, p, h', s', v')
    ensures NotNewer(h', s', h, s)
  {
    BatchIsHolder(resources0, device, done, i, q, p, h, s, v);
    if !Spans(resources0, device, q, p, h, s) && !Spans(resources0, device, q, p, h', s') {
      var j := HolderIsBrought(resources0, device, done, q, p, h', s', v');
      BroughtByOwnPage(resources0, device, done, i, q, p, h, s, v);
      BroughtByOwnPage(resources0, device, done, j, q, p, h', s', v');
      SameBatch(done, q, i, j);
    }
  }

  // ---- images on one page only --------------------------------------------------------------

  /** No dirty image lies on two pages. */
  ghost predicate NoneSpans(resources: Resources) {
    forall h, s, binding, page, page' :: h in resources && ImageOnPage(resources[h], s, binding, page) && ImageOnPage(resources[h], s, binding, page') ==>
      page == page'
  }

  lemma NoneSpansLeft(resources0: Resources, resources: Resources, done: seq<nat>)
    requires AllLeftAfter(resources0, resources, done) && NoneSpans(resources0)
    ensures NoneSpans(resources)
  {
    forall h, s, binding, page, page' | h in resources && ImageOnPage(resources[h], s, binding, page) && ImageOnPage(resources[h], s, binding, page')
      ensures page == page'
    {
      ImageLeft(resources0[h], resources[h], done, page, s, binding);
      ImageLeft(resources0[h], resources[h], done, page', s, binding);
    }
  }

  lemma {:induction false} MarksSegments(completed: map<nat, nat>, segments: seq<Segment>, point: nat, page: nat)
    requires completed.Keys <= {page} && forall k :: 0 <= k < |segments| ==> segments[k].page == page
    ensures MarkSegments(completed, segments, point).Keys <= {page}
  {
    if segments != [] {
      MarksSegments(completed, segments[..|segments| - 1], point, page);
    }
  }

  /** Without images on two pages, no page but the demanded one is marked. */
  lemma {:induction false} MarksOnly(completed: map<nat, nat>, resources: Resources, ds: seq<Demand>, point: nat, page: nat)
    requires completed.Keys <= {page} && NoneSpans(resources)
    requires forall d :: d in ds && d.ImageDemand? ==> d.handle in resources && ImageOnPage(resources[d.handle], d.serial, d.binding, page)
    ensures MarkDemands(completed, resources, ds, point).Keys <= {page}
  {
    if ds != [] {
      var last := ds[|ds| - 1];
      MarksOnly(completed, resources, ds[..|ds| - 1], point, page);
      var backing := ImageBacking(resources, last);
      if backing.Some? {
        var segments := backing.value.segments;
        forall k | 0 <= k < |segments|
          ensures segments[k].page == page
        {
          assert Touches(backing.value, segments[k].page);
          assert ImageOnPage(resources[last.handle], last.serial, last.binding, segments[k].page);
        }
        MarksSegments(MarkDemands(completed, resources, ds[..|ds| - 1], point), segments, point, page);
      }
    }
  }

  lemma NothingMarked(resources: Resources, ds: seq<Demand>, point: nat, page: nat)
    requires NoneSpans(resources) && CollectedAll(ds, resources, page)
    ensures Marked(MarkDemands(map[], resources, ds, point), page, point) - {page} == map[]
  {
    forall d | d in ds && d.ImageDemand?
      ensures d.handle in resources && ImageOnPage(resources[d.handle], d.serial, d.binding, page)
    {
      assert ImageDemand(d.handle, d.serial, d.binding) in ds;
    }
    MarksOnly(map[], resources, ds, point, page);
  }

  lemma NoneSpansUnshared(resources0: Resources, device: Device, q: nat, p: nat)
    requires NoneSpans(resources0) && ImagesInside(resources0, device)
    ensures Unshared(resources0, device, q, p)
  {
    forall h, s
      ensures !Spans(resources0, device, q, p, h, s)
    {
      if Spans(resources0, device, q, p, h, s) {
        var binding, page: nat :| && page != q && ImageOnPage(resources0[h], s, binding, page)
                                  && device.image(ImageDemand(h, s, binding), q, p).Some?;
        assert Touches(ImageBacking(resources0, ImageDemand(h, s, binding)).value, q);
        assert ImageOnPage(resources0[h], s, binding, q);
      }
    }
  }

  /** Every byte of the page is a newest holder's, or is kept because nothing holds it. */
  ghost predicate PageIsNewest(resources0: Resources, device: Device, q: nat, bytes0: seq<u8>, bytes: seq<u8>) {
    && |bytes| == |bytes0|
    && forall p :: 0 <= p < |bytes| ==> FromNewest(resources0, device, q, p, bytes[p]) || KeptByte(resources0, device, q, p, bytes0[p], bytes[p])
  }

  ghost predicate KeptByte(resources0: Resources, device: Device, q: nat, p: nat, before: u8, after: u8) {
    after == before && forall h, s, v :: !Holds(resources0, device, q, p, h, s, v)
  }

  lemma MaterializedIsNewest(resources0: Resources, device: Device, done: seq<nat>, q: nat, bytes0: seq<u8>, bytes: seq<u8>)
    requires NoneSpans(resources0) && ImagesInside(resources0, device) && q in done
    requires DescribedPage(resources0, device, done, q, bytes0, bytes)
    ensures PageIsNewest(resources0, device, q, bytes0, bytes)
  {
    forall p | 0 <= p < |bytes|
      ensures FromNewest(resources0, device, q, p, bytes[p]) || KeptByte(resources0, device, q, p, bytes0[p], bytes[p])
    {
      NoneSpansUnshared(resources0, device, q, p);
      UnsharedIsNewest(resources0, device, done, q, p, bytes0[p], bytes[p]);
    }
  }

  // ---- runs of requests ---------------------------------------------------------------------

  /** Serves one request of a run; `done'` are the pages materialized by then. */
  method ServeOne(mirrors: PageMirrors, ghost resources0: Resources, ghost pages0: Mirrors, device: Device, ghost done: seq<nat>,
                  resources: Resources, request: Request)
    returns (bytes: Option<seq<u8>>, resources': Resources, ghost done': seq<nat>)
    requires RunAt(resources0, pages0, device, done, resources, mirrors.pages) && ImagesInside(resources0, device)
    modifies mirrors
    ensures bytes.Some? && NoneSpans(resources0) && old(mirrors.completed) == map[] ==> mirrors.completed == map[]
    ensures bytes.Some? ==>
              && RunAt(resources0, pages0, device, done', resources', mirrors.pages)
              && done' == (if Complete(old(mirrors.pages), old(mirrors.completed), request.page, request.point) then done else done + [request.page])
              && request.page in pages0
              && DescribedPage(resources0, device, done', request.page, pages0[request.page], bytes.value)
  {
    InsideLeftAfter(resources0, resources, done, device);
    ghost var pages, complete := mirrors.pages, Complete(mirrors.pages, mirrors.completed, request.page, request.point);
    ghost var settled, ds;
    bytes, resources', settled, ds := MakeCpuVisible(mirrors, resources, device, request.page, request.point, request.arrived);
    done' := if complete then done else done + [request.page];
    if bytes.Some? {
      if !complete {
        RunMaterializes(resources0, pages0, device, done, resources, pages, request.page, resources', settled);
        if NoneSpans(resources0) {
          NoneSpansLeft(resources0, resources, done);
          NothingMarked(resources, ds, request.point, request.page);
        }
      }
    }
  }

  /** The pages materialized before request `k`. */
  ghost function DoneBefore(dones: seq<seq<nat>>, k: nat): seq<nat>
    requires k <= |dones|
  {
    if k == 0 then [] else dones[k - 1]
  }

  /**
   Request `k` was answered, from its mirror or after materializing it, and what it delivered is what
   the pages materialized by then left in the mirror.
   */
  ghost predicate ServedAt(resources0: Resources, pages0: Mirrors, device: Device, requests: seq<Request>,
                           delivered: seq<seq<u8>>, dones: seq<seq<nat>>, k: nat)
    requires k < |delivered| == |dones| <= |requests|
  {
    var page := requests[k].page;
    && page in pages0
    && DescribedPage(resources0, device, dones[k], page, pages0[page], delivered[k])
    && (dones[k] == DoneBefore(dones, k) || dones[k] == DoneBefore(dones, k) + [page])
  }

  ghost predicate Served(resources0: Resources, pages0: Mirrors, device: Device, requests: seq<Request>,
                         delivered: seq<seq<u8>>, dones: seq<seq<nat>>) {
    && |delivered| == |dones| <= |requests|
    && forall k :: 0 <= k < |dones| ==> ServedAt(resources0, pages0, device, requests, delivered, dones, k)
  }

  /** Each page delivered so far has the newest content. */
  ghost predicate AllNewest(resources0: Resources, pages0: Mirrors, device: Device, requests: seq<Request>, delivered: seq<seq<u8>>) {
    && |delivered| <= |requests|
    && forall k :: 0 <= k < |delivered| ==>
         requests[k].page in pages0 && PageIsNewest(resources0, device, requests[k].page, pages0[requests[k].page], delivered[k])
  }

  lemma ServedOneMore(resources0: Resources, pages0: Mirrors, device: Device, requests: seq<Request>,
                      delivered: seq<seq<u8>>, dones: seq<seq<nat>>, bytes: seq<u8>, done: seq<nat>)
    requires Served(resources0, pages0, device, requests, delivered, dones) && |dones| < |requests|
    requires requests[|dones|].page in pages0
    requires DescribedPage(resources0, device, done, requests[|dones|].page, pages0[requests[|dones|].page], bytes)
    requires done == DoneBefore(dones, |dones|) || done == DoneBefore(dones, |dones|) + [requests[|dones|].page]
    ensures Served(resources0, pages0, device, requests, delivered + [bytes], dones + [done])
  {
    var delivered', dones' := delivered + [bytes], dones + [done];
    forall k | 0 <= k < |dones'|
      ensures ServedAt(resources0, pages0, device, requests, delivered', dones', k)
    {
      assert DoneBefore(dones', k) == DoneBefore(dones, k);
      if k < |dones| {
        assert ServedAt(resources0, pages0, device, requests, delivered, dones, k);
      }
    }
  }

  /**
   Serves requests until one fails. Each page delivered holds, byte by byte, the newest content of the
   last batch that the pages materialized by then brought for it. When no dirty image lies on two
   pages, that is the newest content of all.
   */
  method ServeAll(mirrors: PageMirrors, resources0: Resources, device: Device, requests: seq<Request>)
    returns (delivered: seq<seq<u8>>, resources: Resources, ghost dones: seq<seq<nat>>)
    requires AllSound(resources0) && ImagesInside(resources0, device)
    modifies mirrors
    ensures Served(resources0, old(mirrors.pages), device, requests, delivered, dones)
    ensures RunAt(resources0, old(mirrors.pages), device, DoneBefore(dones, |dones|), resources, mirrors.pages) || |dones| < |requests|
    ensures NoneSpans(resources0) && old(mirrors.completed) == map[] ==>
              AllNewest(resources0, old(mirrors.pages), device, requests, delivered)
  {
    delivered, resources, dones := [], resources0, [];
    ghost var pages0 := mirrors.pages;
    ghost var separate := NoneSpans(resources0) && mirrors.completed == map[];
    RunStarts(resources0, pages0, device);
    for k := 0 to |requests|
      invariant |dones| == k && Served(resources0, pages0, device, requests, delivered, dones)
      invariant RunAt(resources0, pages0, device, DoneBefore(dones, k), resources, mirrors.pages)
      invariant separate ==> mirrors.completed == map[] && AllNewest(resources0, pages0, device, requests, delivered)
    {
      var bytes, next;
      ghost var done;
      bytes, next, done := ServeOne(mirrors, resources0, pages0, device, DoneBefore(dones, k), resources, requests[k]);
      if bytes.None? {
        return;
      }
      ServedOneMore(resources0, pages0, device, requests, delivered, dones, bytes.value, done);
      if separate {
        NewestOneMore(resources0, pages0, device, requests, delivered, done, bytes.value);
      }
      delivered, resources, dones := delivered + [bytes.value], next, dones + [done];
    }
  }

  lemma NewestOneMore(resources0: Resources, pages0: Mirrors, device: Device, requests: seq<Request>, delivered: seq<seq<u8>>,
                      done: seq<nat>, bytes: seq<u8>)
    requires AllNewest(resources0, pages0, device, requests, delivered) && |delivered| < |requests|
    requires NoneSpans(resources0) && ImagesInside(resources0, device)
    requires requests[|delivered|].page in pages0 && requests[|delivered|].page in done
    requires DescribedPage(resources0, device, done, requests[|delivered|].page, pages0[requests[|delivered|].page], bytes)
    ensures AllNewest(resources0, pages0, device, requests, delivered + [bytes])
  {
    var page := requests[|delivered|].page;
    MaterializedIsNewest(resources0, device, done, page, pages0[page], bytes);
  }
}
