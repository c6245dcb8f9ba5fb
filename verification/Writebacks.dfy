/**
 Demanded writeback of one canonical page: the dirty parts of every resource that lie on the page
 are collected, put in order, coalesced, replayed and finally cleared from the trackers.
 */
module Writebacks {
  import opened Primitives
  import opened CanonicalMemory
  import opened DeviceWrites

  datatype Demand =
    | BufferDemand(handle: nat, serial: nat, range: TransferRange, pageOffset: nat)
    | ImageDemand(handle: nat, serial: nat, binding: nat)

  /** Demand `d` moves byte `b` of buffer `h`, last written at serial `s`, to byte `p` of the page. */
  predicate Moves(d: Demand, h: nat, s: nat, b: nat, p: nat) {
    && d.BufferDemand?
    && d.handle == h
    && d.serial == s
    && d.range.Covers(b)
    && p == d.pageOffset + (b - d.range.offset)
  }

  ghost predicate AnyMoves(ds: seq<Demand>, h: nat, s: nat, b: nat, p: nat) {
    exists d :: d in ds && Moves(d, h, s, b, p)
  }

  // ---- collecting --------------------------------------------------------------------------

  /** Logical byte `b` of the segments is byte `p` of `page`. */
  ghost predicate OnPage(segments: seq<Segment>, b: nat, page: nat, p: nat) {
    b < SegmentsSize(segments) && LocateIn(segments, b) == Location(page, p)
  }

  lemma {:induction false} SizeAppend(segments: seq<Segment>, next: Segment)
    ensures SegmentsSize(segments + [next]) == SegmentsSize(segments) + next.size
  {
    if segments == [] {
      assert (segments + [next])[1..] == [];
    } else {
      SizeAppend(segments[1..], next);
      assert (segments + [next])[1..] == segments[1..] + [next];
    }
  }

  lemma {:induction false} LocateAppend(segments: seq<Segment>, next: Segment, i: nat)
    requires i < SegmentsSize(segments) + next.size
    ensures i < SegmentsSize(segments + [next])
    ensures LocateIn(segments + [next], i)
         == if i < SegmentsSize(segments) then LocateIn(segments, i)
            else Location(next.page, next.offset + (i - SegmentsSize(segments)))
  {
    SizeAppend(segments, next);
    if segments == [] {
      assert segments + [next] == [next];
    } else {
      assert (segments + [next])[1..] == segments[1..] + [next];
      if segments[0].size <= i {
        LocateAppend(segments[1..], next, i - segments[0].size);
      }
    }
  }

  lemma OnPageAppend(segments: seq<Segment>, next: Segment, b: nat, page: nat, p: nat)
    ensures OnPage(segments + [next], b, page, p) <==>
            (|| OnPage(segments, b, page, p)
             || (next.page == page && SegmentsSize(segments) <= b < SegmentsSize(segments) + next.size
                 && p == next.offset + (b - SegmentsSize(segments))))
  {
    SizeAppend(segments, next);
    if b < SegmentsSize(segments) + next.size {
      LocateAppend(segments, next, b);
    }
  }

  /** The demands for one dirty region: its intersections with the page's segments. */
  method CollectRegion(handle: nat, serial: nat, dirty: TransferRange, backing: Backing, page: nat) returns (ds: seq<Demand>)
    ensures forall i :: 0 <= i < |ds| ==> ds[i].BufferDemand? && ds[i].handle == handle && ds[i].range.size > 0
    ensures forall h, s, b, p :: AnyMoves(ds, h, s, b, p)
              <==> h == handle && s == serial && dirty.Covers(b) && OnPage(backing.segments, b, page, p)
  {
    ds := [];
    var logical := 0;
    for k := 0 to |backing.segments|
      invariant logical == SegmentsSize(backing.segments[..k])
      invariant forall i :: 0 <= i < |ds| ==> ds[i].BufferDemand? && ds[i].handle == handle && ds[i].range.size > 0
      invariant CollectedRegion(ds, handle, serial, dirty, backing.segments[..k], page)
    {
      var segment := backing.segments[k];
      assert backing.segments[..k + 1] == backing.segments[..k] + [segment];
      SizeAppend(backing.segments[..k], segment);
      var before := ds;
      var start := Max(dirty.offset, logical);
      var end := Min(dirty.End(), logical + segment.size);
      if segment.page == page && start < end {
        ds := ds + [BufferDemand(handle, serial, TransferRange(start, end - start), segment.offset + (start - logical))];
      }
      CollectStep(before, ds, handle, serial, dirty, backing.segments[..k], segment, page);
      logical := logical + segment.size;
    }
    assert backing.segments[..|backing.segments|] == backing.segments;
  }

  ghost predicate CollectedRegion(ds: seq<Demand>, handle: nat, serial: nat, dirty: TransferRange, segments: seq<Segment>, page: nat) {
    forall h, s, b, p :: AnyMoves(ds, h, s, b, p)
      <==> h == handle && s == serial && dirty.Covers(b) && OnPage(segments, b, page, p)
  }

  lemma AnyMovesAppend(ds: seq<Demand>, d: Demand, h: nat, s: nat, b: nat, p: nat)
    ensures AnyMoves(ds + [d], h, s, b, p) <==> AnyMoves(ds, h, s, b, p) || Moves(d, h, s, b, p)
  {
    assert forall e :: e in ds + [d] <==> e in ds || e == d;
  }

  lemma AnyMovesConcat(ds: seq<Demand>, es: seq<Demand>, h: nat, s: nat, b: nat, p: nat)
    ensures AnyMoves(ds + es, h, s, b, p) <==> AnyMoves(ds, h, s, b, p) || AnyMoves(es, h, s, b, p)
  {
    assert forall e :: e in ds + es <==> e in ds || e in es;
  }

  /** The demand for one segment moves exactly the dirty bytes that lie in it. */
  lemma SegmentDemandMoves(handle: nat, serial: nat, dirty: TransferRange, logical: nat, segment: Segment, h: nat, s: nat, b: nat, p: nat)
    ensures var start, end := Max(dirty.offset, logical), Min(dirty.End(), logical + segment.size);
            (start < end && Moves(BufferDemand(handle, serial, TransferRange(start, end - start), segment.offset + (start - logical)), h, s, b, p))
            <==> h == handle && s == serial && dirty.Covers(b) && logical <= b < logical + segment.size && p == segment.offset + (b - logical)
  {
  }

  lemma CollectStep(before: seq<Demand>, ds: seq<Demand>, handle: nat, serial: nat, dirty: TransferRange,
                    segments: seq<Segment>, segment: Segment, page: nat)
    requires CollectedRegion(before, handle, serial, dirty, segments, page)
    requires var logical := SegmentsSize(segments);
             var start, end := Max(dirty.offset, logical), Min(dirty.End(), logical + segment.size);
             ds == if segment.page == page && start < end
                   then before + [BufferDemand(handle, serial, TransferRange(start, end - start), segment.offset + (start - logical))]
                   else before
    ensures CollectedRegion(ds, handle, serial, dirty, segments + [segment], page)
  {
    forall h, s, b, p
      ensures AnyMoves(ds, h, s, b, p)
         <==> h == handle && s == serial && dirty.Covers(b) && OnPage(segments + [segment], b, page, p)
    {
      assert AnyMoves(before, h, s, b, p) <==> h == handle && s == serial && dirty.Covers(b) && OnPage(segments, b, page, p);
      CollectStepAt(before, ds, handle, serial, dirty, segments, segment, page, h, s, b, p);
    }
  }

  lemma CollectStepAt(before: seq<Demand>, ds: seq<Demand>, handle: nat, serial: nat, dirty: TransferRange,
                      segments: seq<Segment>, segment: Segment, page: nat, h: nat, s: nat, b: nat, p: nat)
    requires var logical := SegmentsSize(segments);
             var start, end := Max(dirty.offset, logical), Min(dirty.End(), logical + segment.size);
             ds == if segment.page == page && start < end
                   then before + [BufferDemand(handle, serial, TransferRange(start, end - start), segment.offset + (start - logical))]
                   else before
    requires AnyMoves(before, h, s, b, p) <==> h == handle && s == serial && dirty.Covers(b) && OnPage(segments, b, page, p)
    ensures AnyMoves(ds, h, s, b, p) <==> h == handle && s == serial && dirty.Covers(b) && OnPage(segments + [segment], b, page, p)
  {
    var logical := SegmentsSize(segments);
    var start, end := Max(dirty.offset, logical), Min(dirty.End(), logical + segment.size);
    OnPageAppend(segments, segment, b, page, p);
    SegmentDemandMoves(handle, serial, dirty, logical, segment, h, s, b, p);
    if segment.page == page && start < end {
      AnyMovesAppend(before, BufferDemand(handle, serial, TransferRange(start, end - start), segment.offset + (start - logical)), h, s, b, p);
    }
  }

  // ---- resources ---------------------------------------------------------------------------

  datatype Resource =
    | BufferResource(writes: seq<DeviceWrite>, backing: Backing)
    | ImageResource(writes: seq<DeviceWrite>, bindings: seq<Backing>)

  ghost predicate SoundResource(r: Resource) {
    && Sound(r.writes)
    && (r.ImageResource? ==> forall w :: w in r.writes ==> w.region.ImageBinding? && w.region.binding < |r.bindings|)
  }

  predicate Touches(backing: Backing, page: nat) {
    exists k :: 0 <= k < |backing.segments| && backing.segments[k].page == page
  }

  /** Byte `b` of the resource is dirty at serial `s` and is byte `p` of the page. */
  ghost predicate DirtyOnPage(r: Resource, s: nat, b: nat, page: nat, p: nat) {
    r.BufferResource? && LastSerial(r.writes, b) == Some(s) && OnPage(r.backing.segments, b, page, p)
  }

  ghost predicate ImageOnPage(r: Resource, s: nat, binding: nat, page: nat) {
    && r.ImageResource?
    && DeviceWrite(ImageBinding(binding), s) in r.writes
    && binding < |r.bindings|
    && Touches(r.bindings[binding], page)
  }

  /** The demands are exactly what resource `handle` has dirty on the page. */
  ghost predicate CollectedFrom(ds: seq<Demand>, handle: nat, r: Resource, page: nat) {
    && (forall h, s, b, p :: AnyMoves(ds, h, s, b, p) <==> h == handle && DirtyOnPage(r, s, b, page, p))
    && (forall h, s, binding :: ImageDemand(h, s, binding) in ds <==> h == handle && ImageOnPage(r, s, binding, page))
  }

  ghost predicate RegionsCollected(ds: seq<Demand>, handle: nat, writes: seq<DeviceWrite>, backing: Backing, page: nat) {
    forall h, s, b, p :: AnyMoves(ds, h, s, b, p) <==>
      h == handle && OnPage(backing.segments, b, page, p) && exists w :: w in writes && w.serial == s && Dirties(w, b)
  }

  lemma DirtyMeansSerial(writes: seq<DeviceWrite>, s: nat, b: nat)
    requires Sound(writes)
    ensures (exists w :: w in writes && w.serial == s && Dirties(w, b)) <==> LastSerial(writes, b) == Some(s)
  {
    if w :| w in writes && w.serial == s && Dirties(w, b) {
      var i :| 0 <= i < |writes| && writes[i] == w;
      SerialAt(writes, i, b);
    }
    if LastSerial(writes, b) == Some(s) {
      var i :| DirtyAt(writes, i, b);
      SerialAt(writes, i, b);
      assert writes[i] in writes;
    }
  }

  lemma RegionsStep(ds: seq<Demand>, more: seq<Demand>, handle: nat, writes: seq<DeviceWrite>, w: DeviceWrite, backing: Backing, page: nat)
    requires RegionsCollected(ds, handle, writes, backing, page)
    requires w.region.Buffer? ==> CollectedRegion(more, handle, w.serial, w.region.range, backing.segments, page)
    requires !w.region.Buffer? ==> more == []
    ensures RegionsCollected(ds + more, handle, writes + [w], backing, page)
  {
    forall h, s, b, p
      ensures AnyMoves(ds + more, h, s, b, p) <==>
              h == handle && OnPage(backing.segments, b, page, p) && exists v :: v in writes + [w] && v.serial == s && Dirties(v, b)
    {
      AnyMovesConcat(ds, more, h, s, b, p);
      assert forall v :: v in writes + [w] <==> v in writes || v == w;
      assert w in writes + [w];
    }
  }

  method CollectBuffer(handle: nat, writes: seq<DeviceWrite>, backing: Backing, page: nat) returns (ds: seq<Demand>)
    ensures forall i :: 0 <= i < |ds| ==> ds[i].BufferDemand? && ds[i].handle == handle && ds[i].range.size > 0
    ensures RegionsCollected(ds, handle, writes, backing, page)
  {
    ds := [];
    for k := 0 to |writes|
      invariant forall i :: 0 <= i < |ds| ==> ds[i].BufferDemand? && ds[i].handle == handle && ds[i].range.size > 0
      invariant RegionsCollected(ds, handle, writes[..k], backing, page)
    {
      var more: seq<Demand> := [];
      if writes[k].region.Buffer? {
        more := CollectRegion(handle, writes[k].serial, writes[k].region.range, backing, page);
      }
      RegionsStep(ds, more, handle, writes[..k], writes[k], backing, page);
      assert writes[..k + 1] == writes[..k] + [writes[k]];
      ds := ds + more;
    }
    assert writes[..|writes|] == writes;
  }

  method CollectImage(handle: nat, writes: seq<DeviceWrite>, bindings: seq<Backing>, page: nat) returns (ds: seq<Demand>)
    requires forall w :: w in writes ==> w.region.ImageBinding? && w.region.binding < |bindings|
    ensures forall i :: 0 <= i < |ds| ==> ds[i].ImageDemand?
    ensures forall h, s, binding :: ImageDemand(h, s, binding) in ds <==>
              h == handle && ImageOnPage(ImageResource(writes, bindings), s, binding, page)
  {
    ds := [];
    for k := 0 to |writes|
      invariant forall i :: 0 <= i < |ds| ==> ds[i].ImageDemand?
      invariant forall h, s, binding :: ImageDemand(h, s, binding) in ds <==>
                  h == handle && ImageOnPage(ImageResource(writes[..k], bindings), s, binding, page)
    {
      assert writes[..k + 1] == writes[..k] + [writes[k]];
      assert writes[k] in writes;
      var binding := writes[k].region.binding;
      if Touches(bindings[binding], page) {
        ds := ds + [ImageDemand(handle, writes[k].serial, binding)];
      }
    }
    assert writes[..|writes|] == writes;
  }

  /** Everything one resource has dirty on the page. */
  method CollectDemandedWritebacks(handle: nat, r: Resource, page: nat) returns (ds: seq<Demand>)
    requires SoundResource(r)
    ensures CollectedFrom(ds, handle, r, page)
    ensures forall i :: 0 <= i < |ds| && ds[i].BufferDemand? ==> ds[i].range.size > 0
  {
    if r.BufferResource? {
      ds := CollectBuffer(handle, r.writes, r.backing, page);
      forall h, s, b, p
        ensures AnyMoves(ds, h, s, b, p) <==> h == handle && DirtyOnPage(r, s, b, page, p)
      {
        DirtyMeansSerial(r.writes, s, b);
      }
    } else {
      ds := CollectImage(handle, r.writes, r.bindings, page);
    }
  }

  /** The demands are exactly what the resources have dirty on the page. */
  ghost predicate CollectedAll(ds: seq<Demand>, resources: map<nat, Resource>, page: nat) {
    && (forall h, s, b, p :: AnyMoves(ds, h, s, b, p) <==> h in resources && DirtyOnPage(resources[h], s, b, page, p))
    && (forall h, s, binding :: ImageDemand(h, s, binding) in ds <==> h in resources && ImageOnPage(resources[h], s, binding, page))
  }

  lemma CollectedOneMore(ds: seq<Demand>, resources: map<nat, Resource>, page: nat, handle: nat, r: Resource, more: seq<Demand>)
    requires CollectedAll(ds, resources, page) && handle !in resources
    requires CollectedFrom(more, handle, r, page)
    ensures CollectedAll(ds + more, resources[handle := r], page)
  {
    var grown := resources[handle := r];
    forall h, s, b, p
      ensures AnyMoves(ds + more, h, s, b, p) <==> h in grown && DirtyOnPage(grown[h], s, b, page, p)
    {
      AnyMovesConcat(ds, more, h, s, b, p);
    }
  }
}
