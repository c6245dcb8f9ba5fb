/**
 An image over two pages that shares one of them with a dirty buffer: two runs in which a page is
 delivered without its newest content.
 */
module SharedPages {
  import opened Primitives
  import opened CanonicalMemory
  import opened DeviceWrites
  import opened Writebacks
  import opened WritebackPipeline
  import opened PageReplay
  import opened PageRequests

  const IMAGE := ImageDemand(1, 5, 0)

  /** Byte `t` of page 1, through a buffer written at serial 3. */
  function SharedBuffer(t: nat): Resource {
    BufferResource([DeviceWrite(Buffer(TransferRange(0, 1)), 3)], Backing([Segment(1, t, 1, {})]))
  }

  /** The first byte of pages 0 and 1, through an image written at serial 5. */
  function SharedImage(): Resource {
    ImageResource([DeviceWrite(ImageBinding(0), 5)], [SharedBacking()])
  }

  function SharedBacking(): Backing {
    Backing([Segment(0, 0, 1, {}), Segment(1, 0, 1, {})])
  }

  function SharedResources(t: nat): Resources {
    map[0 := SharedBuffer(t), 1 := SharedImage()]
  }

  /** The buffer holds 7 and the image 9. */
  function SharedDevice(): Device {
    Device(map[0 := DeviceBuffer([7, 0, 0, 0], 0)],
           d => true,
           (d, q, p) => if d == IMAGE && q <= 1 && p == 0 then Some(9) else None)
  }

  function BlankPages(): Mirrors {
    map[0 := [0, 0], 1 := [0, 0]]
  }

  // ---- what is dirty ------------------------------------------------------------------------

  lemma BufferDirty(t: nat, s: nat, b: nat, page: nat, p: nat)
    ensures DirtyOnPage(SharedBuffer(t), s, b, page, p) <==> s == 3 && b == 0 && page == 1 && p == t
  {
    var r := SharedBuffer(t);
    var segments := r.backing.segments;
    assert segments[1..] == [];
    assert SegmentsSize(segments) == 1;
    if b == 0 {
      assert DirtyAt(r.writes, 0, 0);
      SerialAt(r.writes, 0, 0);
    }
  }

  lemma ImageDirty(s: nat, binding: nat, page: nat)
    ensures ImageOnPage(SharedImage(), s, binding, page) <==> s == 5 && binding == 0 && page <= 1
  {
    var segments := SharedBacking().segments;
    assert segments[0].page == 0 && segments[1].page == 1;
  }

  lemma SharedIsSound(t: nat)
    ensures AllSound(SharedResources(t)) && ImagesInside(SharedResources(t), SharedDevice())
  {
    forall d: Demand, q: nat, p: nat | d.ImageDemand? && SharedDevice().image(d, q, p).Some?
      ensures ImageBacking(SharedResources(t), d).Some? && Touches(ImageBacking(SharedResources(t), d).value, q)
    {
      ImageDirty(5, 0, q);
    }
  }

  // ---- the first request --------------------------------------------------------------------

  /** Page 0 demands the image and nothing else. */
  lemma FirstDemands(t: nat, ds: seq<Demand>, d: Demand)
    requires CollectedAll(ds, SharedResources(t), 0) && NonEmptyRanges(ds)
    ensures IMAGE in ds && (d in ds ==> d == IMAGE)
  {
    ImageDirty(5, 0, 0);
    if d in ds {
      if d.ImageDemand? {
        assert ImageDemand(d.handle, d.serial, d.binding) in ds;
        assert ImageOnPage(SharedResources(t)[d.handle], d.serial, d.binding, 0);
        ImageDirty(d.serial, d.binding, 0);
      } else {
        assert Moves(d, d.handle, d.serial, d.range.offset, d.pageOffset);
        assert AnyMoves(ds, d.handle, d.serial, d.range.offset, d.pageOffset);
        BufferDirty(t, d.serial, d.range.offset, 0, d.pageOffset);
      }
    }
  }

  lemma FirstSucceeds(t: nat, ds: seq<Demand>)
    requires CollectedAll(ds, SharedResources(t), 0) && NonEmptyRanges(ds)
    ensures AllEncodable(SharedResources(t), SharedDevice(), ds) && AllFit(SharedResources(t), BlankPages(), 0, ds)
  {
    forall d | d in ds
      ensures Encodable(SharedResources(t), SharedDevice(), d) && Fits(SharedResources(t), BlankPages(), 0, d)
    {
      FirstDemands(t, ds, d);
    }
  }

  /** Storing the image leaves 9 in the first byte of page 1 and its second byte alone. */
  lemma FirstSettles(t: nat, settled: Mirrors)
    requires AllSettled(SharedResources(t), SharedDevice(), 0, BlankPages(), settled)
    ensures settled[1] == [9, 0]
  {
    var resources, device := SharedResources(t), SharedDevice();
    forall p, h, s, v | p == 0 || p == 1
      ensures Brings(resources, device, 0, 1, p, h, s, v) <==> p == 0 && h == 1 && s == 5 && v == 9
    {
      FirstBringsImage(t, p, h, s, v);
    }
    assert Brings(resources, device, 0, 1, 0, 1, 5, 9);
    assert Settled(resources, device, 0, 1, 0, 0, settled[1][0]);
    assert Settled(resources, device, 0, 1, 1, 0, settled[1][1]);
  }

  lemma FirstBringsImage(t: nat, p: nat, h: nat, s: nat, v: u8)
    ensures Brings(SharedResources(t), SharedDevice(), 0, 1, p, h, s, v) <==> p == 0 && h == 1 && s == 5 && v == 9
  {
    ImageDirty(5, 0, 0);
    if h == 1 {
      forall binding
        ensures ImageOnPage(SharedImage(), s, binding, 0) <==> s == 5 && binding == 0
      {
        ImageDirty(s, binding, 0);
      }
    }
  }

  lemma {:induction false} MarkedPoint(completed: map<nat, nat>, segments: seq<Segment>, point: nat)
    requires forall k :: k in completed ==> completed[k] == point
    ensures forall k :: k in MarkSegments(completed, segments, point) ==> MarkSegments(completed, segments, point)[k] == point
    ensures forall i :: 0 <= i < |segments| ==> segments[i].page in MarkSegments(completed, segments, point)
    ensures completed.Keys <= MarkSegments(completed, segments, point).Keys
  {
    if segments != [] {
      MarkedPoint(completed, segments[..|segments| - 1], point);
    }
  }

  /** Marking demands of which the image is one marks both its pages with the point. */
  lemma {:induction false} MarkedByImage(t: nat, ds: seq<Demand>, point: nat)
    requires forall i :: 0 <= i < |ds| ==> ds[i] == IMAGE
    ensures var marked := MarkDemands(map[], SharedResources(t), ds, point);
            && (forall k :: k in marked ==> marked[k] == point)
            && (ds != [] ==> 1 in marked)
  {
    if ds != [] {
      var before := MarkDemands(map[], SharedResources(t), ds[..|ds| - 1], point);
      MarkedByImage(t, ds[..|ds| - 1], point);
      MarkedPoint(before, SharedBacking().segments, point);
      assert SharedBacking().segments[1].page == 1;
    }
  }

  /** The first request, for page 0 at point 1. */
  method RequestFirst(t: nat) returns (mirrors: PageMirrors, resources: Resources)
    ensures fresh(mirrors) && 1 in mirrors.pages && mirrors.pages[1] == [9, 0]
    ensures 1 in mirrors.completed && mirrors.completed[1] == 1
    ensures AllMaterialized(SharedResources(t), resources, 0)
  {
    mirrors := new PageMirrors(BlankPages());
    SharedIsSound(t);
    var bytes;
    ghost var settled, ds;
    bytes, resources, settled, ds := MakeCpuVisible(mirrors, SharedResources(t), SharedDevice(), 0, 1, None);
    FirstSucceeds(t, ds);
    FirstSettles(t, settled);
    FirstMarks(t, ds);
  }

  lemma FirstMarks(t: nat, ds: seq<Demand>)
    requires CollectedAll(ds, SharedResources(t), 0) && NonEmptyRanges(ds)
    ensures var completed := Marked(MarkDemands(map[], SharedResources(t), ds, 1), 0, 1) - {0};
            1 in completed && completed[1] == 1
  {
    forall i | 0 <= i < |ds|
      ensures ds[i] == IMAGE
    {
      FirstDemands(t, ds, ds[i]);
    }
    FirstDemands(t, ds, IMAGE);
    MarkedByImage(t, ds, 1);
  }

  // ---- the second request -------------------------------------------------------------------

  /** The image is gone from the tracker, the buffer is not. */
  lemma LeftForSecond(t: nat, resources: Resources, h: nat, s: nat, v: u8, p: nat)
    requires AllMaterialized(SharedResources(t), resources, 0)
    ensures Brings(resources, SharedDevice(), 1, 1, p, h, s, v) <==> p == t && h == 0 && s == 3 && v == 7
  {
    OneLeft(t, resources);
    BringsLeft(SharedResources(t), resources, SharedDevice(), [0], 1, 1, p, h, s, v);
    if h == 0 {
      forall b
        ensures DirtyOnPage(SharedBuffer(t), s, b, 1, p) <==> s == 3 && b == 0 && p == t
      {
        BufferDirty(t, s, b, 1, p);
      }
      assert DeviceByte(SharedDevice(), 0, 0) == Some(7);
    }
    if h == 1 {
      forall binding
        ensures ImageOnPage(SharedImage(), s, binding, 1) ==> ImageOnAny(SharedImage(), s, binding, [0])
      {
        ImageDirty(s, binding, 1);
        ImageDirty(s, binding, 0);
        assert 0 in [0];
      }
    }
  }

  lemma OneLeft(t: nat, resources: Resources)
    requires AllMaterialized(SharedResources(t), resources, 0)
    ensures AllLeftAfter(SharedResources(t), resources, [0])
  {
    SharedIsSound(t);
    RunStarts(SharedResources(t), BlankPages(), SharedDevice());
    AllLeftAfterOneMore(SharedResources(t), SharedResources(t), resources, [], 0);
    assert [] + [0] == [0];
  }

  /** Page 1 then demands the buffer's byte and nothing else. */
  lemma SecondDemands(t: nat, resources: Resources, ds: seq<Demand>, d: Demand)
    requires AllMaterialized(SharedResources(t), resources, 0)
    requires CollectedAll(ds, resources, 1) && NonEmptyRanges(ds) && d in ds
    ensures d == BufferDemand(0, 3, TransferRange(0, 1), t)
  {
    OneLeft(t, resources);
    if d.ImageDemand? {
      assert ImageDemand(d.handle, d.serial, d.binding) in ds;
      assert ImageOnPage(resources[d.handle], d.serial, d.binding, 1);
      ImageLeft(SharedResources(t)[d.handle], resources[d.handle], [0], 1, d.serial, d.binding);
      ImageDirty(d.serial, d.binding, 1);
      ImageDirty(d.serial, d.binding, 0);
      assert false;
    } else {
      forall b: nat | d.range.Covers(b)
        ensures d.handle == 0 && d.serial == 3 && b == 0 && d.pageOffset + (b - d.range.offset) == t
      {
        SecondByte(t, resources, ds, d, b);
      }
      assert d.range.Covers(d.range.offset) && d.range.Covers(d.range.offset + d.range.size - 1);
    }
  }

  lemma SecondByte(t: nat, resources: Resources, ds: seq<Demand>, d: Demand, b: nat)
    requires AllLeftAfter(SharedResources(t), resources, [0])
    requires CollectedAll(ds, resources, 1) && d in ds && d.BufferDemand? && d.range.Covers(b)
    ensures d.handle == 0 && d.serial == 3 && b == 0 && d.pageOffset + (b - d.range.offset) == t
  {
    var p := d.pageOffset + (b - d.range.offset);
    assert Moves(d, d.handle, d.serial, b, p);
    assert AnyMoves(ds, d.handle, d.serial, b, p);
    DirtyLeft(SharedResources(t)[d.handle], resources[d.handle], [0], d.serial, b, 1, p);
    BufferDirty(t, d.serial, b, 1, p);
  }

  lemma SecondSucceeds(t: nat, resources: Resources, pages: Mirrors, ds: seq<Demand>)
    requires AllMaterialized(SharedResources(t), resources, 0) && t <= 1 && 1 in pages && |pages[1]| == 2
    requires CollectedAll(ds, resources, 1) && NonEmptyRanges(ds)
    ensures AllEncodable(resources, SharedDevice(), ds) && AllFit(resources, pages, 1, ds)
  {
    forall d | d in ds
      ensures Encodable(resources, SharedDevice(), d) && Fits(resources, pages, 1, d)
    {
      SecondDemands(t, resources, ds, d);
      assert AlignedUp(1) == 4;
    }
  }

  /** Of the initial holders of the first byte of page 1 the image is the newest. */
  lemma ImageIsNewest()
    ensures FromNewest(SharedResources(0), SharedDevice(), 1, 0, 9) && !FromNewest(SharedResources(0), SharedDevice(), 1, 0, 7)
  {
    var resources, device := SharedResources(0), SharedDevice();
    forall h, s, v
      ensures Holds(resources, device, 1, 0, h, s, v) <==> (h == 0 && s == 3 && v == 7) || (h == 1 && s == 5 && v == 9)
    {
      InitialHolders(0, 0, h, s, v);
    }
    assert Holds(resources, device, 1, 0, 1, 5, 9);
    assert NewestHolder(resources, device, 1, 0, 1, 5);
  }

  lemma InitialHolders(t: nat, p: nat, h: nat, s: nat, v: u8)
    ensures Holds(SharedResources(t), SharedDevice(), 1, p, h, s, v) <==>
            (p == t && h == 0 && s == 3 && v == 7) || (p == 0 && h == 1 && s == 5 && v == 9)
  {
    if h == 0 {
      forall b
        ensures DirtyOnPage(SharedBuffer(t), s, b, 1, p) <==> s == 3 && b == 0 && p == t
      {
        BufferDirty(t, s, b, 1, p);
      }
      assert DeviceByte(SharedDevice(), 0, 0) == Some(7);
    }
    if h == 1 {
      forall binding
        ensures ImageOnPage(SharedImage(), s, binding, 1) <==> s == 5 && binding == 0
      {
        ImageDirty(s, binding, 1);
      }
    }
  }

  /**
   Page 0 is requested, then page 1 at a later point. The image stored both pages at the first
   request, and the buffer, written before it, is stored over it at the second.
   */
  method OlderOverNewer() returns (page: seq<u8>)
    ensures page == [7, 0]
    ensures FromNewest(SharedResources(0), SharedDevice(), 1, 0, 9) && !FromNewest(SharedResources(0), SharedDevice(), 1, 0, page[0])
  {
    ImageIsNewest();
    var mirrors, resources := RequestFirst(0);
    StillInside(0, resources);
    ghost var pages := mirrors.pages;
    var bytes, resources';
    ghost var settled, ds;
    bytes, resources', settled, ds := MakeCpuVisible(mirrors, resources, SharedDevice(), 1, 2, None);
    SecondSucceeds(0, resources, pages, ds);
    SecondSettles(0, resources, pages, settled);
    page := bytes.value;
  }

  lemma StillInside(t: nat, resources: Resources)
    requires AllMaterialized(SharedResources(t), resources, 0)
    ensures AllSound(resources) && ImagesInside(resources, SharedDevice())
  {
    OneLeft(t, resources);
    SharedIsSound(t);
    InsideLeftAfter(SharedResources(t), resources, [0], SharedDevice());
  }

  lemma SecondSettles(t: nat, resources: Resources, pages: Mirrors, settled: Mirrors)
    requires t == 0 && AllMaterialized(SharedResources(t), resources, 0) && 1 in pages && pages[1] == [9, 0]
    requires AllSettled(resources, SharedDevice(), 1, pages, settled)
    ensures settled[1] == [7, 0]
  {
    assert Settled(resources, SharedDevice(), 1, 1, 0, 9, settled[1][0]);
    assert Settled(resources, SharedDevice(), 1, 1, 1, 0, settled[1][1]);
    SecondByteSettles(resources, 0, 9, settled[1][0]);
    SecondByteSettles(resources, 1, 0, settled[1][1]);
  }

  lemma SecondByteSettles(resources: Resources, p: nat, before: u8, after: u8)
    requires AllMaterialized(SharedResources(0), resources, 0) && Settled(resources, SharedDevice(), 1, 1, p, before, after)
    ensures after == if p == 0 then 7 else before
  {
    if h, s :| Brings(resources, SharedDevice(), 1, 1, p, h, s, after) && NewestBrought(resources, SharedDevice(), 1, 1, p, h, s) {
      LeftForSecond(0, resources, h, s, after, p);
    } else {
      LeftForSecond(0, resources, 0, 3, 7, p);
    }
  }

  /**
   Page 0 is requested, then page 1 at the same point. The image marked page 1 as complete, so it is
   delivered without the buffer's byte.
   */
  method DeliveredTooEarly() returns (page: seq<u8>)
    ensures page == [9, 0] && Holds(SharedResources(1), SharedDevice(), 1, 1, 0, 3, 7)
    ensures forall v :: FromNewest(SharedResources(1), SharedDevice(), 1, 1, v) ==> v != page[1]
  {
    BufferIsOnlyHolder();
    var mirrors, resources := RequestFirst(1);
    StillInside(1, resources);
    var bytes, resources';
    ghost var settled, ds;
    bytes, resources', settled, ds := MakeCpuVisible(mirrors, resources, SharedDevice(), 1, 1, None);
    page := bytes.value;
  }

  lemma BufferIsOnlyHolder()
    ensures forall h, s, v :: Holds(SharedResources(1), SharedDevice(), 1, 1, h, s, v) <==> h == 0 && s == 3 && v == 7
  {
    forall h, s, v
      ensures Holds(SharedResources(1), SharedDevice(), 1, 1, h, s, v) <==> h == 0 && s == 3 && v == 7
    {
      InitialHolders(1, 1, h, s, v);
    }
  }
}
