/**
 Bringing one page up to date: the demanded writebacks are staged, replayed in order into the page
 mirrors, and only then dropped from the trackers. A buffer writeback stores to the demanded page, an
 image writeback to every page its storage lies on.
 */
module PageReplay {
  import opened Primitives
  import opened CanonicalMemory
  import opened DeviceWrites
  import opened Writebacks
  import opened WritebackPipeline

  type Mirrors = map<nat, seq<u8>>

  type Resources = map<nat, Resource>

  /** A device buffer and the byte at which the resource's view starts. */
  datatype DeviceBuffer = DeviceBuffer(bytes: seq<u8>, viewOffset: nat)

  /**
   What the device holds: its buffers, the image writebacks that can be read back, and the byte an
   image writeback stores to a byte of a page, if any.
   */
  datatype Device = Device(
    buffers: map<nat, DeviceBuffer>,
    readable: Demand -> bool,
    image: (Demand, nat, nat) -> Option<u8>)

  /** Byte `b` of the view of buffer `h`. */
  function DeviceByte(device: Device, h: nat, b: nat): Option<u8> {
    if h in device.buffers && device.buffers[h].viewOffset + b < |device.buffers[h].bytes|
    then Some(device.buffers[h].bytes[device.buffers[h].viewOffset + b]) else None
  }

  predicate OnRange(d: Demand, p: nat) {
    d.BufferDemand? && d.pageOffset <= p < d.pageOffset + d.range.size
  }

  function BufferStored(device: Device, d: Demand, p: nat): Option<u8> {
    if OnRange(d, p) then DeviceByte(device, d.handle, d.range.offset + (p - d.pageOffset)) else None
  }

  /** What `d`, demanded for `page`, stores to byte `p` of page `q`. */
  function Stored(device: Device, page: nat, d: Demand, q: nat, p: nat): Option<u8> {
    if d.ImageDemand? then device.image(d, q, p)
    else if q == page then BufferStored(device, d, p)
    else None
  }

  /** Where an image demand is stored. */
  function ImageBacking(resources: Resources, d: Demand): Option<Backing> {
    if d.ImageDemand? && d.handle in resources && resources[d.handle].ImageResource? && d.binding < |resources[d.handle].bindings|
    then Some(resources[d.handle].bindings[d.binding]) else None
  }

  /** Images store to no page but those of their storage. */
  ghost predicate ImagesInside(resources: Resources, device: Device) {
    forall d: Demand, q: nat, p: nat :: d.ImageDemand? && device.image(d, q, p).Some? ==>
      ImageBacking(resources, d).Some? && Touches(ImageBacking(resources, d).value, q)
  }

  // ---- staging -----------------------------------------------------------------------------

  datatype Pending =
    | BufferCopy(staging: seq<u8>, pageOffset: nat, stagingOffset: nat, size: nat)
    | ImageCopy(demand: Demand, backing: Backing)

  /** The multiples of the copy alignment, four bytes, around a byte. */
  function AlignedDown(byte: nat): nat {
    byte / 4 * 4
  }

  function AlignedUp(byte: nat): nat {
    (byte + 3) / 4 * 4
  }

  /** A copy can be widened to the copy alignment inside a buffer, and is then not empty. */
  predicate Widens(source: nat, size: nat, length: nat) {
    AlignedUp(source + size) <= length && (size > 0 || source % 4 != 0)
  }

  predicate RangeEncodable(buffer: DeviceBuffer, range: TransferRange) {
    Widens(buffer.viewOffset + range.offset, range.size, |buffer.bytes|)
  }

  predicate Encodable(resources: Resources, device: Device, d: Demand) {
    match d
    case BufferDemand(handle, _, range, _) => handle in device.buffers && RangeEncodable(device.buffers[handle], range)
    case ImageDemand(_, _, _) => device.readable(d) && ImageBacking(resources, d).Some?
  }

  /** `pending` stages `d`: what it copies to its place on the page is what `d` stores there. */
  ghost predicate Stages(resources: Resources, device: Device, d: Demand, pending: Pending) {
    match d
    case ImageDemand(_, _, _) => ImageBacking(resources, d).Some? && pending == ImageCopy(d, ImageBacking(resources, d).value)
    case BufferDemand(_, _, range, pageOffset) =>
      && pending.BufferCopy? && pending.pageOffset == pageOffset && pending.size == range.size
      && pending.stagingOffset + pending.size <= |pending.staging|
      && forall p: nat :: OnRange(d, p) ==>
           BufferStored(device, d, p) == Some(pending.staging[pending.stagingOffset + (p - pageOffset)])
  }

  /** The range of the buffer is found `start` bytes into `staging`. */
  ghost predicate Surrounds(buffer: DeviceBuffer, range: TransferRange, staging: seq<u8>, start: nat) {
    var source := buffer.viewOffset + range.offset;
    && start + range.size <= |staging|
    && source + range.size <= |buffer.bytes|
    && staging[start..start + range.size] == buffer.bytes[source..source + range.size]
  }

  lemma SurroundsStages(device: Device, d: Demand, staging: seq<u8>, start: nat, p: nat)
    requires d.BufferDemand? && d.handle in device.buffers && Surrounds(device.buffers[d.handle], d.range, staging, start)
    requires OnRange(d, p)
    ensures BufferStored(device, d, p) == Some(staging[start + (p - d.pageOffset)])
  {
    var buffer, i := device.buffers[d.handle], p - d.pageOffset;
    var source := buffer.viewOffset + d.range.offset;
    assert staging[start..start + d.range.size][i] == staging[start + i];
    assert buffer.bytes[source..source + d.range.size][i] == buffer.bytes[source + i];
  }

  /** The aligned part of the buffer around a range, and where the range starts in it. */
  method CopyAligned(buffer: DeviceBuffer, range: TransferRange) returns (r: Option<(seq<u8>, nat)>)
    ensures r.Some? <==> RangeEncodable(buffer, range)
    ensures r.Some? ==> Surrounds(buffer, range, r.value.0, r.value.1)
  {
    var source := buffer.viewOffset + range.offset;
    var bounds := WidenedBounds(source, range.size, |buffer.bytes|);
    if bounds.None? {
      return None;
    }
    SliceSurrounds(buffer, range, bounds.value.0, bounds.value.1);
    return Some((buffer.bytes[bounds.value.0..bounds.value.1], source - bounds.value.0));
  }

  method WidenedBounds(source: nat, size: nat, length: nat) returns (r: Option<(nat, nat)>)
    ensures r.Some? <==> Widens(source, size, length)
    ensures r.Some? ==> r.value.0 <= source && source + size <= r.value.1 <= length
  {
    var alignedSource, alignedEnd := AlignedDown(source), AlignedUp(source + size);
    AlignedCopy(source, size);
    if alignedEnd > length || alignedSource >= alignedEnd {
      return None;
    }
    return Some((alignedSource, alignedEnd));
  }

  /** A widened copy holds its range, and is empty only for an empty range at an aligned start. */
  lemma AlignedCopy(source: nat, size: nat)
    ensures AlignedDown(source) <= source <= source + size <= AlignedUp(source + size)
    ensures AlignedDown(source) < AlignedUp(source + size) <==> size > 0 || source % 4 != 0
  {
  }

  lemma SliceSurrounds(buffer: DeviceBuffer, range: TransferRange, start: nat, end: nat)
    requires start <= buffer.viewOffset + range.offset && buffer.viewOffset + range.End() <= end <= |buffer.bytes|
    ensures Surrounds(buffer, range, buffer.bytes[start..end], buffer.viewOffset + range.offset - start)
  {
  }

  /** Copies an aligned range of the buffer and remembers where the demanded bytes start in it. */
  method EncodeBufferWriteback(resources: Resources, device: Device, d: Demand) returns (r: Option<Pending>)
    requires d.BufferDemand?
    ensures r.Some? <==> Encodable(resources, device, d)
    ensures r.Some? ==> Stages(resources, device, d, r.value)
  {
    if d.handle !in device.buffers {
      return None;
    }
    var copied := CopyAligned(device.buffers[d.handle], d.range);
    if copied.None? {
      return None;
    }
    forall p: nat | OnRange(d, p)
      ensures BufferStored(device, d, p) == Some(copied.value.0[copied.value.1 + (p - d.pageOffset)])
    {
      SurroundsStages(device, d, copied.value.0, copied.value.1, p);
    }
    return Some(BufferCopy(copied.value.0, d.pageOffset, copied.value.1, d.range.size));
  }

  method EncodeImageWriteback(resources: Resources, device: Device, d: Demand) returns (r: Option<Pending>)
    requires d.ImageDemand?
    ensures r.Some? <==> Encodable(resources, device, d)
    ensures r.Some? ==> Stages(resources, device, d, r.value)
  {
    var backing := ImageBacking(resources, d);
    if backing.None? || !device.readable(d) {
      return None;
    }
    return Some(ImageCopy(d, backing.value));
  }

  predicate AllEncodable(resources: Resources, device: Device, ds: seq<Demand>) {
    forall d :: d in ds ==> Encodable(resources, device, d)
  }

  ghost predicate AllStaged(resources: Resources, device: Device, ds: seq<Demand>, pending: seq<Pending>) {
    |pending| == |ds| && forall i :: 0 <= i < |ds| ==> Stages(resources, device, ds[i], pending[i])
  }

  /** Stages every demand before any page is touched. */
  method EncodeWritebacks(resources: Resources, device: Device, ds: seq<Demand>) returns (r: Option<seq<Pending>>)
    ensures r.Some? <==> AllEncodable(resources, device, ds)
    ensures r.Some? ==> AllStaged(resources, device, ds, r.value)
  {
    var pending: seq<Pending> := [];
    for k := 0 to |ds|
      invariant AllStaged(resources, device, ds[..k], pending)
      invariant forall i :: 0 <= i < k ==> Encodable(resources, device, ds[i])
    {
      var one;
      if ds[k].ImageDemand? {
        one := EncodeImageWriteback(resources, device, ds[k]);
      } else {
        one := EncodeBufferWriteback(resources, device, ds[k]);
      }
      if one.None? {
        return None;
      }
      pending := pending + [one.value];
    }
    assert ds[..|ds|] == ds;
    return Some(pending);
  }

  // ---- replay ------------------------------------------------------------------------------

  /** Page `q` after one writeback demanded for `page`. */
  function OverlayPage(bytes: seq<u8>, device: Device, page: nat, d: Demand, q: nat): (r: seq<u8>)
    ensures |r| == |bytes|
  {
    seq(|bytes|, p requires 0 <= p < |bytes| =>
      if Stored(device, page, d, q, p).Some? then Stored(device, page, d, q, p).value else bytes[p])
  }

  /** The mirrors after one writeback. */
  function Overlay(mirrors: Mirrors, device: Device, page: nat, d: Demand): (r: Mirrors)
    ensures SameExtent(mirrors, r)
  {
    map q | q in mirrors :: OverlayPage(mirrors[q], device, page, d, q)
  }

  predicate SameExtent(mirrors: Mirrors, mirrors': Mirrors) {
    mirrors'.Keys == mirrors.Keys && forall q :: q in mirrors ==> |mirrors'[q]| == |mirrors[q]|
  }

  /** The mirrors after the writebacks, one after the other. */
  ghost function Replay(mirrors: Mirrors, device: Device, page: nat, ds: seq<Demand>): (r: Mirrors)
    ensures SameExtent(mirrors, r)
  {
    if ds == [] then mirrors else Overlay(Replay(mirrors, device, page, ds[..|ds| - 1]), device, page, ds[|ds| - 1])
  }

  lemma ReplayOneMore(mirrors: Mirrors, device: Device, page: nat, ds: seq<Demand>, k: nat)
    requires k < |ds|
    ensures Replay(mirrors, device, page, ds[..k + 1]) == Overlay(Replay(mirrors, device, page, ds[..k]), device, page, ds[k])
  {
    assert ds[..k + 1][..k] == ds[..k];
  }

  predicate AllPrepared(mirrors: Mirrors, backing: Backing) {
    forall k :: 0 <= k < |backing.segments| ==> backing.segments[k].page in mirrors
  }

  /** The mirrors have room for what the demand stores. */
  predicate Fits(resources: Resources, mirrors: Mirrors, page: nat, d: Demand) {
    match d
    case BufferDemand(_, _, range, pageOffset) => page in mirrors && pageOffset + range.size <= |mirrors[page]|
    case ImageDemand(_, _, _) => ImageBacking(resources, d).Some? && AllPrepared(mirrors, ImageBacking(resources, d).value)
  }

  lemma FitsInShape(resources: Resources, mirrors: Mirrors, mirrors': Mirrors, page: nat, d: Demand)
    requires SameExtent(mirrors, mirrors')
    ensures Fits(resources, mirrors, page, d) <==> Fits(resources, mirrors', page, d)
  {
  }

  /** Each page mirror with the point up to which it is known to be complete, if any. */
  class PageMirrors {
    var pages: Mirrors
    var completed: map<nat, nat>

    constructor (pages: Mirrors)
      ensures this.pages == pages && completed == map[]
    {
      this.pages := pages;
      completed := map[];
    }

    /** Stores a range of bytes into one mirror; a missing page or a range that exceeds it is refused. */
    method WritePageRange(page: nat, offset: nat, bytes: seq<u8>) returns (ok: bool)
      modifies this`pages
      ensures ok <==> page in old(pages) && offset + |bytes| <= |old(pages)[page]|
      ensures !ok ==> pages == old(pages)
      ensures ok ==> pages == old(pages)[page := old(pages)[page][..offset] + bytes + old(pages)[page][offset + |bytes|..]]
    {
      if page !in pages || offset + |bytes| > |pages[page]| {
        return false;
      }
      pages := pages[page := pages[page][..offset] + bytes + pages[page][offset + |bytes|..]];
      return true;
    }

    /** Stores an image into the mirror of every page its storage lies on; a missing page is refused first. */
    method WriteImage(device: Device, page: nat, d: Demand, backing: Backing) returns (ok: bool)
      requires d.ImageDemand?
      requires forall q: nat, p: nat :: device.image(d, q, p).Some? ==> Touches(backing, q)
      modifies this`pages
      ensures ok <==> AllPrepared(old(pages), backing)
      ensures pages == if ok then Overlay(old(pages), device, page, d) else old(pages)
    {
      if !AllPrepared(pages, backing) {
        return false;
      }
      for k := 0 to |backing.segments|
        invariant pages == OverlayFirst(old(pages), device, page, d, backing, k)
      {
        var q := backing.segments[k].page;
        OverlayNext(old(pages), device, page, d, backing, k);
        pages := pages[q := OverlayPage(pages[q], device, page, d, q)];
      }
      OverlayedAll(old(pages), device, page, d, backing);
      return true;
    }

    method MarkPageCompleted(page: nat, point: nat)
      modifies this`completed
      ensures completed == Marked(old(completed), page, point)
    {
      if page !in completed || completed[page] < point {
        completed := completed[page := point];
      }
    }

    /** Hands a page out and forgets its mirror. */
    method Take(page: nat) returns (r: Option<seq<u8>>)
      modifies this
      ensures r == if page in old(pages) then Some(old(pages)[page]) else None
      ensures pages == old(pages) - {page}
      ensures completed == if r.Some? then old(completed) - {page} else old(completed)
    {
      if page !in pages {
        assert pages - {page} == pages;
        return None;
      }
      r := Some(pages[page]);
      pages := pages - {page};
      completed := completed - {page};
    }
  }

  ghost function Marked(completed: map<nat, nat>, page: nat, point: nat): map<nat, nat> {
    completed[page := if page in completed then Max(completed[page], point) else point]
  }

  predicate AmongFirst(backing: Backing, k: nat, q: nat)
    requires k <= |backing.segments|
  {
    exists i :: 0 <= i < k && backing.segments[i].page == q
  }

  /** The mirrors once the first `k` segments of an image are stored. */
  ghost function OverlayFirst(mirrors: Mirrors, device: Device, page: nat, d: Demand, backing: Backing, k: nat): Mirrors
    requires k <= |backing.segments|
  {
    map q | q in mirrors :: if AmongFirst(backing, k, q) then OverlayPage(mirrors[q], device, page, d, q) else mirrors[q]
  }

  /** Storing to a page twice is storing once. */
  lemma OverlayTwice(bytes: seq<u8>, device: Device, page: nat, d: Demand, q: nat)
    ensures OverlayPage(OverlayPage(bytes, device, page, d, q), device, page, d, q) == OverlayPage(bytes, device, page, d, q)
  {
  }

  lemma OverlayNext(mirrors: Mirrors, device: Device, page: nat, d: Demand, backing: Backing, k: nat)
    requires k < |backing.segments| && backing.segments[k].page in mirrors
    ensures var before, q := OverlayFirst(mirrors, device, page, d, backing, k), backing.segments[k].page;
            before[q := OverlayPage(before[q], device, page, d, q)] == OverlayFirst(mirrors, device, page, d, backing, k + 1)
  {
    var q := backing.segments[k].page;
    OverlayTwice(mirrors[q], device, page, d, q);
    assert AmongFirst(backing, k + 1, q);
    forall q' | q' in mirrors && q' != q
      ensures AmongFirst(backing, k + 1, q') <==> AmongFirst(backing, k, q')
    {
    }
  }

  lemma OverlayedAll(mirrors: Mirrors, device: Device, page: nat, d: Demand, backing: Backing)
    requires d.ImageDemand?
    requires forall q: nat, p: nat :: device.image(d, q, p).Some? ==> Touches(backing, q)
    ensures OverlayFirst(mirrors, device, page, d, backing, |backing.segments|) == Overlay(mirrors, device, page, d)
  {
    forall q: nat | q in mirrors && !AmongFirst(backing, |backing.segments|, q)
      ensures OverlayPage(mirrors[q], device, page, d, q) == mirrors[q]
    {
      assert !Touches(backing, q);
    }
  }

  lemma RangeIsOverlay(resources: Resources, mirrors: Mirrors, device: Device, page: nat, d: Demand, pending: Pending, bytes: seq<u8>)
    requires d.BufferDemand? && Stages(resources, device, d, pending) && Fits(resources, mirrors, page, d)
    requires bytes == pending.staging[pending.stagingOffset..pending.stagingOffset + pending.size]
    ensures mirrors[page := mirrors[page][..d.pageOffset] + bytes + mirrors[page][d.pageOffset + |bytes|..]]
         == Overlay(mirrors, device, page, d)
  {
    var written := mirrors[page][..d.pageOffset] + bytes + mirrors[page][d.pageOffset + |bytes|..];
    RangeBytes(mirrors[page], device, page, d, bytes);
    assert written == OverlayPage(mirrors[page], device, page, d, page);
    forall q | q in mirrors && q != page
      ensures OverlayPage(mirrors[q], device, page, d, q) == mirrors[q]
    {
    }
  }

  lemma RangeBytes(page: seq<u8>, device: Device, number: nat, d: Demand, bytes: seq<u8>)
    requires d.BufferDemand? && |bytes| == d.range.size && d.pageOffset + |bytes| <= |page|
    requires forall p: nat :: OnRange(d, p) ==> BufferStored(device, d, p) == Some(bytes[p - d.pageOffset])
    ensures page[..d.pageOffset] + bytes + page[d.pageOffset + |bytes|..] == OverlayPage(page, device, number, d, number)
  {
    var written := page[..d.pageOffset] + bytes + page[d.pageOffset + |bytes|..];
    forall p | 0 <= p < |page|
      ensures written[p] == OverlayPage(page, device, number, d, number)[p]
    {
      if OnRange(d, p) {
        assert written[p] == bytes[p - d.pageOffset];
      }
    }
  }

  /** Stores one staged writeback into the mirrors. */
  method FinishOne(mirrors: PageMirrors, resources: Resources, device: Device, page: nat, ghost d: Demand, pending: Pending) returns (ok: bool)
    requires Stages(resources, device, d, pending) && ImagesInside(resources, device)
    modifies mirrors`pages
    ensures ok <==> Fits(resources, old(mirrors.pages), page, d)
    ensures mirrors.pages == if ok then Overlay(old(mirrors.pages), device, page, d) else old(mirrors.pages)
  {
    match pending {
      case ImageCopy(demand, backing) =>
        ok := mirrors.WriteImage(device, page, demand, backing);
      case BufferCopy(staging, pageOffset, stagingOffset, size) =>
        ghost var before := mirrors.pages;
        var bytes := staging[stagingOffset..stagingOffset + size];
        ok := mirrors.WritePageRange(page, pageOffset, bytes);
        if ok {
          RangeIsOverlay(resources, before, device, page, d, pending, bytes);
        }
    }
  }

  predicate AllFit(resources: Resources, mirrors: Mirrors, page: nat, ds: seq<Demand>) {
    forall d :: d in ds ==> Fits(resources, mirrors, page, d)
  }

  /** The staged data of all demands can be read; `arrived` counts how many can if not all. */
  predicate AllArrive(ds: seq<Demand>, arrived: Option<nat>) {
    arrived.Some? ==> |ds| <= arrived.value
  }

  /**
   Stores the staged writebacks in order, as far as their data arrives and fits the mirrors. Whatever
   happens the mirrors are the replay of some first part of the demands.
   */
  method FinishWritebacks(mirrors: PageMirrors, resources: Resources, device: Device, page: nat, ghost ds: seq<Demand>,
                          pending: seq<Pending>, arrived: Option<nat>)
    returns (ok: bool, done: nat)
    requires AllStaged(resources, device, ds, pending) && ImagesInside(resources, device)
    modifies mirrors`pages
    ensures done <= |ds| && mirrors.pages == Replay(old(mirrors.pages), device, page, ds[..done])
    ensures ok <==> AllArrive(ds, arrived) && AllFit(resources, old(mirrors.pages), page, ds)
    ensures ok <==> done == |ds|
  {
    done := 0;
    while done < |pending|
      invariant Finished(resources, device, page, ds, done, old(mirrors.pages), mirrors.pages)
      invariant arrived.Some? ==> done <= arrived.value
    {
      if arrived.Some? && done >= arrived.value {
        return false, done;
      }
      var fits := FinishNext(mirrors, resources, device, page, old(mirrors.pages), ds, done, pending[done]);
      if !fits {
        return false, done;
      }
      done := done + 1;
    }
    FinishedAll(resources, device, page, ds, old(mirrors.pages), mirrors.pages);
    return true, done;
  }

  method FinishNext(mirrors: PageMirrors, resources: Resources, device: Device, page: nat, ghost mirrors0: Mirrors,
                    ghost ds: seq<Demand>, ghost done: nat, pending: Pending)
    returns (fits: bool)
    requires Finished(resources, device, page, ds, done, mirrors0, mirrors.pages) && done < |ds|
    requires Stages(resources, device, ds[done], pending) && ImagesInside(resources, device)
    modifies mirrors`pages
    ensures fits ==> Finished(resources, device, page, ds, done + 1, mirrors0, mirrors.pages)
    ensures !fits ==> mirrors.pages == old(mirrors.pages) && !AllFit(resources, mirrors0, page, ds)
  {
    FinishedOneMore(resources, device, page, ds, done, mirrors0, mirrors.pages);
    fits := FinishOne(mirrors, resources, device, page, ds[done], pending);
    assert ds[done] in ds;
  }

  lemma FinishedAll(resources: Resources, device: Device, page: nat, ds: seq<Demand>, mirrors0: Mirrors, mirrors: Mirrors)
    requires Finished(resources, device, page, ds, |ds|, mirrors0, mirrors)
    ensures AllFit(resources, mirrors0, page, ds)
  {
  }

  /** The first demands are stored and fitted. */
  ghost predicate Finished(resources: Resources, device: Device, page: nat, ds: seq<Demand>, done: nat, mirrors0: Mirrors, mirrors: Mirrors) {
    && done <= |ds|
    && mirrors == Replay(mirrors0, device, page, ds[..done])
    && forall i :: 0 <= i < done ==> Fits(resources, mirrors0, page, ds[i])
  }

  lemma FinishedOneMore(resources: Resources, device: Device, page: nat, ds: seq<Demand>, done: nat, mirrors0: Mirrors, mirrors: Mirrors)
    requires Finished(resources, device, page, ds, done, mirrors0, mirrors) && done < |ds|
    ensures Fits(resources, mirrors, page, ds[done]) <==> Fits(resources, mirrors0, page, ds[done])
    ensures Fits(resources, mirrors, page, ds[done]) ==>
              Finished(resources, device, page, ds, done + 1, mirrors0, Overlay(mirrors, device, page, ds[done]))
  {
    ReplayOneMore(mirrors0, device, page, ds, done);
    FitsInShape(resources, mirrors0, mirrors, page, ds[done]);
  }

  /** Replaying in order, the last demand that stores to a page byte leaves its content there. */
  ghost function FinalWriter(device: Device, page: nat, ds: seq<Demand>, q: nat, p: nat): Option<Demand> {
    if ds == [] then None
    else if Stored(device, page, ds[|ds| - 1], q, p).Some? then Some(ds[|ds| - 1])
    else FinalWriter(device, page, ds[..|ds| - 1], q, p)
  }

  lemma {:induction false} FinalWriterStores(device: Device, page: nat, ds: seq<Demand>, q: nat, p: nat)
    ensures var w := FinalWriter(device, page, ds, q, p);
            w.Some? ==> w.value in ds && Stored(device, page, w.value, q, p).Some?
    decreases |ds|
  {
    if ds != [] {
      FinalWriterStores(device, page, ds[..|ds| - 1], q, p);
    }
  }

  /** A replayed mirror holds at every byte what its final writer stores, and what it held where there is none. */
  lemma {:induction false} ReplayedByte(mirrors: Mirrors, device: Device, page: nat, ds: seq<Demand>, q: nat, p: nat)
    requires q in mirrors && p < |mirrors[q]|
    ensures var w := FinalWriter(device, page, ds, q, p);
            Some(Replay(mirrors, device, page, ds)[q][p])
            == if w.Some? then Stored(device, page, w.value, q, p) else Some(mirrors[q][p])
    decreases |ds|
  {
    if ds != [] {
      ReplayedByte(mirrors, device, page, ds[..|ds| - 1], q, p);
    }
  }

  /** No demand that stores to a page byte comes after its final writer. */
  lemma {:induction false} LatestWriterWins(device: Device, page: nat, ds: seq<Demand>, q: nat, p: nat, d: Demand)
    requires Ordered(ds) && d in ds && Stored(device, page, d, q, p).Some?
    ensures FinalWriter(device, page, ds, q, p).Some? && NotAfter(d, FinalWriter(device, page, ds, q, p).value)
    decreases |ds|
  {
    var last := |ds| - 1;
    if Stored(device, page, ds[last], q, p).None? {
      assert ds == ds[..last] + [ds[last]];
      LatestWriterWins(device, page, ds[..last], q, p, d);
    } else {
      var i :| 0 <= i < |ds| && ds[i] == d;
    }
  }

  // ---- what the pages end up with -----------------------------------------------------------

  /** Resource `h`, last written at serial `s`, is demanded for `page` and holds `v` for byte `p` of page `q`. */
  ghost predicate Brings(resources: Resources, device: Device, page: nat, q: nat, p: nat, h: nat, s: nat, v: u8) {
    && h in resources
    && (|| (q == page && exists b :: DirtyOnPage(resources[h], s, b, page, p) && DeviceByte(device, h, b) == Some(v))
        || (exists binding :: ImageOnPage(resources[h], s, binding, page) && device.image(ImageDemand(h, s, binding), q, p) == Some(v)))
  }

  /** The demands store exactly what is brought. */
  lemma StoredIsBrought(resources: Resources, device: Device, ds: seq<Demand>, page: nat, q: nat, p: nat, d: Demand)
    requires CollectedAll(ds, resources, page) && d in ds && Stored(device, page, d, q, p).Some?
    ensures Brings(resources, device, page, q, p, d.handle, d.serial, Stored(device, page, d, q, p).value)
  {
    if d.BufferDemand? {
      var b := d.range.offset + (p - d.pageOffset);
      assert Moves(d, d.handle, d.serial, b, p);
      assert AnyMoves(ds, d.handle, d.serial, b, p);
    } else {
      assert ImageDemand(d.handle, d.serial, d.binding) in ds;
    }
  }

  lemma BufferIsStored(resources: Resources, device: Device, ds: seq<Demand>, page: nat, p: nat, h: nat, s: nat, b: nat)
    returns (d: Demand)
    requires CollectedAll(ds, resources, page) && h in resources && DirtyOnPage(resources[h], s, b, page, p)
    ensures d in ds && d.handle == h && d.serial == s && Stored(device, page, d, page, p) == DeviceByte(device, h, b)
  {
    assert AnyMoves(ds, h, s, b, p);
    d :| d in ds && Moves(d, h, s, b, p);
  }

  lemma BroughtIsStored(resources: Resources, device: Device, ds: seq<Demand>, page: nat, q: nat, p: nat, h: nat, s: nat, v: u8)
    returns (d: Demand)
    requires CollectedAll(ds, resources, page) && Brings(resources, device, page, q, p, h, s, v)
    ensures d in ds && d.handle == h && d.serial == s && Stored(device, page, d, q, p) == Some(v)
  {
    if b :| q == page && DirtyOnPage(resources[h], s, b, page, p) && DeviceByte(device, h, b) == Some(v) {
      d := BufferIsStored(resources, device, ds, page, p, h, s, b);
    } else {
      var binding :| ImageOnPage(resources[h], s, binding, page) && device.image(ImageDemand(h, s, binding), q, p) == Some(v);
      d := ImageDemand(h, s, binding);
    }
  }

  /** Every buffer byte dirty on the page exists on the device. */
  ghost predicate AllReadable(resources: Resources, device: Device, page: nat) {
    forall h, s, b, p :: h in resources && DirtyOnPage(resources[h], s, b, page, p) ==> DeviceByte(device, h, b).Some?
  }

  lemma EncodableIsReadable(resources: Resources, device: Device, ds: seq<Demand>, page: nat)
    requires CollectedAll(ds, resources, page) && AllEncodable(resources, device, ds)
    ensures AllReadable(resources, device, page)
  {
    forall h, s, b, p | h in resources && DirtyOnPage(resources[h], s, b, page, p)
      ensures DeviceByte(device, h, b).Some?
    {
      assert AnyMoves(ds, h, s, b, p);
      var d :| d in ds && Moves(d, h, s, b, p);
      assert Encodable(resources, device, d);
      AlignedCopy(device.buffers[h].viewOffset + d.range.offset, d.range.size);
    }
  }

  /** Resource `h'` at serial `s'` does not come after resource `h` at serial `s`. */
  ghost predicate NotNewer(h': nat, s': nat, h: nat, s: nat) {
    s' < s || (s' == s && h' <= h)
  }

  ghost predicate NewestBrought(resources: Resources, device: Device, page: nat, q: nat, p: nat, h: nat, s: nat) {
    forall h', s', v' :: Brings(resources, device, page, q, p, h', s', v') ==> NotNewer(h', s', h, s)
  }

  /** Byte `p` of page `q` went from `before` to the newest content brought for it, or is kept if none is. */
  ghost predicate Settled(resources: Resources, device: Device, page: nat, q: nat, p: nat, before: u8, after: u8) {
    || (exists h, s :: Brings(resources, device, page, q, p, h, s, after) && NewestBrought(resources, device, page, q, p, h, s))
    || (after == before && forall h, s, v :: !Brings(resources, device, page, q, p, h, s, v))
  }

  /** Replaying the ordered demands of a page settles every byte of every page. */
  lemma ReplaySettles(resources: Resources, device: Device, ds: seq<Demand>, page: nat, mirrors: Mirrors, q: nat, p: nat)
    requires CollectedAll(ds, resources, page) && Ordered(ds) && q in mirrors && p < |mirrors[q]|
    ensures Settled(resources, device, page, q, p, mirrors[q][p], Replay(mirrors, device, page, ds)[q][p])
  {
    ReplayedByte(mirrors, device, page, ds, q, p);
    FinalWriterStores(device, page, ds, q, p);
    var w := FinalWriter(device, page, ds, q, p);
    forall h, s, v | Brings(resources, device, page, q, p, h, s, v)
      ensures w.Some? && NotNewer(h, s, w.value.handle, w.value.serial)
    {
      var d := BroughtIsStored(resources, device, ds, page, q, p, h, s, v);
      LatestWriterWins(device, page, ds, q, p, d);
    }
    if w.Some? {
      StoredIsBrought(resources, device, ds, page, q, p, w.value);
      assert NewestBrought(resources, device, page, q, p, w.value.handle, w.value.serial);
    }
  }

  ghost predicate AllSettled(resources: Resources, device: Device, page: nat, mirrors: Mirrors, mirrors': Mirrors) {
    && SameExtent(mirrors, mirrors')
    && forall q, p :: q in mirrors && 0 <= p < |mirrors[q]| ==> Settled(resources, device, page, q, p, mirrors[q][p], mirrors'[q][p])
  }

  /** Drops everything the demands of a page brought back from the trackers. */
  method CompletePage(resources: Resources, ds: seq<Demand>, page: nat) returns (resources': Resources)
    requires AllSound(resources) && CollectedAll(ds, resources, page) && NonEmptyRanges(ds)
    ensures AllMaterialized(resources, resources', page)
  {
    forall i | 0 <= i < |ds|
      ensures ds[i].handle in resources
    {
      HandlesKnown(resources, ds, page, ds[i]);
    }
    resources' := CompleteAll(resources, ds);
    forall h | h in resources
      ensures Materialized(resources[h], resources'[h], page)
    {
      CompletionMaterializes(resources, ds, page, h, resources'[h]);
    }
  }

  ghost predicate AllMaterialized(resources: Resources, resources': Resources, page: nat) {
    && resources'.Keys == resources.Keys
    && forall h :: h in resources ==> Materialized(resources[h], resources'[h], page)
  }

  /**
   Collects, orders, merges, stages, replays and completes the downloads one page demands. A failure
   leaves every tracker as it was, so nothing is taken for downloaded that is not in the mirrors.
   */
  method MaterializePage(resources: Resources, device: Device, page: nat, mirrors: PageMirrors, arrived: Option<nat>)
    returns (ok: bool, ds: seq<Demand>, resources': Resources)
    requires AllSound(resources) && ImagesInside(resources, device)
    modifies mirrors`pages
    ensures CollectedAll(ds, resources, page) && Ordered(ds) && NoneMergeable(ds) && NonEmptyRanges(ds)
    ensures ok <==> AllEncodable(resources, device, ds) && AllFit(resources, old(mirrors.pages), page, ds) && AllArrive(ds, arrived)
    ensures !AllEncodable(resources, device, ds) ==> mirrors.pages == old(mirrors.pages)
    ensures !ok ==> resources' == resources
    ensures ok ==> AllMaterialized(resources, resources', page)
    ensures ok ==> AllReadable(resources, device, page)
    ensures ok ==> AllSettled(resources, device, page, old(mirrors.pages), mirrors.pages)
  {
    var demands := CollectAll(resources, page);
    ds := PrepareDemandedWritebacks(demands);
    var pending := EncodeWritebacks(resources, device, ds);
    if pending.None? {
      return false, ds, resources;
    }
    var done;
    ok, done := FinishWritebacks(mirrors, resources, device, page, ds, pending.value, arrived);
    if !ok {
      return false, ds, resources;
    }
    assert ds[..done] == ds;
    ReplayedAllSettle(resources, device, ds, page, old(mirrors.pages));
    EncodableIsReadable(resources, device, ds, page);
    resources' := CompletePage(resources, ds, page);
  }

  lemma ReplayedAllSettle(resources: Resources, device: Device, ds: seq<Demand>, page: nat, mirrors: Mirrors)
    requires CollectedAll(ds, resources, page) && Ordered(ds)
    ensures AllSettled(resources, device, page, mirrors, Replay(mirrors, device, page, ds))
  {
    forall q, p | q in mirrors && 0 <= p < |mirrors[q]|
      ensures Settled(resources, device, page, q, p, mirrors[q][p], Replay(mirrors, device, page, ds)[q][p])
    {
      ReplaySettles(resources, device, ds, page, mirrors, q, p);
    }
  }
}
