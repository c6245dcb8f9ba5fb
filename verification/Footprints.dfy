/** What a resource access touches, and when two accesses touch something in common. */
module Footprints {
  import opened Primitives
  import opened CanonicalMemory

  // ---- slices of backing storage ------------------------------------------------------------

  /** A run of bytes on one canonical page. */
  datatype Fragment = Fragment(page: nat, start: nat, length: nat)

  predicate RangesOverlap(leftOffset: nat, leftSize: nat, rightOffset: nat, rightSize: nat) {
    leftOffset < rightOffset + rightSize && rightOffset < leftOffset + leftSize
  }

  /** The page runs behind logical bytes `offset` up to `end`, the first segment standing at `cursor`. */
  function Fragments(segments: seq<Segment>, cursor: nat, offset: nat, end: nat): seq<Fragment> {
    if segments == [] then []
    else
      var segment := segments[0];
      var start := Max(offset, cursor);
      var finish := Min(end, cursor + segment.size);
      var rest := Fragments(segments[1..], cursor + segment.size, offset, end);
      if start < finish then [Fragment(segment.page, segment.offset + start - cursor, finish - start)] + rest else rest
  }

  function CanonicalFragments(backing: Backing, offset: nat, size: nat): seq<Fragment> {
    Fragments(backing.segments, 0, offset, offset + size)
  }

  predicate FragmentCovers(f: Fragment, l: Location) {
    f.page == l.page && f.start <= l.byte < f.start + f.length
  }

  ghost predicate Covered(fs: seq<Fragment>, l: Location) {
    exists f :: f in fs && FragmentCovers(f, l)
  }

  /** Some logical byte of the slice is stored at `l`. */
  ghost predicate InSlice(segments: seq<Segment>, cursor: nat, offset: nat, end: nat, l: Location) {
    exists i: nat :: i < SegmentsSize(segments) && LocateIn(segments, i) == l && offset <= cursor + i < end
  }

  lemma InSliceStep(segments: seq<Segment>, cursor: nat, offset: nat, end: nat, l: Location)
    requires segments != []
    ensures InSlice(segments, cursor, offset, end, l) <==>
              || (l.page == segments[0].page && segments[0].offset <= l.byte < segments[0].offset + segments[0].size
                  && offset <= cursor + (l.byte - segments[0].offset) < end)
              || InSlice(segments[1..], cursor + segments[0].size, offset, end, l)
  {
    var size := segments[0].size;
    if InSlice(segments, cursor, offset, end, l) {
      var i: nat :| i < SegmentsSize(segments) && LocateIn(segments, i) == l && offset <= cursor + i < end;
      if i >= size {
        assert LocateIn(segments[1..], i - size) == l;
      }
    }
    if l.page == segments[0].page && segments[0].offset <= l.byte < segments[0].offset + size
      && offset <= cursor + (l.byte - segments[0].offset) < end
    {
      assert LocateIn(segments, l.byte - segments[0].offset) == l;
    }
    if InSlice(segments[1..], cursor + size, offset, end, l) {
      var i: nat :| i < SegmentsSize(segments[1..]) && LocateIn(segments[1..], i) == l && offset <= cursor + size + i < end;
      assert LocateIn(segments, size + i) == l;
    }
  }

  /** The fragments cover exactly the canonical bytes behind the slice. */
  lemma {:induction false} FragmentsExact(segments: seq<Segment>, cursor: nat, offset: nat, end: nat, l: Location)
    ensures Covered(Fragments(segments, cursor, offset, end), l) <==> InSlice(segments, cursor, offset, end, l)
  {
    if segments != [] {
      FragmentsExact(segments[1..], cursor + segments[0].size, offset, end, l);
      InSliceStep(segments, cursor, offset, end, l);
      FragmentsStep(segments, cursor, offset, end, l);
    }
  }

  lemma FragmentsStep(segments: seq<Segment>, cursor: nat, offset: nat, end: nat, l: Location)
    requires segments != []
    ensures Covered(Fragments(segments, cursor, offset, end), l) <==>
              || (l.page == segments[0].page && segments[0].offset <= l.byte < segments[0].offset + segments[0].size
                  && offset <= cursor + (l.byte - segments[0].offset) < end)
              || Covered(Fragments(segments[1..], cursor + segments[0].size, offset, end), l)
  {
    var segment := segments[0];
    var start := Max(offset, cursor);
    var finish := Min(end, cursor + segment.size);
    var rest := Fragments(segments[1..], cursor + segment.size, offset, end);
    if start < finish {
      var first := Fragment(segment.page, segment.offset + start - cursor, finish - start);
      CoveredFirst(first, rest, l);
      assert FragmentCovers(first, l) <==>
        l.page == segment.page && segment.offset <= l.byte < segment.offset + segment.size
        && offset <= cursor + (l.byte - segment.offset) < end;
    }
  }

  lemma CoveredFirst(first: Fragment, rest: seq<Fragment>, l: Location)
    ensures Covered([first] + rest, l) <==> FragmentCovers(first, l) || Covered(rest, l)
  {
    if FragmentCovers(first, l) {
      assert first in [first] + rest;
    }
    if Covered(rest, l) {
      var f :| f in rest && FragmentCovers(f, l);
      assert f in [first] + rest;
    }
  }

  lemma {:induction false} FragmentsNonEmpty(segments: seq<Segment>, cursor: nat, offset: nat, end: nat)
    ensures forall f :: f in Fragments(segments, cursor, offset, end) ==> f.length > 0
  {
    if segments != [] {
      FragmentsNonEmpty(segments[1..], cursor + segments[0].size, offset, end);
    }
  }

  predicate FragmentsOverlap(f: Fragment, g: Fragment) {
    f.page == g.page && RangesOverlap(f.start, f.length, g.start, g.length)
  }

  predicate AnyOverlap(fs: seq<Fragment>, gs: seq<Fragment>) {
    exists i, j :: 0 <= i < |fs| && 0 <= j < |gs| && FragmentsOverlap(fs[i], gs[j])
  }

  /** A slice of backing storage. */
  datatype Slice = Slice(backing: Backing, offset: nat, size: nat)

  predicate BackingSlicesOverlap(left: Slice, right: Slice) {
    AnyOverlap(
      CanonicalFragments(left.backing, left.offset, left.size),
      CanonicalFragments(right.backing, right.offset, right.size))
  }

  ghost predicate SliceHolds(slice: Slice, l: Location) {
    InSlice(slice.backing.segments, 0, slice.offset, slice.offset + slice.size, l)
  }

  lemma OverlapByLocation(fs: seq<Fragment>, gs: seq<Fragment>)
    requires forall f :: f in fs || f in gs ==> f.length > 0
    ensures AnyOverlap(fs, gs) <==> exists l :: Covered(fs, l) && Covered(gs, l)
  {
    if AnyOverlap(fs, gs) {
      var i, j :| 0 <= i < |fs| && 0 <= j < |gs| && FragmentsOverlap(fs[i], gs[j]);
      var l := Location(fs[i].page, Max(fs[i].start, gs[j].start));
      assert FragmentCovers(fs[i], l) && FragmentCovers(gs[j], l);
      assert Covered(fs, l) && Covered(gs, l);
    }
    if l :| Covered(fs, l) && Covered(gs, l) {
      var f :| f in fs && FragmentCovers(f, l);
      var g :| g in gs && FragmentCovers(g, l);
      var i :| 0 <= i < |fs| && fs[i] == f;
      var j :| 0 <= j < |gs| && gs[j] == g;
      assert FragmentsOverlap(fs[i], gs[j]);
    }
  }

  /** Two slices overlap exactly when some canonical byte is behind both. */
  lemma OverlapIsExact(left: Slice, right: Slice)
    ensures BackingSlicesOverlap(left, right) <==> exists l :: SliceHolds(left, l) && SliceHolds(right, l)
  {
    var fs := CanonicalFragments(left.backing, left.offset, left.size);
    var gs := CanonicalFragments(right.backing, right.offset, right.size);
    FragmentsNonEmpty(left.backing.segments, 0, left.offset, left.offset + left.size);
    FragmentsNonEmpty(right.backing.segments, 0, right.offset, right.offset + right.size);
    OverlapByLocation(fs, gs);
    forall l
      ensures Covered(fs, l) <==> SliceHolds(left, l)
      ensures Covered(gs, l) <==> SliceHolds(right, l)
    {
      FragmentsExact(left.backing.segments, 0, left.offset, left.offset + left.size, l);
      FragmentsExact(right.backing.segments, 0, right.offset, right.offset + right.size, l);
    }
  }

  // ---- footprints ---------------------------------------------------------------------------

  datatype ImageRange = ImageRange(plane: nat, mip: nat, baseLayer: nat, layerCount: nat)

  datatype Footprint =
    | Buffer(handle: nat, id: nat, offset: nat, size: nat, slice: Option<Slice>)
    | Image(handle: nat, id: nat, range: ImageRange, bindings: seq<Backing>)
    | Queries(handle: nat, pool: nat, first: nat, count: nat)

  /** Ranges in access descriptions are never empty. */
  predicate SoundFootprint(f: Footprint) {
    match f
    case Buffer(_, _, _, size, _) => size > 0
    case Image(_, _, range, _) => range.layerCount > 0
    case Queries(_, _, _, count) => count > 0
  }

  /** The smallest things an access can touch. */
  datatype Cell =
    | BufferByte(handle: nat, id: nat, byte: nat)
    | ImageLayer(handle: nat, id: nat, plane: nat, mip: nat, layer: nat)
    | QuerySlot(handle: nat, pool: nat, query: nat)
    | CanonicalByte(location: Location)

  function Whole(backing: Backing): Slice {
    Slice(backing, 0, BackingSize(backing))
  }

  ghost predicate Touches(f: Footprint, c: Cell) {
    match f
    case Buffer(handle, id, offset, size, slice) =>
      || (c.BufferByte? && c.handle == handle && c.id == id && offset <= c.byte < offset + size)
      || (c.CanonicalByte? && slice.Some? && SliceHolds(slice.value, c.location))
    case Image(handle, id, range, bindings) =>
      || (c.ImageLayer? && c.handle == handle && c.id == id && c.plane == range.plane && c.mip == range.mip
          && range.baseLayer <= c.layer < range.baseLayer + range.layerCount)
      || (c.CanonicalByte? && exists i :: 0 <= i < |bindings| && SliceHolds(Slice(bindings[i], 0, BackingSize(bindings[i])), c.location))
    case Queries(handle, pool, first, count) =>
      c.QuerySlot? && c.handle == handle && c.pool == pool && first <= c.query < first + count
  }

  predicate ImageRangesOverlap(left: ImageRange, right: ImageRange) {
    && left.plane == right.plane
    && left.mip == right.mip
    && RangesOverlap(left.baseLayer, left.layerCount, right.baseLayer, right.layerCount)
  }

  predicate SliceMeetsBindings(slice: Slice, bindings: seq<Backing>) {
    exists i :: 0 <= i < |bindings| && BackingSlicesOverlap(slice, Whole(bindings[i]))
  }

  predicate FootprintsOverlap(left: Footprint, right: Footprint) {
    match (left, right)
    case (Buffer(handle, id, offset, size, slice), Buffer(handle', id', offset', size', slice')) =>
      || (handle == handle' && id == id' && RangesOverlap(offset, size, offset', size'))
      || (slice.Some? && slice'.Some? && BackingSlicesOverlap(slice.value, slice'.value))
    case (Image(handle, id, range, bindings), Image(handle', id', range', bindings')) =>
      || (handle == handle' && id == id' && ImageRangesOverlap(range, range'))
      || (exists i :: 0 <= i < |bindings| && SliceMeetsBindings(Whole(bindings[i]), bindings'))
    case (Buffer(_, _, _, _, slice), Image(_, _, _, bindings)) => slice.Some? && SliceMeetsBindings(slice.value, bindings)
    case (Image(_, _, _, bindings), Buffer(_, _, _, _, slice)) => slice.Some? && SliceMeetsBindings(slice.value, bindings)
    case (Queries(handle, pool, first, count), Queries(handle', pool', first', count')) =>
      handle == handle' && pool == pool' && RangesOverlap(first, count, first', count')
    case _ => false
  }

  ghost predicate Share(left: Footprint, right: Footprint) {
    exists c :: Touches(left, c) && Touches(right, c)
  }

  lemma SlicesShare(left: Slice, right: Slice) returns (l: Location)
    requires BackingSlicesOverlap(left, right)
    ensures SliceHolds(left, l) && SliceHolds(right, l)
  {
    OverlapIsExact(left, right);
    l :| SliceHolds(left, l) && SliceHolds(right, l);
  }

  lemma SharedSlices(left: Slice, right: Slice, l: Location)
    requires SliceHolds(left, l) && SliceHolds(right, l)
    ensures BackingSlicesOverlap(left, right) && BackingSlicesOverlap(right, left)
  {
    OverlapIsExact(left, right);
    OverlapIsExact(right, left);
  }

  lemma BuffersExact(left: Footprint, right: Footprint)
    requires left.Buffer? && right.Buffer? && SoundFootprint(left) && SoundFootprint(right)
    ensures FootprintsOverlap(left, right) <==> Share(left, right)
  {
    if FootprintsOverlap(left, right) {
      if left.handle == right.handle && left.id == right.id && RangesOverlap(left.offset, left.size, right.offset, right.size) {
        var c := BufferByte(left.handle, left.id, Max(left.offset, right.offset));
        assert Touches(left, c) && Touches(right, c);
      } else {
        var l := SlicesShare(left.slice.value, right.slice.value);
        assert Touches(left, CanonicalByte(l)) && Touches(right, CanonicalByte(l));
      }
    }
    if c :| Touches(left, c) && Touches(right, c) {
      if c.CanonicalByte? {
        SharedSlices(left.slice.value, right.slice.value, c.location);
      }
    }
  }

  lemma BufferImageExact(buffer: Footprint, image: Footprint)
    requires buffer.Buffer? && image.Image?
    ensures FootprintsOverlap(buffer, image) <==> Share(buffer, image)
    ensures FootprintsOverlap(image, buffer) <==> Share(image, buffer)
  {
    if FootprintsOverlap(buffer, image) {
      var i :| 0 <= i < |image.bindings| && BackingSlicesOverlap(buffer.slice.value, Whole(image.bindings[i]));
      var l := SlicesShare(buffer.slice.value, Whole(image.bindings[i]));
      assert Touches(buffer, CanonicalByte(l)) && Touches(image, CanonicalByte(l));
    }
    if c :| Touches(buffer, c) && Touches(image, c) {
      var i :| 0 <= i < |image.bindings| && SliceHolds(Whole(image.bindings[i]), c.location);
      SharedSlices(buffer.slice.value, Whole(image.bindings[i]), c.location);
    }
  }

  lemma ImagesExact(left: Footprint, right: Footprint)
    requires left.Image? && right.Image? && SoundFootprint(left) && SoundFootprint(right)
    ensures FootprintsOverlap(left, right) <==> Share(left, right)
  {
    if FootprintsOverlap(left, right) {
      if left.handle == right.handle && left.id == right.id && ImageRangesOverlap(left.range, right.range) {
        var c := ImageLayer(left.handle, left.id, left.range.plane, left.range.mip, Max(left.range.baseLayer, right.range.baseLayer));
        assert Touches(left, c) && Touches(right, c);
      } else {
        var i :| 0 <= i < |left.bindings| && SliceMeetsBindings(Whole(left.bindings[i]), right.bindings);
        var j :| 0 <= j < |right.bindings| && BackingSlicesOverlap(Whole(left.bindings[i]), Whole(right.bindings[j]));
        var l := SlicesShare(Whole(left.bindings[i]), Whole(right.bindings[j]));
        assert Touches(left, CanonicalByte(l)) && Touches(right, CanonicalByte(l));
      }
    }
    if c :| Touches(left, c) && Touches(right, c) {
      if c.CanonicalByte? {
        var i :| 0 <= i < |left.bindings| && SliceHolds(Whole(left.bindings[i]), c.location);
        var j :| 0 <= j < |right.bindings| && SliceHolds(Whole(right.bindings[j]), c.location);
        SharedSlices(Whole(left.bindings[i]), Whole(right.bindings[j]), c.location);
        assert SliceMeetsBindings(Whole(left.bindings[i]), right.bindings);
      }
    }
  }

  lemma QueriesExact(left: Footprint, right: Footprint)
    requires left.Queries? && right.Queries? && SoundFootprint(left) && SoundFootprint(right)
    ensures FootprintsOverlap(left, right) <==> Share(left, right)
  {
    if FootprintsOverlap(left, right) {
      var c := QuerySlot(left.handle, left.pool, Max(left.first, right.first));
      assert Touches(left, c) && Touches(right, c);
    }
  }

  /** Accesses overlap exactly when they touch a cell in common, whichever kinds of resource they are. */
  lemma OverlapMeansSharing(left: Footprint, right: Footprint)
    requires SoundFootprint(left) && SoundFootprint(right)
    ensures FootprintsOverlap(left, right) <==> Share(left, right)
  {
    match (left, right) {
      case (Buffer(_, _, _, _, _), Buffer(_, _, _, _, _)) => BuffersExact(left, right);
      case (Buffer(_, _, _, _, _), Image(_, _, _, _)) => BufferImageExact(left, right);
      case (Image(_, _, _, _), Buffer(_, _, _, _, _)) => BufferImageExact(right, left);
      case (Image(_, _, _, _), Image(_, _, _, _)) => ImagesExact(left, right);
      case (Queries(_, _, _, _), Queries(_, _, _, _)) => QueriesExact(left, right);
      case _ =>
    }
  }

  lemma OverlapIsSymmetric(left: Footprint, right: Footprint)
    requires SoundFootprint(left) && SoundFootprint(right)
    ensures FootprintsOverlap(left, right) <==> FootprintsOverlap(right, left)
  {
    OverlapMeansSharing(left, right);
    OverlapMeansSharing(right, left);
  }
}
