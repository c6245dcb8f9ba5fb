/** The layout copier between host rows and canonical image storage. */
module ImageCopy {
  import opened Primitives
  import opened ImageLayout

  /** Where each image byte is read from and written to. */
  datatype Route = Route(from: Position -> nat, to: Position -> nat)

  function RouteOf(layout: Layout, shape: Shape, toCanonical: bool): Route
    requires SoundShape(shape)
  {
    var linear := (p: Position) => LinearOffset(shape, p);
    var canonical := (p: Position) => CanonicalOffset(layout, shape, p);
    if toCanonical then Route(linear, canonical) else Route(canonical, linear)
  }

  ghost predicate Fits(route: Route, p: Position, sourceSize: nat, destinationSize: nat) {
    route.from(p) < sourceSize && route.to(p) < destinationSize
  }

  ghost predicate FitsAll(route: Route, shape: Shape, sourceSize: nat, destinationSize: nat)
    requires SoundShape(shape)
  {
    forall p :: Inside(p, shape) ==> Fits(route, p, sourceSize, destinationSize)
  }

  // ---- the byte-by-byte reference -----------------------------------------------------------

  ghost function StoreByte(destination: seq<u8>, source: seq<u8>, route: Route, p: Position): (r: seq<u8>)
    ensures |r| == |destination|
  {
    if Fits(route, p, |source|, |destination|) then destination[route.to(p) := source[route.from(p)]]
    else destination
  }

  /** The destination once every byte before `end`, in layer, row and column order, has been copied. */
  ghost function Copied(destination: seq<u8>, source: seq<u8>, route: Route, shape: Shape, end: Position): (r: seq<u8>)
    requires SoundShape(shape)
    ensures |r| == |destination|
    decreases end.layer, end.y, end.x
  {
    if end.x > 0 then
      var last := end.(x := end.x - 1);
      StoreByte(Copied(destination, source, route, shape, last), source, route, last)
    else if end.y > 0 then Copied(destination, source, route, shape, Position(end.layer, end.y - 1, RowBytes(shape)))
    else if end.layer > 0 then Copied(destination, source, route, shape, Position(end.layer - 1, shape.height, 0))
    else destination
  }

  function End(shape: Shape): Position {
    Position(shape.layers, 0, 0)
  }

  predicate Before(p: Position, q: Position) {
    p.layer < q.layer || (p.layer == q.layer && (p.y < q.y || (p.y == q.y && p.x < q.x)))
  }

  /** A place the copy can have reached. */
  predicate IsCursor(end: Position, shape: Shape)
    requires SoundShape(shape)
  {
    && end.layer <= shape.layers && end.y <= shape.height && end.x <= RowBytes(shape)
    && (end.x > 0 ==> end.y < shape.height)
    && (end.x > 0 || end.y > 0 ==> end.layer < shape.layers)
  }

  /** No two image bytes land on one destination byte. */
  ghost predicate Distinct(route: Route, shape: Shape)
    requires SoundShape(shape)
  {
    forall p, q :: Inside(p, shape) && Inside(q, shape) && route.to(p) == route.to(q) ==> p == q
  }

  lemma {:induction false} CopiedByte(destination: seq<u8>, source: seq<u8>, route: Route, shape: Shape, end: Position, p: Position)
    requires SoundShape(shape) && Distinct(route, shape) && IsCursor(end, shape)
    requires Inside(p, shape) && Before(p, end) && Fits(route, p, |source|, |destination|)
    ensures Copied(destination, source, route, shape, end)[route.to(p)] == source[route.from(p)]
    decreases end.layer, end.y, end.x
  {
    if end.x > 0 {
      var last := end.(x := end.x - 1);
      assert Inside(last, shape);
      if p != last {
        CopiedByte(destination, source, route, shape, last, p);
      }
    } else if end.y > 0 {
      CopiedByte(destination, source, route, shape, Position(end.layer, end.y - 1, RowBytes(shape)), p);
    } else {
      CopiedByte(destination, source, route, shape, Position(end.layer - 1, shape.height, 0), p);
    }
  }

  lemma {:induction false} UncopiedByte(destination: seq<u8>, source: seq<u8>, route: Route, shape: Shape, end: Position, i: nat)
    requires SoundShape(shape) && IsCursor(end, shape) && i < |destination|
    requires forall p :: Inside(p, shape) ==> route.to(p) != i
    ensures Copied(destination, source, route, shape, end)[i] == destination[i]
    decreases end.layer, end.y, end.x
  {
    if end.x > 0 {
      var last := end.(x := end.x - 1);
      assert Inside(last, shape);
      UncopiedByte(destination, source, route, shape, last, i);
    } else if end.y > 0 {
      UncopiedByte(destination, source, route, shape, Position(end.layer, end.y - 1, RowBytes(shape)), i);
    } else if end.layer > 0 {
      UncopiedByte(destination, source, route, shape, Position(end.layer - 1, shape.height, 0), i);
    }
  }

  lemma CanonicalDistinct(layout: Layout, shape: Shape)
    requires SoundShape(shape) && Roomy(layout, shape)
    ensures Distinct(RouteOf(layout, shape, true), shape)
  {
    var route := RouteOf(layout, shape, true);
    forall p, q | Inside(p, shape) && Inside(q, shape) && route.to(p) == route.to(q)
      ensures p == q
    {
      CanonicalInjective(layout, shape, p, q);
    }
  }

  lemma LinearDistinct(layout: Layout, shape: Shape)
    requires SoundShape(shape) && shape.hostRowPitch >= RowBytes(shape)
    ensures Distinct(RouteOf(layout, shape, false), shape)
  {
    var route := RouteOf(layout, shape, false);
    forall p, q | Inside(p, shape) && Inside(q, shape) && route.to(p) == route.to(q)
      ensures p == q
    {
      LinearInjective(shape, p, q);
    }
  }

  // ---- round trips --------------------------------------------------------------------------

  /** Canonical storage after writing host rows to it. */
  ghost function Stored(canonical: seq<u8>, linear: seq<u8>, layout: Layout, shape: Shape): seq<u8>
    requires SoundShape(shape)
  {
    Copied(canonical, linear, RouteOf(layout, shape, true), shape, End(shape))
  }

  /** Host rows after reading canonical storage into them. */
  ghost function Linearized(scratch: seq<u8>, canonical: seq<u8>, layout: Layout, shape: Shape): seq<u8>
    requires SoundShape(shape)
  {
    Copied(scratch, canonical, RouteOf(layout, shape, false), shape, End(shape))
  }

  /** Writing host rows to canonical storage and linearizing them again restores every image byte. */
  lemma LinearRoundTrip(linear: seq<u8>, canonical: seq<u8>, scratch: seq<u8>, layout: Layout, shape: Shape, p: Position)
    requires SoundShape(shape) && Roomy(layout, shape) && shape.hostRowPitch >= RowBytes(shape)
    requires FitsAll(RouteOf(layout, shape, true), shape, |linear|, |canonical|)
    requires FitsAll(RouteOf(layout, shape, false), shape, |canonical|, |scratch|)
    requires Inside(p, shape)
    ensures LinearOffset(shape, p) < |linear| && LinearOffset(shape, p) < |scratch|
    ensures Linearized(scratch, Stored(canonical, linear, layout, shape), layout, shape)[LinearOffset(shape, p)]
         == linear[LinearOffset(shape, p)]
  {
    var there, back := RouteOf(layout, shape, true), RouteOf(layout, shape, false);
    CanonicalDistinct(layout, shape);
    LinearDistinct(layout, shape);
    assert Fits(there, p, |linear|, |canonical|) && Fits(back, p, |canonical|, |scratch|);
    CopiedByte(canonical, linear, there, shape, End(shape), p);
    CopiedByte(scratch, Stored(canonical, linear, layout, shape), back, shape, End(shape), p);
  }

  /** Writing to canonical storage touches no byte outside the image. */
  lemma OutsideUntouched(linear: seq<u8>, canonical: seq<u8>, layout: Layout, shape: Shape, i: nat)
    requires SoundShape(shape) && i < |canonical|
    requires forall p :: Inside(p, shape) ==> CanonicalOffset(layout, shape, p) != i
    ensures Stored(canonical, linear, layout, shape)[i] == canonical[i]
  {
    var there := RouteOf(layout, shape, true);
    forall p | Inside(p, shape)
      ensures there.to(p) != i
    {
      assert there.to(p) == CanonicalOffset(layout, shape, p);
    }
    UncopiedByte(canonical, linear, there, shape, End(shape), i);
  }

  /** Writing back bytes that the destination already holds changes nothing. */
  lemma {:induction false} AgreeingCopyIsIdentity(destination: seq<u8>, source: seq<u8>, route: Route, shape: Shape, end: Position)
    requires SoundShape(shape) && IsCursor(end, shape)
    requires forall p :: Inside(p, shape) && Fits(route, p, |source|, |destination|) ==>
               destination[route.to(p)] == source[route.from(p)]
    ensures Copied(destination, source, route, shape, end) == destination
    decreases end.layer, end.y, end.x
  {
    if end.x > 0 {
      var last := end.(x := end.x - 1);
      assert Inside(last, shape);
      AgreeingCopyIsIdentity(destination, source, route, shape, last);
    } else if end.y > 0 {
      AgreeingCopyIsIdentity(destination, source, route, shape, Position(end.layer, end.y - 1, RowBytes(shape)));
    } else if end.layer > 0 {
      AgreeingCopyIsIdentity(destination, source, route, shape, Position(end.layer - 1, shape.height, 0));
    }
  }

  /** Linearizing an image and writing it back leaves canonical storage as it was. */
  lemma CanonicalRoundTrip(canonical: seq<u8>, scratch: seq<u8>, layout: Layout, shape: Shape)
    requires SoundShape(shape) && shape.hostRowPitch >= RowBytes(shape)
    requires FitsAll(RouteOf(layout, shape, false), shape, |canonical|, |scratch|)
    ensures Stored(canonical, Linearized(scratch, canonical, layout, shape), layout, shape) == canonical
  {
    var there, back := RouteOf(layout, shape, true), RouteOf(layout, shape, false);
    var rows := Linearized(scratch, canonical, layout, shape);
    LinearDistinct(layout, shape);
    forall p | Inside(p, shape) && Fits(there, p, |rows|, |canonical|)
      ensures canonical[there.to(p)] == rows[there.from(p)]
    {
      assert Fits(back, p, |canonical|, |scratch|);
      CopiedByte(scratch, canonical, back, shape, End(shape), p);
    }
    AgreeingCopyIsIdentity(canonical, rows, there, shape, End(shape));
  }

  // ---- copying runs of bytes ----------------------------------------------------------------

  function Splice(destination: seq<u8>, to: nat, bytes: seq<u8>): (r: seq<u8>)
    requires to + |bytes| <= |destination|
    ensures |r| == |destination|
  {
    destination[..to] + bytes + destination[to + |bytes|..]
  }

  /** Between columns `p.x` and `end`, addresses are consecutive on both sides. */
  ghost predicate Contiguous(route: Route, p: Position, end: nat) {
    forall x :: p.x <= x < end ==>
      && route.from(p.(x := x)) == route.from(p) + (x - p.x)
      && route.to(p.(x := x)) == route.to(p) + (x - p.x)
  }

  ghost predicate RunFits(route: Route, p: Position, size: nat, sourceSize: nat, destinationSize: nat) {
    route.from(p) + size <= sourceSize && route.to(p) + size <= destinationSize
  }

  /** `size` single-byte stores, left to right from `p`. */
  ghost function ByteByByte(destination: seq<u8>, source: seq<u8>, route: Route, p: Position, size: nat): (r: seq<u8>)
    ensures |r| == |destination|
  {
    if size == 0 then destination
    else StoreByte(ByteByByte(destination, source, route, p, size - 1), source, route, p.(x := p.x + size - 1))
  }

  lemma {:induction false} CopiedAlongRow(destination: seq<u8>, source: seq<u8>, route: Route, shape: Shape, p: Position, size: nat)
    requires SoundShape(shape)
    ensures Copied(destination, source, route, shape, p.(x := p.x + size))
         == ByteByByte(Copied(destination, source, route, shape, p), source, route, p, size)
  {
    if size > 0 {
      CopiedAlongRow(destination, source, route, shape, p, size - 1);
    } else {
      assert p.(x := p.x + size) == p;
    }
  }

  /** Copying a contiguous run at once is copying its bytes one by one. */
  lemma {:induction false} RunIsBytes(destination: seq<u8>, source: seq<u8>, route: Route, p: Position, size: nat)
    requires Contiguous(route, p, p.x + size)
    requires RunFits(route, p, size, |source|, |destination|)
    ensures ByteByByte(destination, source, route, p, size)
         == Splice(destination, route.to(p), source[route.from(p)..route.from(p) + size])
  {
    if size > 0 {
      RunIsBytes(destination, source, route, p, size - 1);
      RunStep(destination, source, route, p.(x := p.x + size - 1), route.to(p), route.from(p), size);
    }
  }

  lemma RunStep(before: seq<u8>, source: seq<u8>, route: Route, last: Position, to: nat, from: nat, size: nat)
    requires size > 0 && to + size <= |before| && from + size <= |source|
    requires route.from(last) == from + size - 1 && route.to(last) == to + size - 1
    ensures StoreByte(Splice(before, to, source[from..from + size - 1]), source, route, last)
         == Splice(before, to, source[from..from + size])
  {
    SpliceGrows(before, to, source, from, size);
  }

  lemma SpliceGrows(destination: seq<u8>, to: nat, source: seq<u8>, from: nat, size: nat)
    requires size > 0 && to + size <= |destination| && from + size <= |source|
    ensures Splice(destination, to, source[from..from + size])
         == Splice(destination, to, source[from..from + size - 1])[to + size - 1 := source[from + size - 1]]
  {
  }

  method CopyBytes(source: seq<u8>, destination: array<u8>, from: nat, to: nat, size: nat) returns (ok: bool)
    modifies destination
    ensures ok <==> from + size <= |source| && to + size <= destination.Length
    ensures ok ==> destination[..] == Splice(old(destination[..]), to, source[from..from + size])
    ensures !ok ==> destination[..] == old(destination[..])
  {
    if from + size > |source| || to + size > destination.Length {
      return false;
    }
    for j := 0 to size
      invariant forall i :: 0 <= i < destination.Length ==>
                  destination[i] == if to <= i < to + j then source[from + (i - to)] else old(destination[i])
    {
      destination[to + j] := source[from + j];
    }
    return true;
  }

  /** Copies one run whose offsets were computed once, at its first byte. */
  method CopyRun(source: seq<u8>, destination: array<u8>, from: nat, to: nat, size: nat,
                 ghost route: Route, ghost shape: Shape, ghost p: Position, ghost initial: seq<u8>)
    returns (ok: bool)
    requires SoundShape(shape) && Contiguous(route, p, p.x + size)
    requires from == route.from(p) && to == route.to(p)
    requires |initial| == destination.Length && destination[..] == Copied(initial, source, route, shape, p)
    modifies destination
    ensures ok <==> RunFits(route, p, size, |source|, destination.Length)
    ensures ok ==> destination[..] == Copied(initial, source, route, shape, p.(x := p.x + size))
    ensures !ok ==> destination[..] == old(destination[..])
  {
    ok := CopyBytes(source, destination, from, to, size);
    if ok {
      CopiedAlongRow(initial, source, route, shape, p, size);
      RunIsBytes(old(destination[..]), source, route, p, size);
    }
  }

  /** The offsets of one byte, or nothing when one of them does not fit in 64 bits. */
  method RunOffsets(layout: Layout, shape: Shape, toCanonical: bool, p: Position) returns (r: Option<(nat, nat)>)
    requires SoundShape(shape)
    ensures var route := RouteOf(layout, shape, toCanonical);
            && (r.Some? <==> route.from(p) < U64_SIZE && route.to(p) < U64_SIZE)
            && (r.Some? ==> r.value == (route.from(p), route.to(p)))
  {
    var linear := LinearOffset(shape, p);
    var canonical := CanonicalOffset(layout, shape, p);
    if linear >= U64_SIZE || canonical >= U64_SIZE {
      return None;
    }
    return Some(if toCanonical then (linear, canonical) else (canonical, linear));
  }

  // ---- one row ------------------------------------------------------------------------------

  /** The bytes of the row at `p` fit, up to column `end`. */
  ghost predicate RowFits(route: Route, p: Position, end: nat, sourceSize: nat, destinationSize: nat) {
    forall x :: 0 <= x < end ==> Fits(route, p.(x := x), sourceSize, destinationSize)
  }

  lemma RowFitsRun(route: Route, p: Position, size: nat, sourceSize: nat, destinationSize: nat)
    requires size > 0 && Contiguous(route, p, p.x + size)
    requires RowFits(route, p, p.x, sourceSize, destinationSize)
    ensures RowFits(route, p, p.x + size, sourceSize, destinationSize) <==> RunFits(route, p, size, sourceSize, destinationSize)
  {
    if RowFits(route, p, p.x + size, sourceSize, destinationSize) {
      assert Fits(route, p.(x := p.x + size - 1), sourceSize, destinationSize);
    }
  }

  lemma PitchRowContiguous(layout: Layout, shape: Shape, toCanonical: bool, p: Position)
    requires SoundShape(shape) && layout.PitchLinear?
    ensures Contiguous(RouteOf(layout, shape, toCanonical), p, RowBytes(shape))
  {
  }

  lemma ChunkContiguous(layout: Layout, shape: Shape, toCanonical: bool, p: Position, size: nat)
    requires SoundShape(shape) && layout.BlockLinear? && p.x % 16 + size <= 16
    ensures Contiguous(RouteOf(layout, shape, toCanonical), p, p.x + size)
  {
    PositivePower(layout.heightLog2);
    forall x | p.x <= x < p.x + size
      ensures CanonicalOffset(layout, shape, p.(x := x)) == CanonicalOffset(layout, shape, p) + (x - p.x)
      ensures LinearOffset(shape, p.(x := x)) == LinearOffset(shape, p) + (x - p.x)
    {
      SectorIsContiguous(layout.layerStride, WidthInGobs(RowBytes(shape)), Pow2(layout.heightLog2), p, x - p.x);
    }
  }

  lemma RowFailsAt(route: Route, p: Position, end: nat, rowBytes: nat, sourceSize: nat, destinationSize: nat)
    requires end <= rowBytes && !RowFits(route, p, end, sourceSize, destinationSize)
    ensures !RowFits(route, p, rowBytes, sourceSize, destinationSize)
  {
    var x :| 0 <= x < end && !Fits(route, p.(x := x), sourceSize, destinationSize);
  }

  /** The column where the run starting at column `x` ends. */
  function RunEnd(layout: Layout, shape: Shape, x: nat): nat
    requires SoundShape(shape)
  {
    if layout.PitchLinear? then RowBytes(shape) else Min(x - x % 16 + 16, RowBytes(shape))
  }

  /** `stop` is in the row of `p`, at the first run with a byte out of range. */
  ghost predicate StopsAtBadRun(layout: Layout, shape: Shape, route: Route, p: Position, stop: Position, sourceSize: nat, destinationSize: nat)
    requires SoundShape(shape)
  {
    && stop == p.(x := stop.x) && stop.x < RowBytes(shape)
    && RowFits(route, p, stop.x, sourceSize, destinationSize)
    && !RowFits(route, p, RunEnd(layout, shape, stop.x), sourceSize, destinationSize)
  }

  /** What copying the row at `p` leaves: all of it, or the part before the first run out of range. */
  ghost predicate RowOutcome(ok: bool, after: seq<u8>, initial: seq<u8>, source: seq<u8>, layout: Layout, shape: Shape, toCanonical: bool, p: Position, stop: Position)
    requires SoundShape(shape)
  {
    var route := RouteOf(layout, shape, toCanonical);
    && (ok <==> RowFits(route, p, RowBytes(shape), |source|, |initial|))
    && after == Copied(initial, source, route, shape, stop)
    && (ok ==> stop == p.(x := RowBytes(shape)))
    && (!ok ==> StopsAtBadRun(layout, shape, route, p, stop, |source|, |initial|))
  }

  method CopyPitchRow(source: seq<u8>, destination: array<u8>, layout: Layout, shape: Shape, toCanonical: bool, p: Position, ghost initial: seq<u8>)
    returns (ok: bool, ghost stop: Position)
    requires SoundShape(shape) && layout.PitchLinear? && p.x == 0
    requires |source| < U64_SIZE && |initial| == destination.Length < U64_SIZE
    requires destination[..] == Copied(initial, source, RouteOf(layout, shape, toCanonical), shape, p)
    modifies destination
    ensures RowOutcome(ok, destination[..], initial, source, layout, shape, toCanonical, p, stop)
  {
    ghost var route := RouteOf(layout, shape, toCanonical);
    PitchRowContiguous(layout, shape, toCanonical, p);
    RowFitsRun(route, p, RowBytes(shape), |source|, destination.Length);
    var offsets := RunOffsets(layout, shape, toCanonical, p);
    if offsets.None? {
      return false, p;
    }
    ok := CopyRun(source, destination, offsets.value.0, offsets.value.1, RowBytes(shape), route, shape, p, initial);
    stop := if ok then p.(x := RowBytes(shape)) else p;
  }

  /** One run of a block-linear row, up to the next multiple of sixteen columns or the row's end. */
  method CopyChunk(source: seq<u8>, destination: array<u8>, layout: Layout, shape: Shape, toCanonical: bool, p: Position, ghost initial: seq<u8>)
    returns (ok: bool, chunk: nat)
    requires SoundShape(shape) && layout.BlockLinear? && p.x < RowBytes(shape)
    requires |source| < U64_SIZE && |initial| == destination.Length < U64_SIZE
    requires destination[..] == Copied(initial, source, RouteOf(layout, shape, toCanonical), shape, p)
    requires RowFits(RouteOf(layout, shape, toCanonical), p, p.x, |source|, destination.Length)
    modifies destination
    ensures 0 < chunk && p.x + chunk == RunEnd(layout, shape, p.x)
    ensures ok <==> RowFits(RouteOf(layout, shape, toCanonical), p, p.x + chunk, |source|, destination.Length)
    ensures ok ==> destination[..] == Copied(initial, source, RouteOf(layout, shape, toCanonical), shape, p.(x := p.x + chunk))
    ensures !ok ==> destination[..] == old(destination[..])
  {
    chunk := Min(16 - p.x % 16, RowBytes(shape) - p.x);
    ghost var route := RouteOf(layout, shape, toCanonical);
    ChunkContiguous(layout, shape, toCanonical, p, chunk);
    RowFitsRun(route, p, chunk, |source|, destination.Length);
    var offsets := RunOffsets(layout, shape, toCanonical, p);
    if offsets.None? {
      return false, chunk;
    }
    ok := CopyRun(source, destination, offsets.value.0, offsets.value.1, chunk, route, shape, p, initial);
  }

  lemma SameRow(route: Route, p: Position, x: nat, end: nat, sourceSize: nat, destinationSize: nat)
    ensures RowFits(route, p.(x := x), end, sourceSize, destinationSize) <==> RowFits(route, p, end, sourceSize, destinationSize)
  {
    assert forall k: nat :: p.(x := x).(x := k) == p.(x := k);
  }

  /** Copies a block-linear row in runs that end at multiples of sixteen columns. */
  method CopyBlockRow(source: seq<u8>, destination: array<u8>, layout: Layout, shape: Shape, toCanonical: bool, p: Position, ghost initial: seq<u8>)
    returns (ok: bool, ghost stop: Position)
    requires SoundShape(shape) && layout.BlockLinear? && p.x == 0
    requires |source| < U64_SIZE && |initial| == destination.Length < U64_SIZE
    requires destination[..] == Copied(initial, source, RouteOf(layout, shape, toCanonical), shape, p)
    modifies destination
    ensures RowOutcome(ok, destination[..], initial, source, layout, shape, toCanonical, p, stop)
  {
    ghost var route := RouteOf(layout, shape, toCanonical);
    var rowBytes := RowBytes(shape);
    var q := p;
    SameRow(route, p, p.x, p.x, |source|, destination.Length);
    while q.x < rowBytes
      invariant q == p.(x := q.x) && q.x <= rowBytes
      invariant RowFits(route, q, q.x, |source|, destination.Length)
      invariant destination[..] == Copied(initial, source, route, shape, q)
      decreases rowBytes - q.x
    {
      var copied, chunk := CopyChunk(source, destination, layout, shape, toCanonical, q, initial);
      if !copied {
        RowFailsAt(route, q, q.x + chunk, rowBytes, |source|, destination.Length);
        SameRow(route, p, q.x, rowBytes, |source|, destination.Length);
        SameRow(route, p, q.x, q.x, |source|, destination.Length);
        SameRow(route, p, q.x, q.x + chunk, |source|, destination.Length);
        return false, q;
      }
      SameRow(route, q, q.x + chunk, q.x + chunk, |source|, destination.Length);
      q := q.(x := q.x + chunk);
    }
    SameRow(route, p, q.x, rowBytes, |source|, destination.Length);
    return true, q;
  }

  // ---- the whole image ----------------------------------------------------------------------

  /** Layouts the copier accepts: block-linear storage one GOB wide and deep. */
  ghost predicate Supported(layout: Layout) {
    layout.BlockLinear? ==> layout.widthLog2 == 0 && layout.depthLog2 == 0 && 8 * Pow2(layout.heightLog2) < U64_SIZE
  }

  /** Row sizes whose rounding does not fit in 64 bits. */
  ghost predicate TooWide(layout: Layout, shape: Shape)
    requires SoundShape(shape)
  {
    RowBytes(shape) >= U64_SIZE || (layout.BlockLinear? && RowBytes(shape) + 63 >= U64_SIZE)
  }

  /** Everything before `stop` is in range and the run that starts there is not. */
  ghost predicate StopsAtFirstBadRun(layout: Layout, shape: Shape, route: Route, stop: Position, sourceSize: nat, destinationSize: nat)
    requires SoundShape(shape)
  {
    && Inside(stop, shape)
    && FitsBefore(route, shape, stop, sourceSize, destinationSize)
    && !RowFits(route, stop, RunEnd(layout, shape, stop.x), sourceSize, destinationSize)
  }

  lemma RowStops(layout: Layout, shape: Shape, route: Route, p: Position, stop: Position, sourceSize: nat, destinationSize: nat)
    requires SoundShape(shape) && p.x == 0 && p.layer < shape.layers && p.y < shape.height
    requires FitsBefore(route, shape, p, sourceSize, destinationSize)
    requires StopsAtBadRun(layout, shape, route, p, stop, sourceSize, destinationSize)
    ensures StopsAtFirstBadRun(layout, shape, route, stop, sourceSize, destinationSize)
  {
    SameRow(route, p, stop.x, RunEnd(layout, shape, stop.x), sourceSize, destinationSize);
    forall q | Inside(q, shape) && Before(q, stop)
      ensures Fits(route, q, sourceSize, destinationSize)
    {
      if !Before(q, p) {
        assert q == p.(x := q.x);
      }
    }
  }

  ghost predicate FitsBefore(route: Route, shape: Shape, end: Position, sourceSize: nat, destinationSize: nat)
    requires SoundShape(shape)
  {
    forall p :: Inside(p, shape) && Before(p, end) ==> Fits(route, p, sourceSize, destinationSize)
  }

  lemma RowAdvances(route: Route, shape: Shape, p: Position, sourceSize: nat, destinationSize: nat)
    requires SoundShape(shape) && p.x == 0
    requires FitsBefore(route, shape, p, sourceSize, destinationSize)
    requires RowFits(route, p, RowBytes(shape), sourceSize, destinationSize)
    ensures FitsBefore(route, shape, Position(p.layer, p.y + 1, 0), sourceSize, destinationSize)
  {
    forall q | Inside(q, shape) && Before(q, Position(p.layer, p.y + 1, 0))
      ensures Fits(route, q, sourceSize, destinationSize)
    {
      if !Before(q, p) {
        assert q == p.(x := q.x);
      }
    }
  }

  lemma RowRefutes(route: Route, shape: Shape, p: Position, sourceSize: nat, destinationSize: nat)
    requires SoundShape(shape) && p.layer < shape.layers && p.y < shape.height
    requires !RowFits(route, p, RowBytes(shape), sourceSize, destinationSize)
    ensures !FitsAll(route, shape, sourceSize, destinationSize)
  {
    var x :| 0 <= x < RowBytes(shape) && !Fits(route, p.(x := x), sourceSize, destinationSize);
    assert Inside(p.(x := x), shape);
  }

  lemma WideRowRefutes(layout: Layout, shape: Shape, toCanonical: bool, sourceSize: nat, destinationSize: nat)
    requires SoundShape(shape) && RowBytes(shape) + 63 >= U64_SIZE
    requires sourceSize < U64_SIZE / 2 && destinationSize < U64_SIZE / 2
    ensures !FitsAll(RouteOf(layout, shape, toCanonical), shape, sourceSize, destinationSize)
  {
    var p := Position(0, 0, RowBytes(shape) - 1);
    assert Inside(p, shape);
    assert LinearOffset(shape, p) == RowBytes(shape) - 1;
    assert !Fits(RouteOf(layout, shape, toCanonical), p, sourceSize, destinationSize);
  }

  method CopyRow(source: seq<u8>, destination: array<u8>, layout: Layout, shape: Shape, toCanonical: bool, p: Position, ghost initial: seq<u8>)
    returns (ok: bool, ghost stop: Position)
    requires SoundShape(shape) && p.x == 0
    requires |source| < U64_SIZE && |initial| == destination.Length < U64_SIZE
    requires destination[..] == Copied(initial, source, RouteOf(layout, shape, toCanonical), shape, p)
    modifies destination
    ensures RowOutcome(ok, destination[..], initial, source, layout, shape, toCanonical, p, stop)
  {
    if layout.PitchLinear? {
      ok, stop := CopyPitchRow(source, destination, layout, shape, toCanonical, p, initial);
    } else {
      ok, stop := CopyBlockRow(source, destination, layout, shape, toCanonical, p, initial);
    }
  }

  /**
   Copies a whole image between host rows and canonical storage. It succeeds exactly when the layout
   is supported and every byte is in range on both sides; the destination is always the byte-by-byte
   reference, up to where the copy stopped.
   */
  method CopyImageLayout(source: seq<u8>, destination: array<u8>, layout: Layout, shape: Shape, toCanonical: bool)
    returns (ok: bool, ghost stop: Position)
    requires SoundShape(shape)
    requires |source| < U64_SIZE / 2 && destination.Length < U64_SIZE / 2
    modifies destination
    ensures ok <==> Supported(layout) && FitsAll(RouteOf(layout, shape, toCanonical), shape, |source|, destination.Length)
    ensures destination[..] == Copied(old(destination[..]), source, RouteOf(layout, shape, toCanonical), shape, stop)
    ensures ok ==> stop == End(shape)
    ensures !ok && (!Supported(layout) || TooWide(layout, shape)) ==> stop == Position(0, 0, 0)
    ensures !ok && Supported(layout) && !TooWide(layout, shape) ==>
              StopsAtFirstBadRun(layout, shape, RouteOf(layout, shape, toCanonical), stop, |source|, destination.Length)
  {
    ghost var route := RouteOf(layout, shape, toCanonical);
    ghost var initial := destination[..];
    stop := Position(0, 0, 0);
    if layout.BlockLinear? && (layout.widthLog2 != 0 || layout.depthLog2 != 0 || Pow2(layout.heightLog2) * 8 >= U64_SIZE) {
      return false, stop;
    }
    var lastOfRow := if layout.BlockLinear? then RowBytes(shape) + 63 else RowBytes(shape);
    if lastOfRow >= U64_SIZE {
      WideRowRefutes(layout, shape, toCanonical, |source|, destination.Length);
      return false, stop;
    }
    for layer := 0 to shape.layers
      invariant FitsBefore(route, shape, Position(layer, 0, 0), |source|, destination.Length)
      invariant destination[..] == Copied(initial, source, route, shape, Position(layer, 0, 0))
    {
      for y := 0 to shape.height
        invariant FitsBefore(route, shape, Position(layer, y, 0), |source|, destination.Length)
        invariant destination[..] == Copied(initial, source, route, shape, Position(layer, y, 0))
      {
        ok, stop := CopyRow(source, destination, layout, shape, toCanonical, Position(layer, y, 0), initial);
        if !ok {
          RowRefutes(route, shape, Position(layer, y, 0), |source|, destination.Length);
          RowStops(layout, shape, route, Position(layer, y, 0), stop, |source|, destination.Length);
          return;
        }
        RowAdvances(route, shape, Position(layer, y, 0), |source|, destination.Length);
      }
      LayerAdvances(route, shape, layer, |source|, destination.Length);
    }
    AllLayersFit(route, shape, |source|, destination.Length);
    return true, End(shape);
  }

  lemma LayerAdvances(route: Route, shape: Shape, layer: nat, sourceSize: nat, destinationSize: nat)
    requires SoundShape(shape)
    requires FitsBefore(route, shape, Position(layer, shape.height, 0), sourceSize, destinationSize)
    ensures FitsBefore(route, shape, Position(layer + 1, 0, 0), sourceSize, destinationSize)
  {
  }

  lemma AllLayersFit(route: Route, shape: Shape, sourceSize: nat, destinationSize: nat)
    requires SoundShape(shape)
    requires FitsBefore(route, shape, End(shape), sourceSize, destinationSize)
    ensures FitsAll(route, shape, sourceSize, destinationSize)
  {
  }
}
