/**
 The tracker of device-written regions of one resource.

 The tracker is an unordered vector of regions edited by swap-remove. Its meaning is the partial
 map from buffer bytes to the serial of the last device write, `LastSerial`; recording is a
 pointwise update of it and subtracting a pointwise erase.
 */
module DeviceWrites {
  import opened Primitives

  const MAX_DEVICE_WRITE_REGIONS: nat := 256

  datatype TransferRange = TransferRange(offset: nat, size: nat) {
    function End(): nat {
      offset + size
    }

    predicate Covers(b: nat) {
      offset <= b < offset + size
    }
  }

  datatype WriteRegion = Buffer(range: TransferRange) | ImageBinding(binding: nat)

  datatype DeviceWrite = DeviceWrite(region: WriteRegion, serial: nat)

  predicate Dirties(w: DeviceWrite, b: nat) {
    w.region.Buffer? && w.region.range.Covers(b)
  }

  predicate Clash(v: DeviceWrite, w: DeviceWrite) {
    && v.region.Buffer?
    && w.region.Buffer?
    && v.region.range.offset < w.region.range.End()
    && w.region.range.offset < v.region.range.End()
  }

  /** Buffer regions are non-empty and pairwise disjoint. */
  ghost predicate Sound(ws: seq<DeviceWrite>) {
    && (forall i :: 0 <= i < |ws| && ws[i].region.Buffer? ==> ws[i].region.range.size > 0)
    && (forall i, j :: 0 <= i < j < |ws| ==> !Clash(ws[i], ws[j]))
  }

  ghost predicate DirtyAt(ws: seq<DeviceWrite>, i: int, b: nat) {
    0 <= i < |ws| && Dirties(ws[i], b)
  }

  /** The serial of the last device write of byte `b` that has not been brought back. */
  ghost function LastSerial(ws: seq<DeviceWrite>, b: nat): Option<nat> {
    if exists i :: DirtyAt(ws, i, b) then
      var i :| DirtyAt(ws, i, b);
      Some(ws[i].serial)
    else
      None
  }

  lemma DirtyUnique(ws: seq<DeviceWrite>, i: int, j: int, b: nat)
    requires Sound(ws) && DirtyAt(ws, i, b) && DirtyAt(ws, j, b)
    ensures i == j
  {
  }

  lemma SerialAt(ws: seq<DeviceWrite>, i: int, b: nat)
    requires Sound(ws) && DirtyAt(ws, i, b)
    ensures LastSerial(ws, b) == Some(ws[i].serial)
  {
    forall j | DirtyAt(ws, j, b)
      ensures j == i
    {
      DirtyUnique(ws, i, j, b);
    }
  }

  // ---- carving -----------------------------------------------------------------------------

  /** A region the carving loop removes: it overlaps the range and carries a wanted serial. */
  predicate Struck(w: DeviceWrite, range: TransferRange, serial: Option<nat>) {
    && w.region.Buffer?
    && (serial.Some? ==> w.serial == serial.value)
    && range.offset < w.region.range.End()
    && w.region.range.offset < range.End()
  }

  /** What is left of a struck region on either side of the range. */
  function Remains(w: DeviceWrite, range: TransferRange): seq<DeviceWrite>
    requires w.region.Buffer?
  {
    var was := w.region.range;
    (if was.offset < range.offset
     then [DeviceWrite(Buffer(TransferRange(was.offset, range.offset - was.offset)), w.serial)] else [])
    + (if range.End() < was.End()
       then [DeviceWrite(Buffer(TransferRange(range.End(), was.End() - range.End())), w.serial)] else [])
  }

  function SwapRemove(ws: seq<DeviceWrite>, i: nat): seq<DeviceWrite>
    requires i < |ws|
  {
    var last := |ws| - 1;
    if i == last then ws[..last] else ws[..last][i := ws[last]]
  }

  /** Where element `k` of the vector after a swap-remove came from. */
  function Source(ws: seq<DeviceWrite>, i: nat, k: nat): nat
    requires i < |ws|
  {
    if k == i then |ws| - 1 else k
  }

  function Carve(ws: seq<DeviceWrite>, i: nat, range: TransferRange): seq<DeviceWrite>
    requires i < |ws| && ws[i].region.Buffer?
  {
    SwapRemove(ws, i) + Remains(ws[i], range)
  }

  lemma RemainsInside(w: DeviceWrite, range: TransferRange, v: DeviceWrite)
    requires w.region.Buffer? && w.region.range.size > 0
    requires range.offset < w.region.range.End() && w.region.range.offset < range.End()
    requires v in Remains(w, range)
    ensures v.region.Buffer? && v.region.range.size > 0 && v.serial == w.serial
    ensures w.region.range.offset <= v.region.range.offset && v.region.range.End() <= w.region.range.End()
    ensures v.region.range.End() <= range.offset || range.End() <= v.region.range.offset
  {
  }

  lemma CarveIsSound(ws: seq<DeviceWrite>, i: nat, range: TransferRange)
    requires Sound(ws) && i < |ws| && Struck(ws[i], range, None)
    ensures Sound(Carve(ws, i, range))
  {
    var ws', base := Carve(ws, i, range), |ws| - 1;
    forall k | 0 <= k < |ws'| && ws'[k].region.Buffer?
      ensures ws'[k].region.range.size > 0
    {
      if k < base {
        assert ws'[k] == ws[Source(ws, i, k)];
      } else {
        RemainsInside(ws[i], range, ws'[k]);
      }
    }
    forall k, l | 0 <= k < l < |ws'|
      ensures !Clash(ws'[k], ws'[l])
    {
      CarvePair(ws, i, range, k, l);
    }
  }

  lemma CarvePair(ws: seq<DeviceWrite>, i: nat, range: TransferRange, k: nat, l: nat)
    requires Sound(ws) && i < |ws| && Struck(ws[i], range, None)
    requires k < l < |Carve(ws, i, range)|
    ensures !Clash(Carve(ws, i, range)[k], Carve(ws, i, range)[l])
  {
    var ws', base := Carve(ws, i, range), |ws| - 1;
    if l < base {
      var p, q := Source(ws, i, k), Source(ws, i, l);
      assert ws'[k] == ws[p] && ws'[l] == ws[q];
      assert p < q ==> !Clash(ws[p], ws[q]);
      assert q < p ==> !Clash(ws[q], ws[p]);
    } else if k < base {
      var p := Source(ws, i, k);
      assert ws'[k] == ws[p];
      RemainsInside(ws[i], range, ws'[l]);
      assert p < i ==> !Clash(ws[p], ws[i]);
      assert i < p ==> !Clash(ws[i], ws[p]);
    }
  }

  /** Carving one region erases exactly its bytes inside the range. */
  lemma CarveMeaning(ws: seq<DeviceWrite>, i: nat, range: TransferRange, b: nat)
    requires Sound(ws) && i < |ws| && Struck(ws[i], range, None)
    requires Sound(Carve(ws, i, range))
    ensures LastSerial(Carve(ws, i, range), b)
         == if Dirties(ws[i], b) && range.Covers(b) then None else LastSerial(ws, b)
  {
    var ws' := Carve(ws, i, range);
    if Dirties(ws[i], b) && range.Covers(b) {
      forall k
        ensures !DirtyAt(ws', k, b)
      {
        if DirtyAt(ws', k, b) {
          var p := CarveOrigin(ws, i, range, k, b);
          DirtyUnique(ws, i, p, b);
        }
      }
    } else if j :| DirtyAt(ws, j, b) {
      SerialAt(ws, j, b);
      var k := CarveKeeps(ws, i, range, j, b);
      SerialAt(ws', k, b);
    } else {
      forall k
        ensures !DirtyAt(ws', k, b)
      {
        if DirtyAt(ws', k, b) {
          var p := CarveOrigin(ws, i, range, k, b);
        }
      }
    }
  }

  /** A dirty byte of the carved vector was dirty before, in another region or outside the range. */
  lemma CarveOrigin(ws: seq<DeviceWrite>, i: nat, range: TransferRange, k: nat, b: nat) returns (p: nat)
    requires Sound(ws) && i < |ws| && Struck(ws[i], range, None)
    requires DirtyAt(Carve(ws, i, range), k, b)
    ensures DirtyAt(ws, p, b) && (p == i ==> !range.Covers(b))
  {
    var ws', base := Carve(ws, i, range), |ws| - 1;
    if k < base {
      p := Source(ws, i, k);
      assert ws'[k] == ws[p];
    } else {
      p := i;
      RemainsInside(ws[i], range, ws'[k]);
    }
  }

  /** A byte not erased stays dirty with its serial. */
  lemma CarveKeeps(ws: seq<DeviceWrite>, i: nat, range: TransferRange, j: int, b: nat) returns (k: nat)
    requires Sound(ws) && i < |ws| && Struck(ws[i], range, None)
    requires DirtyAt(ws, j, b) && !(j == i && range.Covers(b))
    ensures DirtyAt(Carve(ws, i, range), k, b)
    ensures Carve(ws, i, range)[k].serial == ws[j].serial
  {
    var ws', base := Carve(ws, i, range), |ws| - 1;
    if j != i {
      k := if j == base then i else j;
      assert ws'[k] == ws[j];
    } else {
      var rest := Remains(ws[i], range);
      var r := if b < range.offset then 0 else |rest| - 1;
      k := base + r;
      assert ws'[k] == rest[r];
    }
  }

  // ---- counting ----------------------------------------------------------------------------

  datatype Measure = Pieces | Strikes

  function Weight(m: Measure, w: DeviceWrite, range: TransferRange, serial: Option<nat>): nat {
    match m
    case Pieces => if Struck(w, range, serial) then |Remains(w, range)| else 1
    case Strikes => if Struck(w, range, serial) then 1 else 0
  }

  function Total(m: Measure, ws: seq<DeviceWrite>, range: TransferRange, serial: Option<nat>): nat {
    if ws == [] then 0 else Weight(m, ws[0], range, serial) + Total(m, ws[1..], range, serial)
  }

  lemma {:induction false} TotalAppend(m: Measure, vs: seq<DeviceWrite>, ws: seq<DeviceWrite>, range: TransferRange, serial: Option<nat>)
    ensures Total(m, vs + ws, range, serial) == Total(m, vs, range, serial) + Total(m, ws, range, serial)
  {
    if vs == [] {
      assert vs + ws == ws;
    } else {
      TotalAppend(m, vs[1..], ws, range, serial);
      assert (vs + ws)[1..] == vs[1..] + ws;
    }
  }

  lemma TotalSwapRemove(m: Measure, ws: seq<DeviceWrite>, i: nat, range: TransferRange, serial: Option<nat>)
    requires i < |ws|
    ensures Total(m, SwapRemove(ws, i), range, serial) + Weight(m, ws[i], range, serial) == Total(m, ws, range, serial)
  {
    var last := |ws| - 1;
    if i < last {
      AroundIndex(ws, i);
      AroundSwap(ws, i);
      TotalOfParts(m, ws[..i], ws[i], ws[i + 1..last], ws[last], range, serial);
    } else {
      TotalOne(m, ws[..last], ws[last], range, serial);
      assert ws == ws[..last] + [ws[last]];
    }
  }

  lemma TotalOne(m: Measure, ws: seq<DeviceWrite>, w: DeviceWrite, range: TransferRange, serial: Option<nat>)
    ensures Total(m, ws + [w], range, serial) == Total(m, ws, range, serial) + Weight(m, w, range, serial)
  {
    TotalAppend(m, ws, [w], range, serial);
    assert [w][1..] == [];
  }

  /** Moving the last element into the place of another removes that other's weight. */
  lemma TotalOfParts(m: Measure, a: seq<DeviceWrite>, x: DeviceWrite, b: seq<DeviceWrite>, y: DeviceWrite, range: TransferRange, serial: Option<nat>)
    ensures Total(m, a + [y] + b, range, serial) + Weight(m, x, range, serial) == Total(m, a + [x] + b + [y], range, serial)
  {
    TotalOne(m, a, y, range, serial);
    TotalAppend(m, a + [y], b, range, serial);
    TotalOne(m, a, x, range, serial);
    TotalAppend(m, a + [x], b, range, serial);
    TotalOne(m, a + [x] + b, y, range, serial);
  }

  lemma TotalSplit(m: Measure, ws: seq<DeviceWrite>, i: nat, range: TransferRange, serial: Option<nat>)
    requires i < |ws|
    ensures Total(m, ws, range, serial)
         == Total(m, ws[..i], range, serial) + Weight(m, ws[i], range, serial) + Total(m, ws[i + 1..], range, serial)
  {
    assert ws == ws[..i] + ws[i..];
    TotalAppend(m, ws[..i], ws[i..], range, serial);
    assert ws[i..][1..] == ws[i + 1..];
  }

  /** Carving moves one strike into the pieces it leaves; the piece total does not change. */
  lemma CarveTotals(ws: seq<DeviceWrite>, i: nat, range: TransferRange, serial: Option<nat>)
    requires Sound(ws) && i < |ws| && Struck(ws[i], range, serial)
    ensures Total(Pieces, Carve(ws, i, range), range, serial) == Total(Pieces, ws, range, serial)
    ensures Total(Strikes, Carve(ws, i, range), range, serial) + 1 == Total(Strikes, ws, range, serial)
  {
    var rest := Remains(ws[i], range);
    TotalSwapRemove(Pieces, ws, i, range, serial);
    TotalSwapRemove(Strikes, ws, i, range, serial);
    TotalAppend(Pieces, SwapRemove(ws, i), rest, range, serial);
    TotalAppend(Strikes, SwapRemove(ws, i), rest, range, serial);
    RemainsTotals(ws[i], range, serial);
  }

  lemma RemainsTotals(w: DeviceWrite, range: TransferRange, serial: Option<nat>)
    requires Struck(w, range, serial) && w.region.range.size > 0
    ensures Total(Pieces, Remains(w, range), range, serial) == |Remains(w, range)|
    ensures Total(Strikes, Remains(w, range), range, serial) == 0
  {
    var rest := Remains(w, range);
    forall v | v in rest
      ensures !Struck(v, range, serial)
    {
      RemainsInside(w, range, v);
    }
    NoStrikes(rest, range, serial);
  }

  lemma {:induction false} NoStrikes(ws: seq<DeviceWrite>, range: TransferRange, serial: Option<nat>)
    requires forall i :: 0 <= i < |ws| ==> !Struck(ws[i], range, serial)
    ensures Total(Pieces, ws, range, serial) == |ws| && Total(Strikes, ws, range, serial) == 0
  {
    if ws != [] {
      NoStrikes(ws[1..], range, serial);
    }
  }

  /** A region reaching past both ends of the range; disjointness allows at most one. */
  predicate Straddles(w: DeviceWrite, range: TransferRange) {
    w.region.Buffer? && w.region.range.offset < range.offset && range.End() < w.region.range.End()
  }

  lemma {:induction false} AtMostOneExtra(ws: seq<DeviceWrite>, range: TransferRange, serial: Option<nat>)
    requires Sound(ws)
    ensures Total(Pieces, ws, range, serial) <= |ws| + 1
    ensures (forall i :: 0 <= i < |ws| ==> !Straddles(ws[i], range)) ==> Total(Pieces, ws, range, serial) <= |ws|
  {
    if ws != [] {
      assert Sound(ws[1..]);
      AtMostOneExtra(ws[1..], range, serial);
      if Straddles(ws[0], range) {
        forall i | 0 <= i < |ws[1..]|
          ensures !Straddles(ws[1..][i], range)
        {
          assert !Clash(ws[0], ws[i + 1]);
        }
      }
    }
  }

  /** Region `i` is struck and sticks out of the range on both sides, so it is cut in two. */
  predicate Splits(ws: seq<DeviceWrite>, i: nat, range: TransferRange, serial: Option<nat>) {
    i < |ws| && Struck(ws[i], range, serial) && Straddles(ws[i], range)
  }

  /** Only the region around the range can be struck when one is cut in two. */
  lemma SplitStandsAlone(ws: seq<DeviceWrite>, i: nat, j: nat, range: TransferRange, serial: Option<nat>)
    requires Sound(ws) && Splits(ws, i, range, serial) && j < |ws| && j != i
    ensures !Struck(ws[j], range, serial)
  {
    assert i < j ==> !Clash(ws[i], ws[j]);
    assert j < i ==> !Clash(ws[j], ws[i]);
  }

  lemma {:induction false} NoSplitNoGrowth(ws: seq<DeviceWrite>, range: TransferRange, serial: Option<nat>)
    requires forall i: nat :: !Splits(ws, i, range, serial)
    ensures Total(Pieces, ws, range, serial) <= |ws|
  {
    if ws != [] {
      assert !Splits(ws, 0, range, serial);
      forall i: nat
        ensures !Splits(ws[1..], i, range, serial)
      {
        assert !Splits(ws, i + 1, range, serial);
      }
      NoSplitNoGrowth(ws[1..], range, serial);
    }
  }

  /** The vector grows exactly when some region is cut in two, and then by one. */
  lemma GrowsExactlyWhenSplit(ws: seq<DeviceWrite>, range: TransferRange, serial: Option<nat>)
    requires Sound(ws)
    ensures Total(Pieces, ws, range, serial) > |ws| <==> exists i: nat :: Splits(ws, i, range, serial)
  {
    if i: nat :| Splits(ws, i, range, serial) {
      TotalSplit(Pieces, ws, i, range, serial);
      forall j | 0 <= j < |ws| && j != i
        ensures !Struck(ws[j], range, serial)
      {
        SplitStandsAlone(ws, i, j, range, serial);
      }
      NoStrikes(ws[..i], range, serial);
      NoStrikes(ws[i + 1..], range, serial);
    } else {
      NoSplitNoGrowth(ws, range, serial);
    }
  }

  // ---- the loops ---------------------------------------------------------------------------

  ghost predicate SameImages(vs: seq<DeviceWrite>, ws: seq<DeviceWrite>) {
    forall w: DeviceWrite :: w.region.ImageBinding? ==> multiset(vs)[w] == multiset(ws)[w]
  }

  lemma SwapParts(a: seq<DeviceWrite>, x: DeviceWrite, b: seq<DeviceWrite>, y: DeviceWrite)
    ensures multiset(a + [y] + b) + multiset{x} == multiset(a + [x] + b + [y])
  {
  }

  lemma AroundIndex(ws: seq<DeviceWrite>, i: nat)
    requires i < |ws| - 1
    ensures ws == ws[..i] + [ws[i]] + ws[i + 1..|ws| - 1] + [ws[|ws| - 1]]
  {
  }

  lemma AroundSwap(ws: seq<DeviceWrite>, i: nat)
    requires i < |ws| - 1
    ensures SwapRemove(ws, i) == ws[..i] + [ws[|ws| - 1]] + ws[i + 1..|ws| - 1]
  {
  }

  lemma SwapRemoveContents(ws: seq<DeviceWrite>, i: nat)
    requires i < |ws|
    ensures multiset(SwapRemove(ws, i)) + multiset{ws[i]} == multiset(ws)
  {
    var last := |ws| - 1;
    if i == last {
      assert ws == ws[..last] + [ws[last]];
    } else {
      AroundIndex(ws, i);
      AroundSwap(ws, i);
      SwapParts(ws[..i], ws[i], ws[i + 1..last], ws[last]);
    }
  }

  lemma RemainsHoldNoImage(w: DeviceWrite, range: TransferRange, image: DeviceWrite)
    requires w.region.Buffer? && image.region.ImageBinding?
    ensures multiset(Remains(w, range))[image] == 0
  {
    assert image !in Remains(w, range);
  }

  lemma CarveImages(ws: seq<DeviceWrite>, i: nat, range: TransferRange)
    requires i < |ws| && ws[i].region.Buffer?
    ensures SameImages(ws, Carve(ws, i, range))
  {
    SwapRemoveContents(ws, i);
    var kept, rest := SwapRemove(ws, i), Remains(ws[i], range);
    assert multiset(kept + rest) == multiset(kept) + multiset(rest);
    forall w: DeviceWrite | w.region.ImageBinding?
      ensures multiset(ws)[w] == multiset(kept + rest)[w]
    {
      RemainsHoldNoImage(ws[i], range, w);
    }
  }

  /** Whether byte `b` is to be erased: it lies in the range and carries a wanted serial. */
  ghost predicate Erased(v: Option<nat>, range: TransferRange, serial: Option<nat>, b: nat) {
    v.Some? && range.Covers(b) && (serial.Some? ==> v == serial)
  }

  ghost predicate ErasedSoFar(ws0: seq<DeviceWrite>, ws: seq<DeviceWrite>, range: TransferRange, serial: Option<nat>) {
    forall b :: LastSerial(ws, b) == LastSerial(ws0, b)
             || (LastSerial(ws, b).None? && Erased(LastSerial(ws0, b), range, serial, b))
  }

  ghost predicate CarveInvariant(ws0: seq<DeviceWrite>, ws: seq<DeviceWrite>, index: nat, range: TransferRange, serial: Option<nat>) {
    && Sound(ws)
    && index <= |ws|
    && (forall k :: 0 <= k < index ==> !Struck(ws[k], range, serial))
    && Total(Pieces, ws, range, serial) == Total(Pieces, ws0, range, serial)
    && SameImages(ws0, ws)
    && ErasedSoFar(ws0, ws, range, serial)
  }

  lemma CarveStep(ws0: seq<DeviceWrite>, ws: seq<DeviceWrite>, index: nat, range: TransferRange, serial: Option<nat>)
    requires CarveInvariant(ws0, ws, index, range, serial)
    requires index < |ws| && Struck(ws[index], range, serial)
    ensures CarveInvariant(ws0, Carve(ws, index, range), index, range, serial)
    ensures Total(Strikes, Carve(ws, index, range), range, serial) < Total(Strikes, ws, range, serial)
  {
    var ws' := Carve(ws, index, range);
    CarveIsSound(ws, index, range);
    CarveTotals(ws, index, range, serial);
    CarveImages(ws, index, range);
    forall b
      ensures LastSerial(ws', b) == LastSerial(ws0, b)
           || (LastSerial(ws', b).None? && Erased(LastSerial(ws0, b), range, serial, b))
    {
      CarveMeaning(ws, index, range, b);
      if Dirties(ws[index], b) {
        SerialAt(ws, index, b);
      }
    }
  }

  /** The loop is done: no region is struck any more, so exactly the wanted bytes are gone. */
  lemma CarveDone(ws0: seq<DeviceWrite>, ws: seq<DeviceWrite>, range: TransferRange, serial: Option<nat>, b: nat)
    requires CarveInvariant(ws0, ws, |ws|, range, serial)
    ensures LastSerial(ws, b) == if Erased(LastSerial(ws0, b), range, serial, b) then None else LastSerial(ws0, b)
  {
    if Erased(LastSerial(ws0, b), range, serial, b) {
      forall i
        ensures !DirtyAt(ws, i, b)
      {
        if DirtyAt(ws, i, b) {
          SerialAt(ws, i, b);
        }
      }
    }
  }

  /** Swap-removes one region and pushes back what sticks out of the range. */
  method CarveAt(ws: seq<DeviceWrite>, index: nat, range: TransferRange) returns (ws': seq<DeviceWrite>)
    requires index < |ws| && ws[index].region.Buffer?
    ensures ws' == Carve(ws, index, range)
  {
    var was, serial := ws[index].region.range, ws[index].serial;
    ws' := SwapRemove(ws, index);
    if was.offset < range.offset {
      ws' := ws' + [DeviceWrite(Buffer(TransferRange(was.offset, range.offset - was.offset)), serial)];
    }
    if range.End() < was.End() {
      ws' := ws' + [DeviceWrite(Buffer(TransferRange(range.End(), was.End() - range.End())), serial)];
    }
  }

  /**
   Erases the range from the tracker, for one serial or for all. The swap-remove loop ends, the
   regions stay sound, and the vector grows by at most one.
   */
  method SubtractBufferWriteRange(writes: seq<DeviceWrite>, completed: TransferRange, serial: Option<nat>) returns (ws: seq<DeviceWrite>)
    requires Sound(writes)
    ensures Sound(ws) && SameImages(writes, ws)
    ensures forall b :: LastSerial(ws, b)
                     == if Erased(LastSerial(writes, b), completed, serial, b) then None else LastSerial(writes, b)
    ensures |ws| == Total(Pieces, writes, completed, serial) <= |writes| + 1
    ensures |ws| > |writes| <==> exists i: nat :: Splits(writes, i, completed, serial)
    ensures (forall i :: 0 <= i < |writes| ==> !Struck(writes[i], completed, serial)) ==> ws == writes
  {
    ws := writes;
    var index := 0;
    while index < |ws|
      invariant CarveInvariant(writes, ws, index, completed, serial)
      invariant (forall i :: 0 <= i < |writes| ==> !Struck(writes[i], completed, serial)) ==> ws == writes
      decreases Total(Strikes, ws, completed, serial), |ws| - index
    {
      if !Struck(ws[index], completed, serial) {
        index := index + 1;
        continue;
      }
      CarveStep(writes, ws, index, completed, serial);
      ws := CarveAt(ws, index, completed);
    }
    forall b
      ensures LastSerial(ws, b)
           == if Erased(LastSerial(writes, b), completed, serial, b) then None else LastSerial(writes, b)
    {
      CarveDone(writes, ws, completed, serial, b);
    }
    NoStrikes(ws, completed, serial);
    AtMostOneExtra(writes, completed, serial);
    GrowsExactlyWhenSplit(writes, completed, serial);
  }

  datatype TrackerError = RangeOverflow | RegionBudgetExhausted

  /** One more region, over bytes no region has: a pointwise update. */
  lemma AppendMeaning(ws: seq<DeviceWrite>, written: TransferRange, serial: nat, b: nat)
    requires Sound(ws) && written.size > 0
    requires forall c :: written.Covers(c) ==> LastSerial(ws, c).None?
    ensures Sound(ws + [DeviceWrite(Buffer(written), serial)])
    ensures LastSerial(ws + [DeviceWrite(Buffer(written), serial)], b)
         == if written.Covers(b) then Some(serial) else LastSerial(ws, b)
  {
    var w := DeviceWrite(Buffer(written), serial);
    var ws' := ws + [w];
    forall i | 0 <= i < |ws|
      ensures !Clash(ws[i], w)
    {
      if Clash(ws[i], w) {
        var c := Max(ws[i].region.range.offset, written.offset);
        SerialAt(ws, i, c);
      }
    }
    if written.Covers(b) {
      SerialAt(ws', |ws|, b);
    } else if i :| DirtyAt(ws, i, b) {
      SerialAt(ws, i, b);
      SerialAt(ws', i, b);
    } else {
      assert forall i :: DirtyAt(ws', i, b) ==> DirtyAt(ws, i, b);
    }
  }

  /** The number of regions a recording would leave, counted before anything is changed. */
  method ResultingRegions(writes: seq<DeviceWrite>, written: TransferRange) returns (resulting: nat)
    ensures resulting == 1 + Total(Pieces, writes, written, None)
  {
    resulting := 1;
    for i := 0 to |writes|
      invariant resulting == 1 + Total(Pieces, writes[..i], written, None)
    {
      assert writes[..i + 1] == writes[..i] + [writes[i]];
      TotalAppend(Pieces, writes[..i], [writes[i]], written, None);
      if !Struck(writes[i], written, None) {
        resulting := resulting + 1;
      } else {
        var was := writes[i].region.range;
        resulting := resulting + (if was.offset < written.offset then 1 else 0) + (if was.End() > written.End() then 1 else 0);
      }
    }
    assert writes[..|writes|] == writes;
  }

  lemma AppendedImages(vs: seq<DeviceWrite>, ws: seq<DeviceWrite>, written: TransferRange, serial: nat)
    requires SameImages(vs, ws)
    ensures SameImages(vs, ws + [DeviceWrite(Buffer(written), serial)])
  {
  }

  /**
   Records a device write. It is refused, leaving the tracker as it was, exactly when the range
   overflows or the resulting number of regions, computed up front, exceeds the budget.
   */
  method RecordBufferDeviceWrite(writes: seq<DeviceWrite>, written: TransferRange, serial: nat) returns (r: Result<seq<DeviceWrite>, TrackerError>)
    requires Sound(writes) && written.size > 0
    ensures r.Err? <==> written.End() >= U64_SIZE || 1 + Total(Pieces, writes, written, None) > 256
    ensures r.Err? ==> r.error == if written.End() >= U64_SIZE then RangeOverflow else RegionBudgetExhausted
    ensures r.Ok? ==> Sound(r.value) && SameImages(writes, r.value)
    ensures r.Ok? ==> forall b :: LastSerial(r.value, b) == if written.Covers(b) then Some(serial) else LastSerial(writes, b)
    ensures r.Ok? ==> |r.value| == 1 + Total(Pieces, writes, written, None) <= 256
    ensures r.Ok? && (forall i :: 0 <= i < |writes| ==> !Struck(writes[i], written, None)) ==>
              r.value == writes + [DeviceWrite(Buffer(written), serial)]
  {
    if written.End() >= U64_SIZE {
      return Err(RangeOverflow);
    }
    var resulting := ResultingRegions(writes, written);
    if resulting > MAX_DEVICE_WRITE_REGIONS {
      return Err(RegionBudgetExhausted);
    }
    var carved := SubtractBufferWriteRange(writes, written, None);
    var ws := carved + [DeviceWrite(Buffer(written), serial)];
    AppendMeaning(carved, written, serial, 0);
    forall b
      ensures LastSerial(ws, b) == if written.Covers(b) then Some(serial) else LastSerial(writes, b)
    {
      AppendMeaning(carved, written, serial, b);
    }
    AppendedImages(writes, carved, written, serial);
    return Ok(ws);
  }
}
