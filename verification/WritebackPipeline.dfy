/**
 Ordering, coalescing and completing the demanded writebacks of one page.
 */
module WritebackPipeline {
  import opened Primitives
  import opened OrderedMaps
  import opened CanonicalMemory
  import opened DeviceWrites
  import opened Writebacks

  function OrderOffset(d: Demand): nat {
    if d.BufferDemand? then d.range.offset else d.binding
  }

  /** The source's sort key: serial, then handle, then offset or binding. */
  ghost predicate NotAfter(c: Demand, d: Demand) {
    c.serial < d.serial
    || (c.serial == d.serial && (c.handle < d.handle || (c.handle == d.handle && PlaceOf(c) <= PlaceOf(d))))
  }

  ghost function PlaceOf(d: Demand): nat {
    match d
    case BufferDemand(_, _, range, _) => range.offset
    case ImageDemand(_, _, binding) => binding
  }

  ghost predicate Ordered(ds: seq<Demand>) {
    forall i, j :: 0 <= i < j < |ds| ==> NotAfter(ds[i], ds[j])
  }

  /** Everything up to place `k` is not after `d`, and the demand at `k` is. */
  ghost predicate Place(ds: seq<Demand>, d: Demand, k: nat) {
    && k <= |ds|
    && (forall j :: 0 <= j < k ==> NotAfter(ds[j], d))
    && (k < |ds| ==> !NotAfter(ds[k], d))
  }

  lemma InsertedInOrder(ds: seq<Demand>, d: Demand, k: nat)
    requires Ordered(ds) && Place(ds, d, k)
    ensures Ordered(ds[..k] + [d] + ds[k..])
  {
    var r := ds[..k] + [d] + ds[k..];
    forall j | k <= j < |ds|
      ensures NotAfter(d, ds[j])
    {
      assert j > k ==> NotAfter(ds[k], ds[j]);
    }
    forall i, j | 0 <= i < j < |r|
      ensures NotAfter(r[i], r[j])
    {
      assert r[i] == if i < k then ds[i] else if i == k then d else ds[i - 1];
      assert r[j] == if j < k then ds[j] else if j == k then d else ds[j - 1];
    }
  }

  lemma InsertedElements(ds: seq<Demand>, d: Demand, k: nat)
    requires k <= |ds|
    ensures multiset(ds[..k] + [d] + ds[k..]) == multiset(ds) + multiset{d}
  {
    assert ds == ds[..k] + ds[k..];
  }

  method InsertDemand(ds: seq<Demand>, d: Demand) returns (r: seq<Demand>)
    requires Ordered(ds)
    ensures Ordered(r) && multiset(r) == multiset(ds) + multiset{d}
  {
    var k := 0;
    while k < |ds|
      && (ds[k].serial < d.serial
          || (ds[k].serial == d.serial
              && (ds[k].handle < d.handle || (ds[k].handle == d.handle && OrderOffset(ds[k]) <= OrderOffset(d)))))
      invariant 0 <= k <= |ds|
      invariant forall j :: 0 <= j < k ==> NotAfter(ds[j], d)
    {
      k := k + 1;
    }
    InsertedInOrder(ds, d, k);
    InsertedElements(ds, d, k);
    return ds[..k] + [d] + ds[k..];
  }

  /** Sorting by key; nothing but the order and the elements matters. */
  method SortDemands(ds: seq<Demand>) returns (sorted: seq<Demand>)
    ensures Ordered(sorted)
    ensures multiset(sorted) == multiset(ds)
  {
    sorted := [];
    for i := 0 to |ds|
      invariant Ordered(sorted)
      invariant multiset(sorted) == multiset(ds[..i])
    {
      assert ds[..i + 1] == ds[..i] + [ds[i]];
      sorted := InsertDemand(sorted, ds[i]);
    }
    assert ds[..|ds|] == ds;
  }

  // ---- coalescing --------------------------------------------------------------------------

  /** `d` continues `c` both in the buffer and on the page. */
  predicate Mergeable(c: Demand, d: Demand) {
    && c.BufferDemand? && d.BufferDemand?
    && c.handle == d.handle
    && c.serial == d.serial
    && c.range.End() == d.range.offset
    && c.pageOffset + c.range.size == d.pageOffset
  }

  function Merged(c: Demand, d: Demand): Demand
    requires Mergeable(c, d)
  {
    c.(range := TransferRange(c.range.offset, c.range.size + d.range.size))
  }

  /** One more demand: merged into the last one when it continues it. */
  function Push(out: seq<Demand>, d: Demand): seq<Demand> {
    if out != [] && Mergeable(out[|out| - 1], d) then
      out[..|out| - 1] + [Merged(out[|out| - 1], d)]
    else
      out + [d]
  }

  function Coalesced(ds: seq<Demand>): seq<Demand> {
    if ds == [] then [] else Push(Coalesced(ds[..|ds| - 1]), ds[|ds| - 1])
  }

  ghost predicate NoneMergeable(ds: seq<Demand>) {
    forall i :: 0 < i < |ds| ==> !Mergeable(ds[i - 1], ds[i])
  }

  lemma CoalescedOneMore(ds: seq<Demand>, k: nat)
    requires k < |ds|
    ensures Coalesced(ds[..k + 1]) == Push(Coalesced(ds[..k]), ds[k])
  {
    assert ds[..k + 1][..k] == ds[..k];
  }

  /** One compaction step: merge into the last kept demand, or keep the current one. */
  method CompactOne(ds: seq<Demand>, output: nat, current: Demand) returns (ds': seq<Demand>, output': nat)
    requires output < |ds|
    ensures |ds'| == |ds| && output <= output' <= output + 1
    ensures ds'[..output'] == Push(ds[..output], current)
    ensures forall k :: output < k < |ds| ==> ds'[k] == ds[k]
  {
    if output != 0 && Mergeable(ds[output - 1], current) {
      ds', output' := ds[output - 1 := Merged(ds[output - 1], current)], output;
    } else {
      ds', output' := ds[output := current], output + 1;
    }
  }

  /** The in-place compaction: a write index trails the read index and the vector is truncated. */
  method CoalesceDemands(demands: seq<Demand>) returns (ds: seq<Demand>)
    ensures ds == Coalesced(demands)
  {
    ds := demands;
    var output := 0;
    for input := 0 to |demands|
      invariant |ds| == |demands| && output <= input
      invariant ds[..output] == Coalesced(demands[..input])
      invariant forall k :: input <= k < |ds| ==> ds[k] == demands[k]
    {
      CoalescedOneMore(demands, input);
      ds, output := CompactOne(ds, output, ds[input]);
    }
    assert demands[..|demands|] == demands;
    ds := ds[..output];
  }

  lemma PushKeepsTransfers(out: seq<Demand>, d: Demand, h: nat, s: nat, b: nat, p: nat)
    ensures AnyMoves(Push(out, d), h, s, b, p) <==> AnyMoves(out, h, s, b, p) || Moves(d, h, s, b, p)
  {
    if out != [] && Mergeable(out[|out| - 1], d) {
      var last := |out| - 1;
      var m := Merged(out[last], d);
      assert out == out[..last] + [out[last]];
      AnyMovesAppend(out[..last], out[last], h, s, b, p);
      AnyMovesAppend(out[..last], m, h, s, b, p);
      assert Moves(m, h, s, b, p) <==> Moves(out[last], h, s, b, p) || Moves(d, h, s, b, p);
    } else {
      AnyMovesAppend(out, d, h, s, b, p);
    }
  }

  /** Coalescing moves the same bytes to the same places. */
  lemma {:induction false} CoalesceKeepsTransfers(ds: seq<Demand>, h: nat, s: nat, b: nat, p: nat)
    ensures AnyMoves(Coalesced(ds), h, s, b, p) <==> AnyMoves(ds, h, s, b, p)
    decreases |ds|
  {
    if ds != [] {
      var last := |ds| - 1;
      CoalesceKeepsTransfers(ds[..last], h, s, b, p);
      PushKeepsTransfers(Coalesced(ds[..last]), ds[last], h, s, b, p);
      assert ds == ds[..last] + [ds[last]];
      AnyMovesAppend(ds[..last], ds[last], h, s, b, p);
    }
  }

  lemma {:induction false} CoalesceKeepsImages(ds: seq<Demand>, h: nat, s: nat, binding: nat)
    ensures ImageDemand(h, s, binding) in Coalesced(ds) <==> ImageDemand(h, s, binding) in ds
    decreases |ds|
  {
    if ds != [] {
      var last := |ds| - 1;
      CoalesceKeepsImages(ds[..last], h, s, binding);
      var out := Coalesced(ds[..last]);
      assert ds == ds[..last] + [ds[last]];
      if out != [] {
        assert out == out[..|out| - 1] + [out[|out| - 1]];
      }
    }
  }

  lemma PushNoneMergeable(out: seq<Demand>, d: Demand)
    requires NoneMergeable(out)
    ensures NoneMergeable(Push(out, d))
  {
    var next := Push(out, d);
    if out != [] && Mergeable(out[|out| - 1], d) {
      forall i | 0 < i < |next|
        ensures !Mergeable(next[i - 1], next[i])
      {
        assert !Mergeable(out[i - 1], out[i]);
      }
    }
  }

  /** Coalescing leaves no pair of neighbours that could still be merged. */
  lemma {:induction false} CoalesceIsMaximal(ds: seq<Demand>)
    ensures NoneMergeable(Coalesced(ds))
    decreases |ds|
  {
    if ds != [] {
      CoalesceIsMaximal(ds[..|ds| - 1]);
      PushNoneMergeable(Coalesced(ds[..|ds| - 1]), ds[|ds| - 1]);
    }
  }

  ghost predicate AllBefore(ds: seq<Demand>, d: Demand) {
    forall i :: 0 <= i < |ds| ==> NotAfter(ds[i], d)
  }

  lemma PushOrdered(out: seq<Demand>, d: Demand)
    requires Ordered(out) && AllBefore(out, d)
    ensures Ordered(Push(out, d))
  {
  }

  /** A merged demand keeps the place of the one it continues. */
  lemma PushBelow(out: seq<Demand>, c: Demand, d: Demand)
    requires AllBefore(out, d) && NotAfter(c, d)
    ensures AllBefore(Push(out, c), d)
  {
    var next := Push(out, c);
    forall i | 0 <= i < |next|
      ensures NotAfter(next[i], d)
    {
      if i < |out| {
        assert NotAfter(out[i], d);
      }
    }
  }

  lemma {:induction false} CoalesceBelow(ds: seq<Demand>, d: Demand)
    requires AllBefore(ds, d)
    ensures AllBefore(Coalesced(ds), d)
    decreases |ds|
  {
    if ds != [] {
      var last := |ds| - 1;
      CoalesceBelow(ds[..last], d);
      PushBelow(Coalesced(ds[..last]), ds[last], d);
    }
  }

  /** Coalescing an ordered list keeps it ordered. */
  lemma {:induction false} CoalesceOrdered(ds: seq<Demand>)
    requires Ordered(ds)
    ensures Ordered(Coalesced(ds))
    decreases |ds|
  {
    if ds != [] {
      var last := |ds| - 1;
      CoalesceOrdered(ds[..last]);
      CoalesceBelow(ds[..last], ds[last]);
      PushOrdered(Coalesced(ds[..last]), ds[last]);
    }
  }

  ghost predicate NonEmptyRanges(ds: seq<Demand>) {
    forall d :: d in ds && d.BufferDemand? ==> d.range.size > 0
  }

  lemma {:induction false} CoalesceKeepsSizes(ds: seq<Demand>)
    requires NonEmptyRanges(ds)
    ensures NonEmptyRanges(Coalesced(ds))
  {
    if ds != [] {
      CoalesceKeepsSizes(ds[..|ds| - 1]);
    }
  }

  /** Sort, then coalesce. */
  method PrepareDemandedWritebacks(demands: seq<Demand>) returns (ds: seq<Demand>)
    ensures Ordered(ds) && NoneMergeable(ds)
    ensures forall h, s, b, p :: AnyMoves(ds, h, s, b, p) <==> AnyMoves(demands, h, s, b, p)
    ensures forall h, s, binding :: ImageDemand(h, s, binding) in ds <==> ImageDemand(h, s, binding) in demands
    ensures NonEmptyRanges(demands) ==> NonEmptyRanges(ds)
  {
    var sorted := SortDemands(demands);
    ds := CoalesceDemands(sorted);
    CoalesceOrdered(sorted);
    CoalesceIsMaximal(sorted);
    SameElements(sorted, demands);
    if NonEmptyRanges(demands) {
      CoalesceKeepsSizes(sorted);
    }
    forall h, s, b, p
      ensures AnyMoves(ds, h, s, b, p) <==> AnyMoves(demands, h, s, b, p)
    {
      CoalesceKeepsTransfers(sorted, h, s, b, p);
    }
    forall h, s, binding
      ensures ImageDemand(h, s, binding) in ds <==> ImageDemand(h, s, binding) in demands
    {
      CoalesceKeepsImages(sorted, h, s, binding);
    }
  }

  lemma SameElements(ds: seq<Demand>, es: seq<Demand>)
    requires multiset(ds) == multiset(es)
    ensures forall d :: d in ds <==> d in es
  {
    forall d
      ensures d in ds <==> d in es
    {
      assert d in ds <==> d in multiset(ds);
      assert d in es <==> d in multiset(es);
    }
  }

  // ---- completion --------------------------------------------------------------------------

  /** Drops the completed write of one image binding. */
  function WithoutImage(ws: seq<DeviceWrite>, binding: nat, serial: nat): seq<DeviceWrite> {
    if ws == [] then []
    else
      var rest := WithoutImage(ws[1..], binding, serial);
      if ws[0] == DeviceWrite(ImageBinding(binding), serial) then rest else [ws[0]] + rest
  }

  lemma {:induction false} WithoutImageContents(ws: seq<DeviceWrite>, binding: nat, serial: nat)
    ensures forall w :: w in WithoutImage(ws, binding, serial) <==> w in ws && w != DeviceWrite(ImageBinding(binding), serial)
  {
    if ws != [] {
      WithoutImageContents(ws[1..], binding, serial);
      assert forall w :: w in ws <==> w == ws[0] || w in ws[1..];
    }
  }

  lemma {:induction false} WithoutImageSound(ws: seq<DeviceWrite>, binding: nat, serial: nat)
    requires Sound(ws)
    ensures Sound(WithoutImage(ws, binding, serial))
  {
    if ws != [] {
      assert Sound(ws[1..]);
      WithoutImageSound(ws[1..], binding, serial);
      WithoutImageContents(ws[1..], binding, serial);
      var rest := WithoutImage(ws[1..], binding, serial);
      if ws[0] != DeviceWrite(ImageBinding(binding), serial) {
        var all := [ws[0]] + rest;
        forall j | 0 <= j < |rest|
          ensures !Clash(ws[0], rest[j])
        {
          assert rest[j] in ws[1..];
          var k :| 0 <= k < |ws[1..]| && ws[1..][k] == rest[j];
          assert !Clash(ws[0], ws[k + 1]);
        }
      }
    }
  }

  lemma SameContentsSameSerials(vs: seq<DeviceWrite>, ws: seq<DeviceWrite>, b: nat)
    requires Sound(vs) && Sound(ws)
    requires forall w: DeviceWrite :: w.region.Buffer? ==> (w in vs <==> w in ws)
    ensures LastSerial(vs, b) == LastSerial(ws, b)
  {
    if LastSerial(vs, b).Some? {
      DirtyMeansSerial(vs, LastSerial(vs, b).value, b);
      DirtyMeansSerial(ws, LastSerial(vs, b).value, b);
    } else if LastSerial(ws, b).Some? {
      DirtyMeansSerial(vs, LastSerial(ws, b).value, b);
      DirtyMeansSerial(ws, LastSerial(ws, b).value, b);
    }
  }

  ghost predicate SameShape(r: Resource, r': Resource) {
    if r.BufferResource? then r'.BufferResource? && r'.backing == r.backing
    else r'.ImageResource? && r'.bindings == r.bindings
  }

  /** Completing `d` clears byte `b` of buffer `h` when it is dirty at serial `s`. */
  predicate Clears(d: Demand, h: nat, s: nat, b: nat) {
    d.BufferDemand? && d.handle == h && d.serial == s && d.range.Covers(b)
  }

  ghost predicate AnyClears(ds: seq<Demand>, h: nat, s: nat, b: nat) {
    exists d :: d in ds && Clears(d, h, s, b)
  }

  ghost function Cleared(v: Option<nat>, ds: seq<Demand>, h: nat, b: nat): Option<nat> {
    if v.Some? && AnyClears(ds, h, v.value, b) then None else v
  }

  /** Resource `r'` is resource `h`, formerly `r`, with the demands completed. */
  ghost predicate CompletedAs(r: Resource, r': Resource, h: nat, ds: seq<Demand>) {
    && SoundResource(r')
    && SameShape(r, r')
    && (forall b :: LastSerial(r'.writes, b) == Cleared(LastSerial(r.writes, b), ds, h, b))
    && (forall s, binding :: DeviceWrite(ImageBinding(binding), s) in r'.writes <==>
          DeviceWrite(ImageBinding(binding), s) in r.writes && ImageDemand(h, s, binding) !in ds)
  }

  lemma ImagesByCount(vs: seq<DeviceWrite>, ws: seq<DeviceWrite>)
    requires SameImages(vs, ws)
    ensures forall w: DeviceWrite :: w.region.ImageBinding? ==> (w in vs <==> w in ws)
  {
    forall w: DeviceWrite | w.region.ImageBinding?
      ensures w in vs <==> w in ws
    {
      assert w in vs <==> w in multiset(vs);
      assert w in ws <==> w in multiset(ws);
    }
  }

  /** Removes what one completed demand brought back from the tracker of its resource. */
  method CompleteDemandedWriteback(r: Resource, d: Demand) returns (r': Resource)
    requires SoundResource(r)
    ensures CompletedAs(r, r', d.handle, [d])
  {
    if d.BufferDemand? {
      var writes := SubtractBufferWriteRange(r.writes, d.range, Some(d.serial));
      ImagesByCount(r.writes, writes);
      r' := r.(writes := writes);
      CompletedBuffer(r, r', d);
    } else {
      r' := r.(writes := WithoutImage(r.writes, d.binding, d.serial));
      CompletedImage(r, r', d);
    }
  }

  lemma CompletedBuffer(r: Resource, r': Resource, d: Demand)
    requires SoundResource(r) && d.BufferDemand? && r' == r.(writes := r'.writes)
    requires Sound(r'.writes)
    requires forall w: DeviceWrite :: w.region.ImageBinding? ==> (w in r.writes <==> w in r'.writes)
    requires forall b :: LastSerial(r'.writes, b)
                      == if Erased(LastSerial(r.writes, b), d.range, Some(d.serial), b) then None else LastSerial(r.writes, b)
    ensures CompletedAs(r, r', d.handle, [d])
  {
    forall b
      ensures LastSerial(r'.writes, b) == Cleared(LastSerial(r.writes, b), [d], d.handle, b)
    {
      var v := LastSerial(r.writes, b);
      assert d in [d];
      assert v.Some? ==> (Erased(v, d.range, Some(d.serial), b) <==> Clears(d, d.handle, v.value, b));
    }
    if r.ImageResource? {
      forall b
        ensures LastSerial(r'.writes, b).None?
      {
        NoBuffersNoSerials(r.writes, b);
      }
      forall w | w in r'.writes
        ensures w.region.ImageBinding? && w.region.binding < |r.bindings|
      {
        NoSerialsNoBuffers(r'.writes, w);
      }
    }
  }

  lemma NoBuffersNoSerials(writes: seq<DeviceWrite>, b: nat)
    requires forall w :: w in writes ==> w.region.ImageBinding?
    ensures LastSerial(writes, b).None?
  {
    assert forall j :: !DirtyAt(writes, j, b);
  }

  /** A tracker with no dirty buffer byte holds image writes only. */
  lemma NoSerialsNoBuffers(writes: seq<DeviceWrite>, w: DeviceWrite)
    requires Sound(writes) && w in writes
    requires forall b :: LastSerial(writes, b).None?
    ensures w.region.ImageBinding?
  {
    if w.region.Buffer? {
      var i :| 0 <= i < |writes| && writes[i] == w;
      SerialAt(writes, i, w.region.range.offset);
    }
  }

  lemma CompletedImage(r: Resource, r': Resource, d: Demand)
    requires SoundResource(r) && d.ImageDemand?
    requires r' == r.(writes := WithoutImage(r.writes, d.binding, d.serial))
    ensures CompletedAs(r, r', d.handle, [d])
  {
    WithoutImageContents(r.writes, d.binding, d.serial);
    WithoutImageSound(r.writes, d.binding, d.serial);
    forall b
      ensures LastSerial(r'.writes, b) == Cleared(LastSerial(r.writes, b), [d], d.handle, b)
    {
      SameContentsSameSerials(r'.writes, r.writes, b);
    }
  }

  lemma CompletedOneMore(r: Resource, r1: Resource, r2: Resource, h: nat, ds: seq<Demand>, d: Demand)
    requires CompletedAs(r, r1, h, ds)
    requires CompletedAs(r1, r2, h, [d])
    ensures CompletedAs(r, r2, h, ds + [d])
  {
    forall b
      ensures LastSerial(r2.writes, b) == Cleared(LastSerial(r.writes, b), ds + [d], h, b)
    {
      assert forall e :: e in ds + [d] <==> e in ds || e in [d];
    }
  }

  lemma CompletedElsewhere(r: Resource, r1: Resource, h: nat, ds: seq<Demand>, d: Demand)
    requires CompletedAs(r, r1, h, ds) && d.handle != h
    ensures CompletedAs(r, r1, h, ds + [d])
  {
    forall b
      ensures LastSerial(r1.writes, b) == Cleared(LastSerial(r.writes, b), ds + [d], h, b)
    {
      assert forall e :: e in ds + [d] <==> e in ds || e == d;
    }
  }

  ghost predicate AllCompleted(resources: map<nat, Resource>, resources': map<nat, Resource>, ds: seq<Demand>) {
    && resources'.Keys == resources.Keys
    && forall h :: h in resources ==> CompletedAs(resources[h], resources'[h], h, ds)
  }

  ghost predicate AllSound(resources: map<nat, Resource>) {
    forall h :: h in resources ==> SoundResource(resources[h])
  }

  method CompleteAll(resources: map<nat, Resource>, ds: seq<Demand>) returns (resources': map<nat, Resource>)
    requires AllSound(resources)
    requires forall i :: 0 <= i < |ds| ==> ds[i].handle in resources
    ensures AllCompleted(resources, resources', ds)
  {
    resources' := resources;
    for k := 0 to |ds|
      invariant AllCompleted(resources, resources', ds[..k])
    {
      var d := ds[k];
      ghost var before := resources';
      var completed := CompleteDemandedWriteback(resources'[d.handle], d);
      resources' := resources'[d.handle := completed];
      assert ds[..k + 1] == ds[..k] + [d];
      forall h | h in resources
        ensures CompletedAs(resources[h], resources'[h], h, ds[..k + 1])
      {
        if h == d.handle {
          CompletedOneMore(resources[h], before[h], resources'[h], h, ds[..k], d);
        } else {
          CompletedElsewhere(resources[h], resources'[h], h, ds[..k], d);
        }
      }
    }
    assert ds[..|ds|] == ds;
  }

  method CollectAll(resources: map<nat, Resource>, page: nat) returns (ds: seq<Demand>)
    requires AllSound(resources)
    ensures CollectedAll(ds, resources, page)
    ensures NonEmptyRanges(ds)
  {
    ds := [];
    var keys := OrderedKeys(resources);
    ghost var seen: map<nat, Resource> := map[];
    for k := 0 to |keys|
      invariant forall h :: h in seen <==> h in keys[..k]
      invariant forall h :: h in seen ==> seen[h] == resources[h]
      invariant CollectedAll(ds, seen, page)
      invariant NonEmptyRanges(ds)
    {
      assert keys[..k + 1] == keys[..k] + [keys[k]];
      assert keys[k] !in seen;
      var more := CollectDemandedWritebacks(keys[k], resources[keys[k]], page);
      CollectedOneMore(ds, seen, page, keys[k], resources[keys[k]], more);
      ds := ds + more;
      seen := seen[keys[k] := resources[keys[k]]];
    }
    assert keys[..|keys|] == keys;
    assert seen == resources;
  }

  /** Byte `b` of the resource lies on the page. */
  ghost predicate LiesOn(r: Resource, b: nat, page: nat) {
    && r.BufferResource?
    && b < SegmentsSize(r.backing.segments)
    && LocateIn(r.backing.segments, b).page == page
  }

  /** Demanded bytes are on the page, so exactly the dirty bytes on the page are cleared. */
  lemma ClearsExactlyThePage(resources: map<nat, Resource>, ds: seq<Demand>, page: nat, h: nat, b: nat)
    requires CollectedAll(ds, resources, page) && h in resources
    ensures Cleared(LastSerial(resources[h].writes, b), ds, h, b)
         == if LiesOn(resources[h], b, page) then None else LastSerial(resources[h].writes, b)
  {
    var v := LastSerial(resources[h].writes, b);
    if v.Some? && AnyClears(ds, h, v.value, b) {
      var d :| d in ds && Clears(d, h, v.value, b);
      var p := d.pageOffset + (b - d.range.offset);
      assert Moves(d, h, v.value, b, p);
      assert AnyMoves(ds, h, v.value, b, p);
    }
    if v.Some? && LiesOn(resources[h], b, page) {
      var p := LocateIn(resources[h].backing.segments, b).byte;
      assert DirtyOnPage(resources[h], v.value, b, page, p);
      assert AnyMoves(ds, h, v.value, b, p);
      var d :| d in ds && Moves(d, h, v.value, b, p);
      assert Clears(d, h, v.value, b);
    }
  }

  lemma HandlesKnown(resources: map<nat, Resource>, ds: seq<Demand>, page: nat, d: Demand)
    requires CollectedAll(ds, resources, page)
    requires d in ds && (d.BufferDemand? ==> d.range.size > 0)
    ensures d.handle in resources
  {
    if d.BufferDemand? {
      assert Moves(d, d.handle, d.serial, d.range.offset, d.pageOffset);
      assert AnyMoves(ds, d.handle, d.serial, d.range.offset, d.pageOffset);
    } else {
      assert ImageDemand(d.handle, d.serial, d.binding) in ds;
    }
  }

  /** What a demanded download of one page leaves in the tracker of one resource. */
  ghost predicate Materialized(r: Resource, r': Resource, page: nat) {
    && SoundResource(r')
    && SameShape(r, r')
    && (forall b :: LastSerial(r'.writes, b) == if LiesOn(r, b, page) then None else LastSerial(r.writes, b))
    && (forall s, binding :: DeviceWrite(ImageBinding(binding), s) in r'.writes <==>
          DeviceWrite(ImageBinding(binding), s) in r.writes && !ImageOnPage(r, s, binding, page))
  }

  lemma CompletionMaterializes(resources: map<nat, Resource>, ds: seq<Demand>, page: nat, h: nat, r': Resource)
    requires CollectedAll(ds, resources, page) && h in resources
    requires CompletedAs(resources[h], r', h, ds)
    ensures Materialized(resources[h], r', page)
  {
    forall b
      ensures LastSerial(r'.writes, b)
           == if LiesOn(resources[h], b, page) then None else LastSerial(resources[h].writes, b)
    {
      ClearsExactlyThePage(resources, ds, page, h, b);
    }
  }
}
