/**
 GPFIFO command-source retention: every command byte of a submission is resolved and retained
 before any of it is usable, and each retained word can be traced to its own source location.
 */
module Gpfifo {
  import opened Primitives
  import opened CanonicalMemory
  import opened MappingTable
  import opened SpaceModel
  import opened AddressSpace

  datatype Entry = Entry(address: nat, wordCount: u32) {
    function ByteCount(): nat {
      wordCount * 4
    }
  }

  datatype Pushbuffer = Pushbuffer(entryIndex: nat, entry: Entry, source: ResolvedRange)

  datatype Submission = Submission(addressSpace: nat, pushbuffers: seq<Pushbuffer>)

  datatype SourceLocation = SourceLocation(entryIndex: nat, pushbuffer: nat, wordOffset: nat, mapping: nat, generation: nat)

  datatype SourceError =
    | ChannelAddressSpaceUnbound
    | WrongSpace
    | UnknownEntry
    | UnknownWord
    | Resolution(entryIndex: nat, cause: AccessError)
    | StaleSource(location: SourceLocation)
    | Access(error: AccessError)

  /** The range of one entry is completely covered by its retained segments. */
  ghost predicate Retained(p: Pushbuffer) {
    && p.source.offset == p.entry.address
    && p.source.size == 4 * p.entry.wordCount
    && p.source.permissions == {Read}
    && Tiles(p.source.segments, p.source.offset, p.source.size)
    && SegmentsBacked(p.source.segments)
    && p.entry.address + 4 * p.entry.wordCount <= U64_SIZE
  }

  ghost predicate AllRetained(sub: Submission) {
    forall i :: 0 <= i < |sub.pushbuffers| ==>
      && Retained(sub.pushbuffers[i])
      && sub.pushbuffers[i].entryIndex == i
      && sub.pushbuffers[i].source.addressSpace == sub.addressSpace
  }

  ghost predicate AllSourcesCurrent(s: Space, sub: Submission) {
    forall i :: 0 <= i < |sub.pushbuffers| ==> AllCurrent(s, sub.pushbuffers[i].source.segments)
  }

  /** Every byte of the entry can be read. */
  ghost predicate Readable(s: Space, e: Entry) {
    && e.wordCount > 0
    && e.address + 4 * e.wordCount <= s.limit
    && forall a :: e.address <= a < e.address + 4 * e.wordCount ==> Accessible(s, a, {Read})
  }

  /** Entry `k` is the first that cannot be resolved. */
  ghost predicate FirstUnreadable(s: Space, entries: seq<Entry>, k: nat) {
    && k < |entries| && (s.regions.None? || !Readable(s, entries[k]))
    && forall i :: 0 <= i < k ==> Readable(s, entries[i])
  }

  /** Segment `j` of entry `i` has a record that is no longer current, and the location names its first word. */
  ghost predicate StaleAt(s: Space, sub: Submission, i: nat, j: nat, location: SourceLocation) {
    && i < |sub.pushbuffers| && j < |sub.pushbuffers[i].source.segments|
    && var segment := sub.pushbuffers[i].source.segments[j];
       && !Current(s, segment.mapping)
       && location.entryIndex == i && location.pushbuffer == sub.pushbuffers[i].entry.address
       && location.wordOffset == (segment.gpuOffset - location.pushbuffer) / 4
       && location.mapping == segment.mapping.attr.id && location.generation == segment.mapping.generation
  }

  ghost predicate SourcesFail(s: Space, id: nat, sub: Submission, why: SourceError) {
    match why
    case WrongSpace => id != sub.addressSpace
    case StaleSource(location) => exists i: nat, j: nat :: StaleAt(s, sub, i, j, location)
    case _ => false
  }

  lemma ActiveIsBacked(s: Space, segs: seq<ResolvedMapping>)
    requires Inv(s) && AllActive(s, segs)
    ensures SegmentsBacked(segs) && AllCurrent(s, segs)
  {
    forall i | 0 <= i < |segs|
      ensures segs[i].mapping.backingOffset + segs[i].mapping.size <= BackingSize(segs[i].mapping.attr.backing)
      ensures Current(s, segs[i].mapping)
    {
      assert Active(s, segs[i].mapping);
    }
  }

  /** Resolves one entry. */
  method RetainEntry(space: GpuAddressSpace, index: nat, e: Entry) returns (r: Result<Pushbuffer, SourceError>)
    requires space.Valid()
    ensures r.Ok? <==> space.regions.Some? && Readable(space.State(), e)
    ensures r.Ok? ==>
            && r.value.entryIndex == index && r.value.entry == e && r.value.source.addressSpace == space.id
            && Retained(r.value)
            && AllActive(space.State(), r.value.source.segments)
    ensures r.Err? ==> r.error.Resolution? && r.error.entryIndex == index
  {
    var resolved := space.ResolveRange(e.address, e.ByteCount(), {Read});
    if resolved.Err? {
      return Err(Resolution(index, resolved.error));
    }
    ActiveIsBacked(space.State(), resolved.value.segments);
    return Ok(Pushbuffer(index, e, resolved.value));
  }

  /** Resolves and retains every entry before returning any usable work. */
  method ResolveSubmission(space: GpuAddressSpace, bound: Option<nat>, entries: seq<Entry>) returns (r: Result<Submission, SourceError>)
    requires space.Valid()
    ensures r.Ok? <==> bound == Some(space.id)
                       && (entries != [] ==> space.regions.Some?)
                       && forall i :: 0 <= i < |entries| ==> Readable(space.State(), entries[i])
    ensures r.Ok? ==>
            && |r.value.pushbuffers| == |entries|
            && AllRetained(r.value)
            && (forall i :: 0 <= i < |entries| ==> r.value.pushbuffers[i].entry == entries[i])
            && AllSourcesCurrent(space.State(), r.value)
            && forall i :: 0 <= i < |entries| ==> AllActive(space.State(), r.value.pushbuffers[i].source.segments)
    ensures bound.None? ==> r == Err(ChannelAddressSpaceUnbound)
    ensures bound.Some? && bound.value != space.id ==> r == Err(WrongSpace)
    ensures r.Err? && bound == Some(space.id) ==>
              r.error.Resolution? && FirstUnreadable(space.State(), entries, r.error.entryIndex)
  {
    if bound.None? {
      return Err(ChannelAddressSpaceUnbound);
    }
    if bound.value != space.id {
      return Err(WrongSpace);
    }
    var pushbuffers: seq<Pushbuffer> := [];
    for i := 0 to |entries|
      invariant |pushbuffers| == i
      invariant i > 0 ==> space.regions.Some?
      invariant forall k :: 0 <= k < i ==> Readable(space.State(), entries[k])
      invariant forall k :: 0 <= k < i ==> RetainedEntry(space.State(), space.id, pushbuffers[k], k, entries[k])
    {
      var retained := RetainEntry(space, i, entries[i]);
      if retained.Err? {
        return Err(retained.error);
      }
      pushbuffers := pushbuffers + [retained.value];
    }
    var submission := Submission(space.id, pushbuffers);
    forall i | 0 <= i < |pushbuffers|
      ensures AllCurrent(space.State(), pushbuffers[i].source.segments)
    {
      assert RetainedEntry(space.State(), space.id, pushbuffers[i], i, entries[i]);
      ActiveIsBacked(space.State(), pushbuffers[i].source.segments);
    }
    var valid := ValidateSources(space, submission);
    assert valid.Ok?;
    return Ok(submission);
  }

  ghost predicate RetainedEntry(s: Space, id: nat, p: Pushbuffer, index: nat, e: Entry) {
    && p.entryIndex == index && p.entry == e && p.source.addressSpace == id
    && Retained(p)
    && AllActive(s, p.source.segments)
  }

  /** Checks every retained record before any command byte is read. */
  method ValidateSources(space: GpuAddressSpace, sub: Submission) returns (r: Result<(), SourceError>)
    requires AllRetained(sub)
    ensures r.Ok? <==> space.id == sub.addressSpace && AllSourcesCurrent(space.State(), sub)
    ensures r.Err? ==> SourcesFail(space.State(), space.id, sub, r.error)
  {
    if space.id != sub.addressSpace {
      return Err(WrongSpace);
    }
    for i := 0 to |sub.pushbuffers|
      invariant forall k :: 0 <= k < i ==> AllCurrent(space.State(), sub.pushbuffers[k].source.segments)
    {
      var p := sub.pushbuffers[i];
      for j := 0 to |p.source.segments|
        invariant forall k :: 0 <= k < j ==> Current(space.State(), p.source.segments[k].mapping)
      {
        var segment := p.source.segments[j];
        var current := space.RetainedMappingIsCurrent(segment.mapping);
        if !current {
          TileStartsInside(p.source.segments, p.source.offset, p.source.size, j);
          var location := LocationOf(p.entryIndex, p.entry.address, segment.mapping, segment.gpuOffset);
          assert StaleAt(space.State(), sub, i, j, location);
          return Err(StaleSource(location));
        }
      }
    }
    return Ok(());
  }

  function LocationOf(entryIndex: nat, pushbuffer: nat, mapping: Mapping, address: nat): SourceLocation
    requires pushbuffer <= address
  {
    SourceLocation(entryIndex, pushbuffer, (address - pushbuffer) / 4, mapping.attr.id, mapping.generation)
  }

  lemma {:induction false} TileStartsInside(segs: seq<ResolvedMapping>, offset: nat, size: nat, j: nat)
    requires Tiles(segs, offset, size) && j < |segs|
    ensures offset <= segs[j].gpuOffset
  {
    if j > 0 {
      TileStartsInside(segs[1..], offset + segs[0].size, size - segs[0].size, j - 1);
    }
  }

  /** Reads one entry after revalidating the whole submission. */
  method ReadPushbuffer(space: GpuAddressSpace, memory: Location -> nat, sub: Submission, entryIndex: nat, outputSize: nat)
    returns (r: Result<seq<nat>, SourceError>)
    requires AllRetained(sub)
    ensures r.Ok? <==> space.id == sub.addressSpace && AllSourcesCurrent(space.State(), sub)
                       && entryIndex < |sub.pushbuffers| && outputSize == sub.pushbuffers[entryIndex].source.size
    ensures r.Ok? ==>
            var source := sub.pushbuffers[entryIndex].source;
            && |r.value| == source.size
            && forall i {:trigger r.value[i]} :: 0 <= i < source.size ==>
                 ByteLocated(memory, source.segments, source.offset, source.size, source.offset + i, r.value[i])
    ensures r.Err? && (r.error.WrongSpace? || r.error.StaleSource?) ==> SourcesFail(space.State(), space.id, sub, r.error)
    ensures r.Err? && space.id == sub.addressSpace && AllSourcesCurrent(space.State(), sub) ==>
              r.error == if entryIndex < |sub.pushbuffers| then Access(OutputSizeMismatch) else UnknownEntry
  {
    var valid := ValidateSources(space, sub);
    if valid.Err? {
      return Err(valid.error);
    }
    if entryIndex >= |sub.pushbuffers| {
      return Err(UnknownEntry);
    }
    var read := space.ReadResolved(memory, sub.pushbuffers[entryIndex].source, outputSize);
    if read.Err? {
      return Err(Access(read.error));
    }
    return Ok(read.value);
  }

  /** Some segment of a tiling covers each of its bytes. */
  lemma {:induction false} TileCovering(segs: seq<ResolvedMapping>, offset: nat, size: nat, a: nat) returns (j: nat)
    requires Tiles(segs, offset, size)
    requires offset <= a < offset + size
    ensures j < |segs| && segs[j].gpuOffset <= a < segs[j].gpuOffset + segs[j].size
    ensures segs[j].mapping.Covers(a)
    ensures SegmentView(segs, offset, size, a) == View(segs[j].mapping, a)
    ensures forall k :: 0 <= k < j ==> segs[k].gpuOffset + segs[k].size <= a
  {
    if a < offset + segs[0].size {
      j := 0;
    } else {
      var k := TileCovering(segs[1..], offset + segs[0].size, size - segs[0].size, a);
      j := k + 1;
    }
  }

  /**
   The source location of one command word. It is defined for exactly the words of the retained
   entries, reports that word's own offset, and names the record that gives the word's first byte
   its meaning.
   */
  method WordLocation(sub: Submission, entryIndex: nat, wordOffset: u64)
    returns (r: Result<SourceLocation, SourceError>, ghost segment: nat)
    requires AllRetained(sub)
    ensures r.Ok? <==> entryIndex < |sub.pushbuffers| && wordOffset < sub.pushbuffers[entryIndex].entry.wordCount
    ensures r.Ok? ==>
            var p := sub.pushbuffers[entryIndex];
            && r.value.entryIndex == entryIndex
            && r.value.pushbuffer == p.entry.address
            && r.value.wordOffset == wordOffset
            && NamesSegment(p, segment, p.entry.address + 4 * wordOffset, r.value)
    ensures r.Err? ==> r.error == if entryIndex < |sub.pushbuffers| then UnknownWord else UnknownEntry
  {
    segment := 0;
    if entryIndex >= |sub.pushbuffers| {
      return Err(UnknownEntry), segment;
    }
    var p := sub.pushbuffers[entryIndex];
    if wordOffset >= p.entry.wordCount {
      return Err(UnknownWord), segment;
    }
    assert Retained(p);
    var address := p.entry.address + 4 * wordOffset;
    ghost var covering := TileCovering(p.source.segments, p.source.offset, p.source.size, address);
    var j := 0;
    while !(p.source.segments[j].gpuOffset <= address < p.source.segments[j].gpuOffset + p.source.segments[j].size)
      invariant j <= covering
      decreases covering - j
    {
      j := j + 1;
    }
    var location := LocationOf(entryIndex, p.entry.address, p.source.segments[j].mapping, address);
    return Ok(location), j;
  }

  /** `location` names the record of segment `j`, which gives the byte at `address` its meaning. */
  ghost predicate NamesSegment(p: Pushbuffer, j: nat, address: nat, location: SourceLocation) {
    && j < |p.source.segments|
    && var segment := p.source.segments[j];
    && segment.gpuOffset <= address < segment.gpuOffset + segment.size
    && segment.mapping.Covers(address)
    && Tiles(p.source.segments, p.source.offset, p.source.size)
    && p.source.offset <= address < p.source.offset + p.source.size
    && SegmentView(p.source.segments, p.source.offset, p.source.size, address) == View(segment.mapping, address)
    && location.mapping == segment.mapping.attr.id
    && location.generation == segment.mapping.generation
  }
}
