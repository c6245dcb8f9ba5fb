/**
 Whole runs of the address-space object: any sequence of calls, successful or not, is a run of
 `SpaceModel`, so the staleness theorems proved there hold of it.
 */
module AddressSpaceRuns {
  import opened Primitives
  import opened CanonicalMemory
  import opened MappingTable
  import opened SpaceModel
  import opened SpaceOperations
  import opened RemapModel
  import opened AddressSpace

  datatype Operation =
    | OpInitialize(bigPageSize: u32, start: u64, end: u64, split: u64)
    | OpReserve(pages: u32, pageSize: u32, flags: u32, alignOrOffset: u64)
    | OpFree(freed: nat, freedPages: u32, freedPageSize: u32)
    | OpMap(request: MapRequest)
    | OpUnmap(unmapOffset: nat)
    | OpRemap(requests: seq<RemapRequest>)
    | OpModify(modifyOffset: nat, within: u64, size: u64, kind: nat, cacheable: bool)

  // ---- what one operation does --------------------------------------------------------------

  ghost predicate Initializes(profile: Profile, s: Space, bigPageSize: u32, start: u64, end: u64, split: u64, s': Space)
    requires profile.smallPageSize > 0
  {
    var g := SelectedGeometry(profile, bigPageSize, start, end, split);
    if s.regions.None? && BigPageAccepts(profile, g.bigPageSize) && GeometryAccepts(profile, g) then
      && s'.regions.Some? && s' == s.(regions := s'.regions)
      && s'.regions.value.small.pageSize == profile.smallPageSize && s'.regions.value.big.pageSize == g.bigPageSize
      && s'.regions.value.small.offset == g.start && s'.regions.value.big.offset == g.split
      && s'.regions.value.small.End() == g.split && s'.regions.value.big.End() == g.end
    else s' == s
  }

  ghost predicate ReservesAt(s: Space, pages: u32, pageSize: u32, flags: u32, alignOrOffset: u64, a: nat, s': Space)
    requires ReservationChecks(s, pages, pageSize, flags)
  {
    && s' == s.(reservations := s.reservations[a := Reservation(a, pages, pageSize, IsSparse(flags))])
    && if IsFixed(flags) then a == alignOrOffset
       else IsFirstFit(s, RegionFor(s.regions.value, pageSize).value, pages * pageSize, Max(alignOrOffset, pageSize), a)
  }

  ghost predicate Reserves(s: Space, pages: u32, pageSize: u32, flags: u32, alignOrOffset: u64, s': Space) {
    if ReserveAccepts(s, pages, pageSize, flags, alignOrOffset) then
      exists a: nat :: ReservesAt(s, pages, pageSize, flags, alignOrOffset, a, s')
    else s' == s
  }

  ghost predicate Frees(s: Space, offset: nat, pages: u32, pageSize: u32, s': Space) {
    if s.regions.Some? && offset in s.reservations
       && s.reservations[offset].pages == pages && s.reservations[offset].pageSize == pageSize
       && Freed(s, s.reservations[offset]).generation < U64_SIZE
    then s' == Freed(s, s.reservations[offset])
    else s' == s
  }

  ghost predicate Maps(s: Space, request: MapRequest, s': Space) {
    if MapAccepts(s, request) then exists m :: s' == Mapped(s, m) && MapsRequest(s, request, m)
    else s' == s
  }

  ghost predicate Names(t: Table, offset: nat) {
    exists o :: o in t && t[o].attr.unmapOffset == offset
  }

  ghost predicate Unmaps(s: Space, offset: nat, s': Space) {
    if s.regions.Some? && Names(s.mappings, offset) && s.generation + 1 < U64_SIZE then
      exists o :: FirstNamed(s.mappings, offset, o) && s' == Unmapped(s, s.mappings[o].attr.id)
    else s' == s
  }

  ghost predicate RemapsAll(s: Space, requests: seq<RemapRequest>, s': Space) {
    if RemapAccepts(s, requests) then
      && s' == s.(mappings := s'.mappings, generation := s.generation + 1, nextMappingId := s.nextMappingId + CountMapped(requests))
      && Remaps(s.mappings, s'.mappings, requests, s.regions.value.big.pageSize, s.nextMappingId)
      && RemapsFields(s'.mappings, requests, s.regions.value.big.pageSize, s.nextMappingId)
    else s' == s
  }

  ghost predicate ModifiesAt(s: Space, o: nat, offset: nat, within: u64, size: u64, kind: nat) {
    && FirstNamed(s.mappings, offset, o) && s.mappings[o].attr.pageSize > 0
    && ModifyAccepts(s, o, offset + within, size, kind)
  }

  ghost predicate Modifies(s: Space, offset: nat, within: u64, size: u64, kind: nat, cacheable: bool, s': Space) {
    if s.regions.Some? && exists o: nat :: ModifiesAt(s, o, offset, within, size, kind) then
      && s' == s.(mappings := s'.mappings, generation := s.generation + 1)
      && Recoloured(s.mappings, s'.mappings, offset + within, offset + within + size, kind, cacheable)
    else s' == s
  }

  /** The state after one operation, which does all it is asked or nothing. */
  ghost predicate Outcome(profile: Profile, s: Space, op: Operation, s': Space)
    requires profile.smallPageSize > 0
  {
    match op
    case OpInitialize(bigPageSize, start, end, split) => Initializes(profile, s, bigPageSize, start, end, split, s')
    case OpReserve(pages, pageSize, flags, alignOrOffset) => Reserves(s, pages, pageSize, flags, alignOrOffset, s')
    case OpFree(offset, pages, pageSize) => Frees(s, offset, pages, pageSize, s')
    case OpMap(request) => Maps(s, request, s')
    case OpUnmap(offset) => Unmaps(s, offset, s')
    case OpRemap(requests) => RemapsAll(s, requests, s')
    case OpModify(offset, within, size, kind, cacheable) => Modifies(s, offset, within, size, kind, cacheable, s')
  }

  // ---- runs ---------------------------------------------------------------------------------

  method Reserve(space: GpuAddressSpace, pages: u32, pageSize: u32, flags: u32, alignOrOffset: u64)
    requires space.Valid()
    modifies space
    ensures space.Valid() && Advances(old(space.State()), space.State())
    ensures Reserves(old(space.State()), pages, pageSize, flags, alignOrOffset, space.State())
  {
    var reserved := space.Reserve(pages, pageSize, flags, alignOrOffset);
    if reserved.Ok? {
      assert ReservesAt(old(space.State()), pages, pageSize, flags, alignOrOffset, reserved.value.offset, space.State());
    }
  }

  method Unmap(space: GpuAddressSpace, offset: nat)
    requires space.Valid()
    modifies space
    ensures space.Valid() && Advances(old(space.State()), space.State())
    ensures Unmaps(old(space.State()), offset, space.State())
  {
    var _, first := space.Unmap(offset);
    assert Names(old(space.mappings), offset) <==> first.Some?;
  }

  method Modify(space: GpuAddressSpace, offset: nat, within: u64, size: u64, kind: nat, cacheable: bool)
    requires space.Valid()
    modifies space
    ensures space.Valid() && Advances(old(space.State()), space.State())
    ensures Modifies(old(space.State()), offset, within, size, kind, cacheable, space.State())
  {
    var modified, first := space.ModifyMapping(offset, within, size, kind, cacheable);
    if modified.Ok? {
      assert ModifiesAt(old(space.State()), first.value, offset, within, size, kind);
    }
  }

  method Execute(space: GpuAddressSpace, op: Operation)
    requires space.Valid()
    modifies space
    ensures space.Valid() && Advances(old(space.State()), space.State())
    ensures Outcome(space.profile, old(space.State()), op, space.State())
  {
    match op
    case OpInitialize(bigPageSize, start, end, split) =>
      var _ := space.Initialize(bigPageSize, start, end, split);
    case OpReserve(pages, pageSize, flags, alignOrOffset) =>
      Reserve(space, pages, pageSize, flags, alignOrOffset);
    case OpFree(offset, pages, pageSize) =>
      var _ := space.Free(offset, pages, pageSize);
    case OpMap(request) =>
      var _ := space.Map(request);
    case OpUnmap(offset) =>
      Unmap(space, offset);
    case OpRemap(requests) =>
      var _ := space.RemapSparse(requests);
    case OpModify(offset, within, size, kind, cacheable) =>
      Modify(space, offset, within, size, kind, cacheable);
  }

  lemma InvIsStamped(s: Space)
    requires Inv(s)
    ensures Stamped(s)
  {
  }

  lemma RunExtends(run: seq<Space>, s: Space)
    requires IsRun(run) && run != []
    requires Inv(s) && Advances(run[|run| - 1], s)
    ensures IsRun(run + [s])
  {
    InvIsStamped(s);
    HistoryExtends(run, s);
    forall i | 0 <= i < |run + [s]|
      ensures Inv((run + [s])[i])
    {
      assert (run + [s])[i] == if i < |run| then run[i] else s;
    }
  }

  lemma HistoryExtends(run: seq<Space>, s: Space)
    requires IsHistory(run) && run != [] && Stamped(s) && Advances(run[|run| - 1], s)
    ensures IsHistory(run + [s])
  {
    forall i | 0 < i < |run + [s]|
      ensures Advances((run + [s])[i - 1], (run + [s])[i])
    {
      assert (run + [s])[i - 1] == run[i - 1] && (run + [s])[i] == if i < |run| then run[i] else s;
    }
  }

  /** Each step of the run is what its operation does. */
  ghost predicate Follows(profile: Profile, run: seq<Space>, ops: seq<Operation>, n: nat)
    requires profile.smallPageSize > 0 && n < |run| && n <= |ops|
  {
    forall i :: 0 <= i < n ==> Outcome(profile, run[i], ops[i], run[i + 1])
  }

  /** Any sequence of calls traces a run, each step of which is what its call does. */
  method ExecuteAll(space: GpuAddressSpace, ops: seq<Operation>) returns (ghost run: seq<Space>)
    requires space.Valid()
    modifies space
    ensures space.Valid()
    ensures |run| == |ops| + 1 && run[0] == old(space.State()) && run[|ops|] == space.State()
    ensures IsRun(run) && space.profile.smallPageSize > 0 && Follows(space.profile, run, ops, |ops|)
  {
    run := [space.State()];
    InvIsStamped(space.State());
    for i := 0 to |ops|
      invariant space.Valid()
      invariant |run| == i + 1 && run[0] == old(space.State()) && run[i] == space.State()
      invariant IsRun(run) && Follows(space.profile, run, ops, i)
    {
      Execute(space, ops[i]);
      RunExtends(run, space.State());
      run := run + [space.State()];
    }
  }

  /**
   A record handed out before any sequence of calls is reported current afterwards exactly when
   that identical record is still in the table.
   */
  method CheckAfter(space: GpuAddressSpace, retained: Mapping, ops: seq<Operation>) returns (current: bool)
    requires space.Valid() && Active(space.State(), retained)
    modifies space
    ensures space.Valid()
    ensures current <==> Active(space.State(), retained)
  {
    ghost var run := ExecuteAll(space, ops);
    StalenessIsExact(run, 0, |ops|, retained);
    current := space.RetainedMappingIsCurrent(retained);
  }
}
