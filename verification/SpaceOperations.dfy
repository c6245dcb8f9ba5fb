/**
 What each address-space operation accepts and what it does to the abstract state, with the
 lemmas that every accepted operation keeps `Inv` and advances the run.
 */
module SpaceOperations {
  import opened Primitives
  import opened CanonicalMemory
  import opened MappingTable
  import opened SpaceModel

  const INVALID_PTE_KIND: nat := 0xff

  datatype SpaceError =
    | AlreadyInitialized
    | NotInitialized
    | InvalidBigPageSize
    | InvalidGeometry
    | InvalidPageCount
    | InvalidPageSize
    | InvalidReservationFlags
    | InvalidAlignment
    | MisalignedAddress
    | OutsideVaRegion
    | OutsideReservation
    | OverlappingReservation
    | OverlappingMapping
    | OverlappingRemapEntries
    | UnknownReservation
    | ReservationShapeMismatch
    | SparseSmallPagesUnsupported
    | NonSparseReservation
    | EmptyRemap
    | EmptyMapping
    | UnknownMapping
    | PartialMapping
    | InvalidBackingRange
    | InvalidMappingPermissions
    | InvalidKind
    | MisalignedBackingRange
    | InsufficientAddressSpace
    | MappingIdentityExhausted
    | ArithmeticOverflow
    | GenerationExhausted

  // ---- allocation --------------------------------------------------------------------------

  /** Of the four flag words a request may carry, those that ask for one place. */
  ghost predicate IsFixed(flags: u32) {
    flags == 1 || flags == 3
  }

  /** Of the four flag words a request may carry, those that ask for sparse backing. */
  ghost predicate IsSparse(flags: u32) {
    flags == 2 || flags == 3
  }

  /** The region serving a page size; the small region wins when both have the same size. */
  ghost function RegionFor(regions: Regions, pageSize: nat): Option<Region> {
    if regions.small.pageSize == pageSize then Some(regions.small)
    else if regions.big.pageSize == pageSize then Some(regions.big)
    else None
  }

  /** `a` is an aligned address in the region whose range nothing occupies. */
  ghost predicate Fits(s: Space, region: Region, size: nat, alignment: nat, a: nat)
    requires alignment > 0
  {
    && region.offset <= a
    && a % alignment == 0
    && a + size <= region.End()
    && FreeRange(s, a, a + size)
  }

  ghost predicate IsFirstFit(s: Space, region: Region, size: nat, alignment: nat, a: nat)
    requires alignment > 0
  {
    && Fits(s, region, size, alignment, a)
    && forall b :: Fits(s, region, size, alignment, b) ==> a <= b
  }

  /** What a reservation request must satisfy whatever is occupied already. */
  ghost predicate ReservationChecks(s: Space, pages: u32, pageSize: u32, flags: u32) {
    && s.regions.Some?
    && pages > 0
    && flags < 4
    && pageSize > 0
    && RegionFor(s.regions.value, pageSize).Some?
    && (IsSparse(flags) ==> pageSize == s.regions.value.big.pageSize)
  }

  ghost predicate ReserveAccepts(s: Space, pages: u32, pageSize: u32, flags: u32, alignOrOffset: u64) {
    && ReservationChecks(s, pages, pageSize, flags)
    && var region := RegionFor(s.regions.value, pageSize).value;
       if IsFixed(flags) then
         Fits(s, region, pages * pageSize, pageSize, alignOrOffset)
       else
         && IsPowerOfTwo(Max(alignOrOffset, pageSize))
         && Max(alignOrOffset, pageSize) % pageSize == 0
         && exists a :: Fits(s, region, pages * pageSize, Max(alignOrOffset, pageSize), a)
  }

  lemma ReserveKeepsInv(s: Space, r: Reservation)
    requires Inv(s) && s.regions.Some?
    requires r.offset < r.End() <= s.limit
    requires FreeRange(s, r.offset, r.End())
    ensures Inv(s.(reservations := s.reservations[r.offset := r]))
    ensures Advances(s, s.(reservations := s.reservations[r.offset := r]))
  {
    ReserveKeepsApart(s.reservations, s.limit, r);
    ReserveKeepsPlaced(s.reservations, s.mappings, r);
  }

  lemma ReserveKeepsApart(rs: Reservations, limit: nat, r: Reservation)
    requires SoundReservations(rs, limit) && r.offset < r.End() <= limit
    requires forall q :: q in rs ==> !rs[q].Overlaps(r.offset, r.End())
    ensures r.offset !in rs && SoundReservations(rs[r.offset := r], limit)
  {
    assert forall q :: q in rs ==> rs[q].offset == q;
  }

  lemma ReserveKeepsPlaced(rs: Reservations, t: Table, r: Reservation)
    requires r.offset !in rs && AllPlaced(rs, t)
    requires forall o :: o in t ==> !t[o].Overlaps(r.offset, r.End())
    ensures AllPlaced(rs[r.offset := r], t)
  {
    var rs' := rs[r.offset := r];
    forall o | o in t
      ensures Placed(rs', t[o].offset, t[o].End())
    {
      var m := t[o];
      assert Placed(rs, m.offset, m.End());
      if q :| q in rs && rs[q].Contains(m.offset, m.End()) {
        assert q in rs' && rs'[q].Contains(m.offset, m.End());
      }
    }
  }

  // ---- a whole new table -------------------------------------------------------------------

  /** The space with another table, under the next generation. */
  ghost function Installed(s: Space, t: Table, nextId: nat): Space {
    s.(mappings := t, nextMappingId := nextId, generation := s.generation + 1)
  }

  lemma InstallKeepsInv(s: Space, t: Table, nextId: nat)
    requires Inv(s) && s.regions.Some? && s.generation + 1 < U64_SIZE && s.nextMappingId <= nextId < U64_SIZE
    requires TableInv(s.reservations, t, s.limit, nextId, s.generation + 1)
    requires RestampedBy(s.mappings, t, s.generation + 1)
    ensures Inv(Installed(s, t, nextId)) && Advances(s, Installed(s, t, nextId))
  {
  }

  // ---- free --------------------------------------------------------------------------------

  /** The keys `free` removes: mappings lying inside the reservation. */
  ghost function InsideKeys(s: Space, r: Reservation): set<nat> {
    set o | o in s.mappings && r.Contains(s.mappings[o].offset, s.mappings[o].End())
  }

  ghost function Freed(s: Space, r: Reservation): Space {
    var gone := InsideKeys(s, r);
    s.(reservations := s.reservations - {r.offset},
       mappings := s.mappings - gone,
       generation := if gone == {} then s.generation else s.generation + 1)
  }

  /** Dropping records keeps everything said record by record. */
  lemma SubtableKeeps(rs: Reservations, t: Table, gone: set<nat>, nextMappingId: nat, generation: nat)
    requires AllPlaced(rs, t) && StampedBelow(t, nextMappingId, generation) && IdentityWindows(t)
    ensures AllPlaced(rs, t - gone) && StampedBelow(t - gone, nextMappingId, generation) && IdentityWindows(t - gone)
  {
    forall o | o in t - gone
      ensures Placed(rs, (t - gone)[o].offset, (t - gone)[o].End())
    {
      assert Placed(rs, t[o].offset, t[o].End());
    }
  }

  lemma FreePlacement(rs: Reservations, t: Table, r: Reservation)
    requires AllPlaced(rs, t)
    requires r.offset in rs && rs[r.offset] == r
    requires forall o :: o in t ==> !r.Contains(t[o].offset, t[o].End())
    ensures AllPlaced(rs - {r.offset}, t)
  {
    var rs' := rs - {r.offset};
    forall o | o in t
      ensures Placed(rs', t[o].offset, t[o].End())
    {
      assert Placed(rs, t[o].offset, t[o].End());
      if q :| q in rs && rs[q].Contains(t[o].offset, t[o].End()) {
        assert q in rs' && rs'[q].Contains(t[o].offset, t[o].End());
      }
    }
  }

  lemma FreeKeepsTable(rs: Reservations, t: Table, limit: nat, nextMappingId: nat, generation: nat, generation': nat, r: Reservation, gone: set<nat>)
    requires TableInv(rs, t, limit, nextMappingId, generation) && generation <= generation'
    requires r.offset in rs && rs[r.offset] == r
    requires forall o :: o in t ==> (o in gone <==> r.Contains(t[o].offset, t[o].End()))
    ensures TableInv(rs - {r.offset}, t - gone, limit, nextMappingId, generation')
  {
    SubtableKeeps(rs, t, gone, nextMappingId, generation);
    FreePlacement(rs, t - gone, r);
    RemoveMeaning(t, limit, gone, 0);
  }

  lemma FreeKeepsInv(s: Space, r: Reservation)
    requires Inv(s) && r.offset in s.reservations && s.reservations[r.offset] == r
    requires Freed(s, r).generation < U64_SIZE
    ensures Inv(Freed(s, r)) && Advances(s, Freed(s, r))
  {
    var s' := Freed(s, r);
    var gone := InsideKeys(s, r);
    FreeKeepsTable(s.reservations, s.mappings, s.limit, s.nextMappingId, s.generation, s'.generation, r, gone);
    FreeKeepsReservations(s.reservations, s.limit, r.offset);
    SubtableAdvances(s, s', gone);
  }

  lemma FreeKeepsReservations(rs: Reservations, limit: nat, o: nat)
    requires SoundReservations(rs, limit)
    ensures SoundReservations(rs - {o}, limit)
  {
  }

  lemma SubtableAdvances(s: Space, s': Space, gone: set<nat>)
    requires s'.limit == s.limit && s'.nextMappingId == s.nextMappingId
    requires s'.mappings == s.mappings - gone
    requires s'.generation == if gone == {} then s.generation else s.generation + 1
    ensures Advances(s, s')
  {
    assert gone == {} ==> s.mappings - gone == s.mappings;
  }

  /** After a free nothing occupies the freed range, and no byte outside it changes meaning. */
  lemma FreedRangeIsFree(s: Space, r: Reservation, a: nat)
    requires Inv(s) && r.offset in s.reservations && s.reservations[r.offset] == r
    ensures FreeRange(Freed(s, r), r.offset, r.End())
    ensures Translate(Freed(s, r).mappings, a)
         == if r.offset <= a < r.End() then None else Translate(s.mappings, a)
  {
    FreedMeetsNothing(s.reservations, s.limit, s.mappings, r);
    FreedMeaning(s.mappings, s.limit, InsideKeys(s, r), r, a);
  }

  lemma FreedMeetsNothing(rs: Reservations, limit: nat, t: Table, r: Reservation)
    requires SoundReservations(rs, limit) && AllPlaced(rs, t)
    requires forall o :: o in t ==> t[o].size > 0
    requires r.offset in rs && rs[r.offset] == r
    ensures forall q :: q in rs && q != r.offset ==> !rs[q].Overlaps(r.offset, r.End())
    ensures forall o :: o in t ==> t[o].Overlaps(r.offset, r.End()) ==> r.Contains(t[o].offset, t[o].End())
  {
    forall o | o in t && t[o].Overlaps(r.offset, r.End())
      ensures r.Contains(t[o].offset, t[o].End())
    {
      assert Placed(rs, t[o].offset, t[o].End());
      assert rs[r.offset].Overlaps(t[o].offset, t[o].End());
      var q :| q in rs && rs[q].Contains(t[o].offset, t[o].End());
      assert q == r.offset;
    }
  }

  lemma FreedMeaning(t: Table, limit: nat, gone: set<nat>, r: Reservation, a: nat)
    requires WellFormed(t, limit)
    requires forall o :: o in t ==> (o in gone <==> r.Contains(t[o].offset, t[o].End()))
    requires forall o :: o in t ==> t[o].Overlaps(r.offset, r.End()) ==> r.Contains(t[o].offset, t[o].End())
    ensures Translate(t - gone, a) == if r.offset <= a < r.End() then None else Translate(t, a)
  {
    RemoveMeaning(t, limit, gone, a);
  }

  // ---- map ---------------------------------------------------------------------------------

  datatype MapRequest = MapRequest(
    allocation: nat,
    backing: Backing,
    backingOffset: u64,
    size: u64,
    allocationAlignment: u32,
    pageSize: u32,
    kind: nat,
    cacheable: bool,
    permissions: Permissions,
    fixedOffset: Option<nat>
  )

  ghost predicate BackingPermits(b: Backing, permissions: Permissions) {
    permissions != {} && forall i :: 0 <= i < |b.segments| ==> permissions <= b.segments[i].permissions
  }

  ghost predicate BackingAccepts(b: Backing, offset: nat, size: nat, permissions: Permissions) {
    && size > 0
    && offset + size < U64_SIZE
    && offset + size <= BackingSize(b)
    && BackingPermits(b, permissions)
  }

  /** The check of a window of a backing that fails. */
  ghost predicate BackingFails(b: Backing, offset: nat, size: nat, permissions: Permissions, why: SpaceError) {
    match why
    case EmptyMapping => size == 0
    case ArithmeticOverflow => offset + size >= 0x1_0000_0000_0000_0000
    case InvalidBackingRange => offset + size > BackingSize(b)
    case InvalidMappingPermissions => !BackingPermits(b, permissions)
    case _ => false
  }

  /** Whether a window of a backing may be mapped with these permissions. */
  method ValidateBacking(b: Backing, offset: nat, size: nat, permissions: Permissions) returns (r: Result<(), SpaceError>)
    ensures r.Ok? <==> BackingAccepts(b, offset, size, permissions)
    ensures r.Err? ==> BackingFails(b, offset, size, permissions, r.error)
  {
    if size == 0 {
      return Err(EmptyMapping);
    }
    if offset + size >= U64_SIZE {
      return Err(ArithmeticOverflow);
    }
    if offset + size > BackingSize(b) {
      return Err(InvalidBackingRange);
    }
    if permissions == {} {
      return Err(InvalidMappingPermissions);
    }
    for i := 0 to |b.segments|
      invariant forall k :: 0 <= k < i ==> permissions <= b.segments[k].permissions
    {
      if !(permissions <= b.segments[i].permissions) {
        return Err(InvalidMappingPermissions);
      }
    }
    return Ok(());
  }

  /** The page size a request selects: big pages only when alignment, offset and size all allow them. */
  ghost function ChosenPageSize(regions: Regions, request: MapRequest): nat
    requires regions.big.pageSize > 0
  {
    if request.pageSize != 0 then
      request.pageSize
    else if request.allocationAlignment >= regions.big.pageSize
         && request.backingOffset % regions.big.pageSize == 0
         && request.size % regions.big.pageSize == 0 then
      regions.big.pageSize
    else
      regions.small.pageSize
  }

  /** Some reservation contains the range. */
  ghost predicate Reserved(s: Space, start: nat, end: nat) {
    exists r :: r in s.reservations && s.reservations[r].Contains(start, end)
  }

  /** What a mapping request must satisfy whatever is mapped already. */
  ghost predicate MapChecks(s: Space, request: MapRequest) {
    && s.regions.Some?
    && SoundRegion(s.regions.value.small, s.limit) && SoundRegion(s.regions.value.big, s.limit)
    && BackingAccepts(request.backing, request.backingOffset, request.size, request.permissions)
    && request.kind != 0xff
    && IsPowerOfTwo(request.allocationAlignment)
    && var pageSize := ChosenPageSize(s.regions.value, request);
       && RegionFor(s.regions.value, pageSize).Some?
       && request.backingOffset % pageSize == 0
       && request.size % pageSize == 0
  }

  /** A fixed request must land in one reservation and on no mapping; any other needs a fit. */
  ghost predicate MapPlaces(s: Space, request: MapRequest, pageSize: nat, region: Region)
    requires pageSize > 0
  {
    match request.fixedOffset
    case Some(offset) =>
      && offset % pageSize == 0
      && Reserved(s, offset, offset + request.size)
      && forall o :: o in s.mappings ==> !s.mappings[o].Overlaps(offset, offset + request.size)
    case None =>
      exists a :: Fits(s, region, request.size, pageSize, a)
  }

  ghost predicate MapAccepts(s: Space, request: MapRequest) {
    && MapChecks(s, request)
    && s.generation + 1 < U64_SIZE
    && s.nextMappingId + 1 < U64_SIZE
    && var pageSize := ChosenPageSize(s.regions.value, request);
       MapPlaces(s, request, pageSize, RegionFor(s.regions.value, pageSize).value)
  }

  function Mapped(s: Space, m: Mapping): Space {
    s.(mappings := s.mappings[m.offset := m],
       nextMappingId := s.nextMappingId + 1,
       generation := s.generation + 1)
  }

  lemma MapKeepsInv(s: Space, m: Mapping)
    requires Inv(s) && s.regions.Some?
    requires s.generation + 1 < U64_SIZE && s.nextMappingId + 1 < U64_SIZE
    requires SoundRecord(m, s.limit)
    requires m.generation == s.generation + 1 && m.attr.id == s.nextMappingId
    requires forall o :: o in s.mappings ==> !s.mappings[o].Overlaps(m.offset, m.End())
    requires Placed(s.reservations, m.offset, m.End())
    ensures Inv(Mapped(s, m)) && Advances(s, Mapped(s, m))
  {
    InsertMeaning(s.mappings, s.limit, m, 0);
    InsertKeeps(s.reservations, s.mappings, m, s.nextMappingId, s.generation);
  }

  /** A record under a fresh identity keeps everything said record by record. */
  lemma InsertKeeps(rs: Reservations, t: Table, m: Mapping, nextMappingId: nat, generation: nat)
    requires AllPlaced(rs, t) && StampedBelow(t, nextMappingId, generation) && IdentityWindows(t)
    requires Placed(rs, m.offset, m.End())
    requires m.attr.id == nextMappingId && generation <= m.generation
    requires m.offset !in t
    ensures AllPlaced(rs, t[m.offset := m])
    ensures StampedBelow(t[m.offset := m], nextMappingId + 1, m.generation)
    ensures IdentityWindows(t[m.offset := m])
  {
    var t' := t[m.offset := m];
    forall o | o in t'
      ensures Placed(rs, t'[o].offset, t'[o].End())
    {
      if o != m.offset {
        assert Placed(rs, t[o].offset, t[o].End());
      }
    }
  }

  // ---- unmap -------------------------------------------------------------------------------

  /** `o` is the lowest key whose record answers to `unmapOffset`. */
  ghost predicate FirstNamed(t: Table, unmapOffset: nat, o: nat) {
    && o in t
    && t[o].attr.unmapOffset == unmapOffset
    && forall p :: p in t && t[p].attr.unmapOffset == unmapOffset ==> o <= p
  }

  ghost function IdentityKeys(t: Table, id: nat): set<nat> {
    set o | o in t && t[o].attr.id == id
  }

  ghost function Unmapped(s: Space, id: nat): Space {
    s.(mappings := s.mappings - IdentityKeys(s.mappings, id), generation := s.generation + 1)
  }

  lemma UnmapKeepsTable(rs: Reservations, t: Table, limit: nat, nextMappingId: nat, generation: nat, gone: set<nat>)
    requires TableInv(rs, t, limit, nextMappingId, generation)
    ensures TableInv(rs, t - gone, limit, nextMappingId, generation + 1)
    ensures RestampedBy(t, t - gone, generation + 1)
  {
    SubtableKeeps(rs, t, gone, nextMappingId, generation);
    RemoveMeaning(t, limit, gone, 0);
  }

  lemma UnmapKeepsInv(s: Space, id: nat)
    requires Inv(s) && s.regions.Some? && s.generation + 1 < U64_SIZE
    ensures Inv(Unmapped(s, id)) && Advances(s, Unmapped(s, id))
  {
    UnmapKeepsTable(s.reservations, s.mappings, s.limit, s.nextMappingId, s.generation, IdentityKeys(s.mappings, id));
  }

  /** Unmapping an identity unmaps exactly its bytes. */
  lemma UnmapMeaning(s: Space, id: nat, a: nat)
    requires Inv(s)
    ensures Translate(Unmapped(s, id).mappings, a)
         == var v := Translate(s.mappings, a); if v.Some? && v.value.attr.id == id then None else v
  {
    var gone := IdentityKeys(s.mappings, id);
    RemoveMeaning(s.mappings, s.limit, gone, a);
    if o :| Hit(s.mappings, o, a) {
      TranslateHit(s.mappings, s.limit, o, a);
      assert Hit(s.mappings, o, a);
      forall p | p in gone && Hit(s.mappings, p, a)
        ensures p == o
      {
        HitUnique(s.mappings, s.limit, o, p, a);
      }
    }
  }

  // ---- modify ------------------------------------------------------------------------------

  /** The identity's pieces cover the whole range. */
  ghost predicate IdentityCovers(t: Table, id: nat, start: nat, end: nat) {
    forall a :: start <= a < end ==> Translate(t, a).Some? && Translate(t, a).value.attr.id == id
  }

  /** The request is well-formed and aligned for the record `first` that `unmapOffset` names. */
  ghost predicate ModifyValidated(s: Space, first: nat, start: nat, size: nat, kind: nat)
    requires first in s.mappings && s.mappings[first].attr.pageSize > 0
  {
    kind != 0xff && size > 0 && RangeAligned(s, first, start, size)
  }

  ghost predicate RangeAligned(s: Space, first: nat, start: nat, size: nat)
    requires first in s.mappings && s.mappings[first].attr.pageSize > 0
  {
    && start + size < U64_SIZE
    && start % s.mappings[first].attr.pageSize == 0
    && size % s.mappings[first].attr.pageSize == 0
  }

  /** What `modify_mapping` asks of a record `first` that `unmapOffset` names. */
  ghost predicate ModifyAccepts(s: Space, first: nat, start: nat, size: nat, kind: nat)
    requires first in s.mappings && s.mappings[first].attr.pageSize > 0
  {
    && ModifyValidated(s, first, start, size, kind)
    && IdentityCovers(s.mappings, s.mappings[first].attr.id, start, start + size)
    && s.generation + 1 < U64_SIZE
  }
}
