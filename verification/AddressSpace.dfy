/**
 One Maxwell GPU virtual address space.

 Every mutating method is specified on the abstract state: when it succeeds, what the new state
 is, and that a failure changes nothing. `Valid` is the invariant of every reachable state, and
 `Advances` is what makes any sequence of calls a run in the sense of `SpaceModel.IsRun`.
 */
module AddressSpace {
  import opened Primitives
  import opened OrderedMaps
  import opened CanonicalMemory
  import opened MappingTable
  import opened TableEditing
  import opened SpaceModel
  import opened SpaceOperations
  import opened RemapModel
  import opened SpaceRefusals

  datatype Profile = Profile(addressLimit: nat, smallPageSize: u32, bigPageSize: u32, availableBigPageSizes: u32)

  const DEFAULT_VA_SPLIT: nat := 0x4_0000_0000
  const DEFAULT_VA_END: nat := 0x20_0000_0000

  datatype Geometry = Geometry(bigPageSize: u32, start: nat, split: nat, end: nat)

  /** The page size and bounds an initialization request selects; zeros select the defaults. */
  ghost function SelectedGeometry(profile: Profile, bigPageSize: u32, start: u64, end: u64, split: u64): Geometry {
    var big := if bigPageSize == 0 then profile.bigPageSize else bigPageSize;
    if start == 0 && end == 0 && split == 0 then
      Geometry(big, big * 1024, 0x4_0000_0000, 0x20_0000_0000)
    else
      Geometry(big, start, split, end)
  }

  ghost predicate BigPageAccepts(profile: Profile, big: nat) {
    IsPowerOfTwo(big) && profile.availableBigPageSizes / big % 2 == 1
  }

  ghost predicate GeometryAccepts(profile: Profile, g: Geometry)
    requires profile.smallPageSize > 0 && g.bigPageSize > 0
  {
    && g.start < g.split < g.end <= profile.addressLimit
    && g.start % profile.smallPageSize == 0
    && g.split % profile.smallPageSize == 0
    && g.split % g.bigPageSize == 0
    && g.end % g.bigPageSize == 0
  }

  lemma ExactPages(lo: nat, hi: nat, d: nat)
    requires d > 0 && lo <= hi && lo % d == 0 && hi % d == 0
    ensures (hi - lo) / d * d == hi - lo
  {
    var q := hi / d - lo / d;
    assert hi - lo == q * d by {
      assert hi == hi / d * d && lo == lo / d * d;
    }
    if q >= 0 {
      DivModUnique(hi - lo, d, q, 0);
    }
  }

  datatype AccessError =
    | SpaceNotInitialized
    | EmptyRange
    | InvalidPermissions
    | WrongAddressSpace
    | AddressOutOfRange
    | UnmappedAddress(address: nat)
    | PermissionDenied(deniedAt: nat)
    | OutputSizeMismatch
    | StaleMapping(mapping: nat, generation: nat)

  datatype ResolvedRange = ResolvedRange(
    addressSpace: nat,
    offset: nat,
    size: nat,
    permissions: Permissions,
    segments: seq<ResolvedMapping>
  )

  /** Byte `a` is mapped with at least these permissions. */
  ghost predicate Accessible(s: Space, a: nat, permissions: Permissions) {
    exists o :: Hit(s.mappings, o, a) && permissions <= s.mappings[o].attr.permissions
  }

  /** What keeps one byte from being resolved. */
  ghost predicate ResolutionFails(s: Space, offset: nat, permissions: Permissions, why: AccessError) {
    match why
    case SpaceNotInitialized => s.regions.None?
    case AddressOutOfRange => offset >= s.limit
    case InvalidPermissions => permissions == {}
    case UnmappedAddress(address) => address == offset && forall o :: !Hit(s.mappings, o, offset)
    case PermissionDenied(address) =>
      address == offset && exists o :: Hit(s.mappings, o, offset) && !(permissions <= s.mappings[o].attr.permissions)
    case _ => false
  }

  /** Segment `k` is the first whose record is no longer current. */
  ghost predicate FirstStale(s: Space, segments: seq<ResolvedMapping>, k: nat) {
    && k < |segments| && !Current(s, segments[k].mapping)
    && forall i :: 0 <= i < k ==> Current(s, segments[i].mapping)
  }

  class GpuAddressSpace {
    const id: nat
    const profile: Profile
    var regions: Option<Regions>
    var reservations: Reservations
    var mappings: Table
    var nextMappingId: nat
    var mappingGeneration: nat

    ghost function State(): Space
      reads this
    {
      Space(profile.addressLimit, regions, reservations, mappings, nextMappingId, mappingGeneration)
    }

    ghost predicate Valid()
      reads this
    {
      IsPowerOfTwo(profile.smallPageSize) && Inv(State())
    }

    constructor (id: nat, profile: Profile)
      requires profile.addressLimit <= U64_SIZE && IsPowerOfTwo(profile.smallPageSize)
      ensures Valid()
      ensures this.id == id && this.profile == profile
      ensures State() == Space(profile.addressLimit, None, map[], map[], 1, 0)
    {
      this.id := id;
      this.profile := profile;
      regions := None;
      reservations := map[];
      mappings := map[];
      nextMappingId := 1;
      mappingGeneration := 0;
    }

    method CheckGeometry(g: Geometry) returns (sound: bool)
      requires profile.smallPageSize > 0 && g.bigPageSize > 0
      ensures sound <==> GeometryAccepts(profile, g)
    {
      if g.start >= g.split || g.split >= g.end || g.end > profile.addressLimit {
        return false;
      }
      return g.start % profile.smallPageSize == 0 && g.split % profile.smallPageSize == 0
          && g.split % g.bigPageSize == 0 && g.end % g.bigPageSize == 0;
    }

    /** Establishes the small-page and big-page regions, which meet at the split. */
    method Initialize(bigPageSize: u32, start: u64, end: u64, split: u64) returns (r: Result<(), SpaceError>)
      requires Valid()
      modifies this
      ensures Valid() && Advances(old(State()), State())
      ensures r.Ok? <==>
              && old(regions).None?
              && var g := SelectedGeometry(profile, bigPageSize, start, end, split);
                 BigPageAccepts(profile, g.bigPageSize) && GeometryAccepts(profile, g)
      ensures r.Err? ==> State() == old(State())
      ensures r.Err? ==>
              var g := SelectedGeometry(profile, bigPageSize, start, end, split);
              var big := BigPageAccepts(profile, g.bigPageSize);
              InitializeFails(old(State()), big, big && GeometryAccepts(profile, g), r.error)
      ensures r.Ok? ==>
              && State() == old(State()).(regions := regions)
              && var g := SelectedGeometry(profile, bigPageSize, start, end, split);
                 && regions.Some?
                 && regions.value.small.pageSize == profile.smallPageSize
                 && regions.value.big.pageSize == g.bigPageSize
                 && regions.value.small.offset == g.start
                 && regions.value.small.End() == g.split == regions.value.big.offset
                 && regions.value.big.End() == g.end
    {
      if regions.Some? {
        return Err(AlreadyInitialized);
      }
      var big := if bigPageSize == 0 then profile.bigPageSize else bigPageSize;
      if !IsPowerOfTwo(big) || profile.availableBigPageSizes / big % 2 == 0 {
        return Err(InvalidBigPageSize);
      }
      var g := if start != 0 || end != 0 || split != 0 then Geometry(big, start, split, end)
               else Geometry(big, big * 1024, DEFAULT_VA_SPLIT, DEFAULT_VA_END);
      var sound := CheckGeometry(g);
      if !sound {
        return Err(InvalidGeometry);
      }
      var smallPages := (g.split - g.start) / profile.smallPageSize;
      var bigPages := (g.end - g.split) / g.bigPageSize;
      ExactPages(g.start, g.split, profile.smallPageSize);
      ExactPages(g.split, g.end, g.bigPageSize);
      regions := Some(Regions(Region(g.start, profile.smallPageSize, smallPages),
                              Region(g.split, g.bigPageSize, bigPages)));
      return Ok(());
    }

    method OverlapsReservation(start: nat, end: nat) returns (overlaps: bool)
      ensures overlaps <==> exists r :: r in reservations && reservations[r].Overlaps(start, end)
    {
      var keys := OrderedKeys(reservations);
      for i := 0 to |keys|
        invariant forall r :: r in keys[..i] ==> !reservations[r].Overlaps(start, end)
      {
        if reservations[keys[i]].Overlaps(start, end) {
          return true;
        }
        assert keys[..i + 1] == keys[..i] + [keys[i]];
      }
      assert keys[..|keys|] == keys;
      return false;
    }

    method OverlapsMapping(start: nat, end: nat) returns (overlaps: bool)
      ensures overlaps <==> exists o :: o in mappings && mappings[o].Overlaps(start, end)
    {
      var keys := OrderedKeys(mappings);
      for i := 0 to |keys|
        invariant forall o :: o in keys[..i] ==> !mappings[o].Overlaps(start, end)
      {
        if mappings[keys[i]].Overlaps(start, end) {
          return true;
        }
        assert keys[..i + 1] == keys[..i] + [keys[i]];
      }
      assert keys[..|keys|] == keys;
      return false;
    }

    /** The reservation containing a range; at most one can, because reservations are disjoint. */
    method ReservationContaining(start: nat, end: nat) returns (found: Option<Reservation>)
      ensures found.None? <==> !Reserved(State(), start, end)
      ensures found.Some? ==> exists r :: r in reservations && reservations[r] == found.value && found.value.Contains(start, end)
    {
      var keys := OrderedKeys(reservations);
      for i := 0 to |keys|
        invariant forall r :: r in keys[..i] ==> !reservations[r].Contains(start, end)
      {
        if reservations[keys[i]].Contains(start, end) {
          return Some(reservations[keys[i]]);
        }
        assert keys[..i + 1] == keys[..i] + [keys[i]];
      }
      assert keys[..|keys|] == keys;
      return None;
    }

    method SparseAt(start: nat, end: nat) returns (sparse: bool)
      requires SoundReservations(reservations, profile.addressLimit) && start < end
      ensures sparse <==> SparselyReserved(reservations, start, end)
    {
      var containing := ReservationContaining(start, end);
      if containing.None? {
        return false;
      }
      ghost var r :| r in reservations && reservations[r] == containing.value && containing.value.Contains(start, end);
      forall q | q in reservations && reservations[q].Contains(start, end)
        ensures q == r
      {
        assert reservations[q].offset == q && reservations[r].offset == r;
      }
      return containing.value.sparse;
    }

    /** The furthest end among everything occupying part of `[start, end)`, if anything does. */
    method OverlappingEnd(start: nat, end: nat) returns (furthest: Option<nat>)
      ensures furthest.None? <==> FreeRange(State(), start, end)
      ensures furthest.Some? ==> OccupantEnd(State(), start, end, furthest.value)
      ensures forall r :: r in reservations && reservations[r].Overlaps(start, end) ==> furthest.Some? && reservations[r].End() <= furthest.value
      ensures forall o :: o in mappings && mappings[o].Overlaps(start, end) ==> furthest.Some? && mappings[o].End() <= furthest.value
    {
      furthest := None;
      var keys := OrderedKeys(reservations);
      for i := 0 to |keys|
        invariant furthest.None? <==> forall r :: r in keys[..i] ==> !reservations[r].Overlaps(start, end)
        invariant furthest.Some? ==>
                    exists r :: r in reservations && reservations[r].Overlaps(start, end) && reservations[r].End() == furthest.value
        invariant forall r :: r in keys[..i] && reservations[r].Overlaps(start, end) ==>
                    furthest.Some? && reservations[r].End() <= furthest.value
      {
        assert keys[..i + 1] == keys[..i] + [keys[i]];
        var occupied := reservations[keys[i]];
        if occupied.Overlaps(start, end) && (furthest.None? || furthest.value < occupied.End()) {
          furthest := Some(occupied.End());
        }
      }
      assert keys[..|keys|] == keys;
      keys := OrderedKeys(mappings);
      ghost var reserved := furthest;
      for i := 0 to |keys|
        invariant furthest.None? <==> reserved.None? && forall o :: o in keys[..i] ==> !mappings[o].Overlaps(start, end)
        invariant furthest.Some? && reserved != furthest ==>
                    exists o :: o in mappings && mappings[o].Overlaps(start, end) && mappings[o].End() == furthest.value
        invariant reserved.Some? ==> furthest.Some? && reserved.value <= furthest.value
        invariant forall o :: o in keys[..i] && mappings[o].Overlaps(start, end) ==>
                    furthest.Some? && mappings[o].End() <= furthest.value
      {
        assert keys[..i + 1] == keys[..i] + [keys[i]];
        var occupied := mappings[keys[i]];
        if occupied.Overlaps(start, end) && (furthest.None? || furthest.value < occupied.End()) {
          furthest := Some(occupied.End());
        }
      }
      assert keys[..|keys|] == keys;
    }

    /**
     First-fit search. It returns the lowest aligned free address of the region; a result of
     `Ok(None)` or an arithmetic overflow both mean that no address of the region fits.
     */
    method FindFirstFit(region: Region, size: nat, alignment: nat) returns (r: Result<Option<nat>, SpaceError>)
      requires SoundRegion(region, profile.addressLimit)
      requires size > 0 && IsPowerOfTwo(alignment) && alignment < U64_SIZE
      ensures r.Ok? && r.value.Some? ==> IsFirstFit(State(), region, size, alignment, r.value.value)
      ensures !(r.Ok? && r.value.Some?) ==> forall a :: !Fits(State(), region, size, alignment, a)
      ensures r.Err? ==> r.error == ArithmeticOverflow && SearchFails(State(), region, size, alignment, r.error)
      ensures r == Ok(None) ==> SearchFails(State(), region, size, alignment, InsufficientAddressSpace)
    {
      var base: nat := region.offset;
      SearchStarts(State(), region, size, alignment);
      while true
        invariant Searching(State(), region, size, alignment, base, AlignUp(base, alignment))
        decreases region.End() - base
      {
        var candidate := AlignUp(base, alignment);
        SearchStops(State(), region, size, alignment, base, candidate);
        if base + alignment - 1 >= U64_SIZE || candidate + size >= U64_SIZE {
          return Err(ArithmeticOverflow);
        }
        if candidate + size > region.End() {
          return Ok(None);
        }
        var furthest := OverlappingEnd(candidate, candidate + size);
        if furthest.None? {
          return Ok(Some(candidate));
        }
        SearchContinues(State(), region, size, alignment, base, candidate, furthest.value);
        base := furthest.value;
      }
    }

    method FindRegion(pageSize: nat) returns (region: Option<Region>)
      requires regions.Some?
      ensures region == RegionFor(regions.value, pageSize)
    {
      if regions.value.small.pageSize == pageSize {
        return Some(regions.value.small);
      }
      if regions.value.big.pageSize == pageSize {
        return Some(regions.value.big);
      }
      return None;
    }

    /** The checks of a reservation that do not depend on what is occupied, and its region. */
    method CheckReservation(pages: u32, pageSize: u32, flags: u32) returns (r: Result<Region, SpaceError>)
      requires Valid()
      ensures r.Ok? <==> ReservationChecks(State(), pages, pageSize, flags)
      ensures r.Ok? ==> RegionFor(regions.value, pageSize) == Some(r.value)
      ensures r.Err? ==> ReservationCheckFails(State(), pages, pageSize, flags, r.error)
    {
      if regions.None? {
        return Err(NotInitialized);
      }
      if pages == 0 {
        return Err(InvalidPageCount);
      }
      if flags >= 4 {
        return Err(InvalidReservationFlags);
      }
      var region := FindRegion(pageSize);
      if region.None? {
        return Err(InvalidPageSize);
      }
      var sparse := flags / 2 % 2 == 1;
      if sparse && pageSize != regions.value.big.pageSize {
        return Err(SparseSmallPagesUnsupported);
      }
      return Ok(region.value);
    }

    /** Whether and where a reservation request can be placed. */
    method PlaceReservation(pages: u32, pageSize: u32, flags: u32, alignOrOffset: u64) returns (r: Result<nat, SpaceError>)
      requires Valid()
      ensures r.Ok? <==> ReserveAccepts(State(), pages, pageSize, flags, alignOrOffset)
      ensures r.Ok? ==>
              && r.value < r.value + pages * pageSize <= profile.addressLimit
              && FreeRange(State(), r.value, r.value + pages * pageSize)
              && (IsFixed(flags) ==> r.value == alignOrOffset)
              && (!IsFixed(flags) ==>
                    IsFirstFit(State(), RegionFor(regions.value, pageSize).value, pages * pageSize,
                               Max(alignOrOffset, pageSize), r.value))
      ensures r.Err? ==> ReserveFails(State(), pages, pageSize, flags, alignOrOffset, r.error)
    {
      var checked := CheckReservation(pages, pageSize, flags);
      if checked.Err? {
        return Err(checked.error);
      }
      var size := pages * pageSize;
      assert 0 < size < U64_SIZE by {
        ProductFits(pages, pageSize);
      }
      if flags % 2 == 1 {
        r := PlaceFixed(checked.value, size, pageSize, alignOrOffset);
      } else {
        r := PlaceAnywhere(checked.value, size, pageSize, Max(alignOrOffset, pageSize));
      }
    }

    method PlaceFixed(region: Region, size: nat, pageSize: nat, offset: nat) returns (r: Result<nat, SpaceError>)
      requires Valid() && pageSize > 0 && 0 < size && SoundRegion(region, profile.addressLimit)
      ensures r.Ok? <==> Fits(State(), region, size, pageSize, offset)
      ensures r.Ok? ==> r.value == offset && offset + size <= profile.addressLimit && FreeRange(State(), offset, offset + size)
      ensures r.Err? ==> FixedFails(State(), region, size, pageSize, offset, r.error)
    {
      if offset % pageSize != 0 {
        return Err(MisalignedAddress);
      }
      if offset + size >= U64_SIZE {
        return Err(ArithmeticOverflow);
      }
      if !(region.offset <= offset && offset + size <= region.End()) {
        return Err(OutsideVaRegion);
      }
      var overlaps := OverlapsReservation(offset, offset + size);
      if !overlaps {
        overlaps := OverlapsMapping(offset, offset + size);
      }
      if overlaps {
        return Err(OverlappingReservation);
      }
      return Ok(offset);
    }

    method PlaceAnywhere(region: Region, size: nat, pageSize: nat, alignment: nat) returns (r: Result<nat, SpaceError>)
      requires Valid() && pageSize > 0 && 0 < size && 0 < alignment < U64_SIZE && SoundRegion(region, profile.addressLimit)
      ensures r.Ok? <==> && IsPowerOfTwo(alignment) && alignment % pageSize == 0
                         && exists a :: Fits(State(), region, size, alignment, a)
      ensures r.Ok? ==> && IsFirstFit(State(), region, size, alignment, r.value)
                        && r.value + size <= profile.addressLimit && FreeRange(State(), r.value, r.value + size)
      ensures r.Err? ==> AnywhereFails(State(), region, size, pageSize, alignment, r.error)
    {
      if !IsPowerOfTwo(alignment) || alignment % pageSize != 0 {
        return Err(InvalidAlignment);
      }
      var fit := FindFirstFit(region, size, alignment);
      if fit.Err? {
        return Err(fit.error);
      }
      if fit.value.None? {
        return Err(InsufficientAddressSpace);
      }
      return Ok(fit.value.value);
    }

    /** Reserves a fixed range, or the lowest range that fits. */
    method Reserve(pages: u32, pageSize: u32, flags: u32, alignOrOffset: u64) returns (r: Result<Reservation, SpaceError>)
      requires Valid()
      modifies this
      ensures Valid() && Advances(old(State()), State())
      ensures r.Ok? <==> ReserveAccepts(old(State()), pages, pageSize, flags, alignOrOffset)
      ensures r.Err? ==> State() == old(State()) && ReserveFails(State(), pages, pageSize, flags, alignOrOffset, r.error)
      ensures r.Ok? ==>
              && r.value == Reservation(r.value.offset, pages, pageSize, IsSparse(flags))
              && State() == old(State()).(reservations := old(reservations)[r.value.offset := r.value])
              && FreeRange(old(State()), r.value.offset, r.value.End())
              && (IsFixed(flags) ==> r.value.offset == alignOrOffset)
              && (!IsFixed(flags) ==>
                    IsFirstFit(old(State()), RegionFor(regions.value, pageSize).value, pages * pageSize,
                               Max(alignOrOffset, pageSize), r.value.offset))
    {
      var place := PlaceReservation(pages, pageSize, flags, alignOrOffset);
      if place.Err? {
        return Err(place.error);
      }
      var reservation := Reservation(place.value, pages, pageSize, flags / 2 % 2 == 1);
      ReserveKeepsInv(State(), reservation);
      reservations := reservations[place.value := reservation];
      return Ok(reservation);
    }

    method MappingsInside(r: Reservation) returns (inside: set<nat>)
      ensures inside == InsideKeys(State(), r)
    {
      inside := set o | o in mappings && r.offset <= mappings[o].offset && mappings[o].End() <= r.End();
    }

    /** Releases exactly one reservation, together with every mapping inside it. */
    method Free(offset: nat, pages: u32, pageSize: u32) returns (r: Result<Reservation, SpaceError>)
      requires Valid()
      modifies this
      ensures Valid() && Advances(old(State()), State())
      ensures r.Ok? <==>
              && old(regions).Some?
              && offset in old(reservations)
              && old(reservations)[offset].pages == pages
              && old(reservations)[offset].pageSize == pageSize
              && Freed(old(State()), old(reservations)[offset]).generation < U64_SIZE
      ensures r.Err? ==> State() == old(State())
      ensures r.Ok? ==> r.value == old(reservations)[offset] && State() == Freed(old(State()), r.value)
      ensures r == Err(NotInitialized) <==> old(regions).None?
      ensures r == Err(UnknownReservation) <==> old(regions).Some? && offset !in old(reservations)
      ensures r == Err(ReservationShapeMismatch) <==>
                old(regions).Some? && offset in old(reservations)
                && (old(reservations)[offset].pages, old(reservations)[offset].pageSize) != (pages, pageSize)
      ensures r.Err? && r.error !in {NotInitialized, UnknownReservation, ReservationShapeMismatch} ==> r.error == GenerationExhausted
    {
      if regions.None? {
        return Err(NotInitialized);
      }
      if offset !in reservations {
        return Err(UnknownReservation);
      }
      var reservation := reservations[offset];
      if reservation.pages != pages || reservation.pageSize != pageSize {
        return Err(ReservationShapeMismatch);
      }
      var inside := MappingsInside(reservation);
      if inside != {} && mappingGeneration + 1 >= U64_SIZE {
        return Err(GenerationExhausted);
      }
      DropReservation(reservation, inside);
      return Ok(reservation);
    }

    method DropReservation(reservation: Reservation, inside: set<nat>)
      requires Valid() && inside == InsideKeys(State(), reservation)
      requires reservation.offset in reservations && reservations[reservation.offset] == reservation
      requires regions.Some? && Freed(State(), reservation).generation < U64_SIZE
      modifies this
      ensures Valid() && Advances(old(State()), State()) && State() == Freed(old(State()), reservation)
    {
      FreeKeepsInv(State(), reservation);
      if inside != {} {
        mappingGeneration := mappingGeneration + 1;
      }
      mappings := mappings - inside;
      reservations := reservations - {reservation.offset};
      assert State() == Freed(old(State()), reservation);
    }

    /** The region start a mapping request is placed at. */
    method PlaceMapping(request: MapRequest, pageSize: nat, region: Region) returns (r: Result<nat, SpaceError>)
      requires Valid() && regions.Some?
      requires pageSize > 0 && RegionFor(regions.value, pageSize) == Some(region)
      requires request.size > 0
      ensures r.Ok? ==>
              && r.value + request.size <= profile.addressLimit
              && Placed(reservations, r.value, r.value + request.size)
              && (forall o :: o in mappings ==> !mappings[o].Overlaps(r.value, r.value + request.size))
              && (request.fixedOffset.Some? ==> r.value == request.fixedOffset.value)
              && (request.fixedOffset.None? ==> IsFirstFit(State(), region, request.size, pageSize, r.value))
      ensures r.Ok? <==> MapPlaces(State(), request, pageSize, region)
      ensures r.Err? ==> PlaceFails(State(), request, pageSize, region, r.error)
    {
      if request.fixedOffset.Some? {
        var offset := request.fixedOffset.value;
        if offset % pageSize != 0 {
          return Err(MisalignedAddress);
        }
        var containing := ReservationContaining(offset, offset + request.size);
        if offset + request.size >= U64_SIZE && containing.None? {
          return Err(ArithmeticOverflow);
        }
        if containing.None? {
          return Err(OutsideReservation);
        }
        var overlaps := OverlapsMapping(offset, offset + request.size);
        if overlaps {
          return Err(OverlappingMapping);
        }
        return Ok(offset);
      } else {
        var fit := FindFirstFit(region, request.size, pageSize);
        if fit.Err? {
          return Err(fit.error);
        }
        if fit.value.None? {
          return Err(InsufficientAddressSpace);
        }
        return Ok(fit.value.value);
      }
    }

    /** The checks of a mapping request that do not depend on what is mapped already. */
    method CheckMapping(request: MapRequest) returns (r: Result<(nat, Region), SpaceError>)
      requires Valid()
      ensures r.Ok? <==> MapChecks(State(), request)
      ensures r.Ok? ==>
              && r.value.0 == ChosenPageSize(regions.value, request)
              && RegionFor(regions.value, r.value.0) == Some(r.value.1)
      ensures r.Err? ==> CheckFails(State(), request, r.error)
    {
      if regions.None? {
        return Err(NotInitialized);
      }
      var backed := ValidateBacking(request.backing, request.backingOffset, request.size, request.permissions);
      if backed.Err? {
        return Err(backed.error);
      }
      if request.kind == INVALID_PTE_KIND {
        return Err(InvalidKind);
      }
      if !IsPowerOfTwo(request.allocationAlignment) {
        return Err(InvalidAlignment);
      }
      var pageSize: nat := request.pageSize;
      if pageSize == 0 {
        var big := regions.value.big.pageSize;
        if request.allocationAlignment >= big && request.backingOffset % big == 0 && request.size % big == 0 {
          pageSize := big;
        } else {
          pageSize := regions.value.small.pageSize;
        }
      }
      var region := FindRegion(pageSize);
      if region.None? {
        return Err(InvalidPageSize);
      }
      if request.backingOffset % pageSize != 0 || request.size % pageSize != 0 {
        return Err(MisalignedBackingRange);
      }
      return Ok((pageSize, region.value));
    }

    /** The record a mapping request would install, or why it is refused. */
    method PlanMapping(request: MapRequest) returns (r: Result<Mapping, SpaceError>)
      requires Valid()
      ensures r.Ok? <==> MapAccepts(State(), request)
      ensures r.Ok? ==>
              && SoundRecord(r.value, profile.addressLimit)
              && Placed(reservations, r.value.offset, r.value.End())
              && MapsRequest(State(), request, r.value)
      ensures r.Err? ==> MapFails(State(), request, r.error)
    {
      var checked := CheckMapping(request);
      if checked.Err? {
        return Err(checked.error);
      }
      var pageSize := checked.value.0;
      var place := PlaceMapping(request, pageSize, checked.value.1);
      if place.Err? {
        return Err(place.error);
      }
      if mappingGeneration + 1 >= U64_SIZE {
        return Err(GenerationExhausted);
      }
      if nextMappingId + 1 >= U64_SIZE {
        return Err(MappingIdentityExhausted);
      }
      var offset := place.value;
      var sparse := SparseAt(offset, offset + request.size);
      var mapping := Mapping(
        offset, request.size, request.backingOffset, mappingGeneration + 1,
        Attributes(nextMappingId, offset, request.allocation, request.backing, request.permissions,
                   pageSize, request.kind, request.cacheable, request.fixedOffset.Some?, sparse));
      return Ok(mapping);
    }

    /** Maps retained canonical bytes at a fixed or first-fit address under a fresh identity. */
    method Map(request: MapRequest) returns (r: Result<Mapping, SpaceError>)
      requires Valid()
      modifies this
      ensures Valid() && Advances(old(State()), State())
      ensures r.Ok? <==> MapAccepts(old(State()), request)
      ensures r.Err? ==> State() == old(State()) && MapFails(State(), request, r.error)
      ensures r.Ok? ==>
              && State() == Mapped(old(State()), r.value)
              && MapsRequest(old(State()), request, r.value)
    {
      var plan := PlanMapping(request);
      if plan.Ok? {
        MapKeepsInv(State(), plan.value);
        mappings := mappings[plan.value.offset := plan.value];
        nextMappingId := nextMappingId + 1;
        mappingGeneration := mappingGeneration + 1;
        assert State() == Mapped(old(State()), plan.value);
      }
      return plan;
    }

    /** The identity answering to `unmapOffset`: that of the lowest record naming it. */
    method FindNamed(unmapOffset: nat) returns (first: Option<nat>)
      ensures first.None? <==> forall o :: o in mappings ==> mappings[o].attr.unmapOffset != unmapOffset
      ensures first.Some? ==> FirstNamed(mappings, unmapOffset, first.value)
    {
      var keys := OrderedKeys(mappings);
      for i := 0 to |keys|
        invariant forall k :: 0 <= k < i ==> mappings[keys[k]].attr.unmapOffset != unmapOffset
      {
        if mappings[keys[i]].attr.unmapOffset == unmapOffset {
          FirstInOrder(mappings, keys, i, unmapOffset);
          return Some(keys[i]);
        }
      }
      forall o | o in mappings
        ensures mappings[o].attr.unmapOffset != unmapOffset
      {
        assert o in keys;
      }
      return None;
    }

    /**
     Removes every active piece of the identity the lowest record naming `offset` belongs to; an
     offset no record names is a no-op.
     */
    method Unmap(offset: nat) returns (r: Result<seq<Mapping>, SpaceError>, ghost first: Option<nat>)
      requires Valid()
      modifies this
      ensures Valid() && Advances(old(State()), State())
      ensures first.None? ==> forall o :: o in old(mappings) ==> old(mappings)[o].attr.unmapOffset != offset
      ensures first.Some? ==> FirstNamed(old(mappings), offset, first.value)
      ensures r.Ok? <==> old(regions).Some? && (first.Some? ==> old(mappingGeneration) + 1 < U64_SIZE)
      ensures r.Err? ==> State() == old(State()) && r.error == if regions.None? then NotInitialized else GenerationExhausted
      ensures r.Ok? && first.None? ==> r.value == [] && State() == old(State())
      ensures r.Ok? && first.Some? ==>
              && State() == Unmapped(old(State()), old(mappings)[first.value].attr.id)
              && ListsIdentity(r.value, old(mappings), old(mappings)[first.value].attr.id)
    {
      var named, removed, gone := PlanUnmap(offset);
      first := named;
      if regions.None? {
        return Err(NotInitialized), first;
      }
      if named.None? {
        return Ok([]), first;
      }
      if mappingGeneration + 1 >= U64_SIZE {
        return Err(GenerationExhausted), first;
      }
      DropIdentity(mappings[named.value].attr.id, gone);
      return Ok(removed), first;
    }

    method DropIdentity(identity: nat, gone: set<nat>)
      requires Valid() && regions.Some? && gone == IdentityKeys(mappings, identity) && mappingGeneration + 1 < U64_SIZE
      modifies this`mappings, this`mappingGeneration
      ensures Valid() && Advances(old(State()), State()) && State() == Unmapped(old(State()), identity)
    {
      UnmapKeepsInv(State(), identity);
      mappings := mappings - gone;
      mappingGeneration := mappingGeneration + 1;
    }

    /** The identity an offset names, and its pieces. */
    method PlanUnmap(offset: nat) returns (named: Option<nat>, removed: seq<Mapping>, gone: set<nat>)
      requires Valid()
      ensures named.None? ==> forall o :: o in mappings ==> mappings[o].attr.unmapOffset != offset
      ensures named.Some? ==>
              && FirstNamed(mappings, offset, named.value)
              && gone == IdentityKeys(mappings, mappings[named.value].attr.id)
              && ListsIdentity(removed, mappings, mappings[named.value].attr.id)
    {
      named := FindNamed(offset);
      removed, gone := [], {};
      if named.Some? {
        removed, gone := CollectIdentity(mappings[named.value].attr.id);
      }
    }

    /** The pieces of one identity in address order, with their keys. */
    method CollectIdentity(identity: nat) returns (pieces: seq<Mapping>, gone: set<nat>)
      requires Valid()
      ensures gone == IdentityKeys(mappings, identity)
      ensures ListsIdentity(pieces, mappings, identity)
    {
      var keys := OrderedKeys(mappings);
      pieces, gone := [], {};
      for i := 0 to |keys|
        invariant Collects(mappings, keys[..i], identity, pieces, gone)
      {
        assert keys[..i + 1] == keys[..i] + [keys[i]];
        CollectsOneMore(mappings, keys[..i], keys[i], identity, pieces, gone);
        if mappings[keys[i]].attr.id == identity {
          pieces := pieces + [mappings[keys[i]]];
          gone := gone + {keys[i]};
        }
      }
      assert keys[..|keys|] == keys;
      CollectsAll(mappings, keys, identity, pieces, gone);
    }

    // ---- sparse remap ------------------------------------------------------------------------

    method CheckRequest(request: RemapRequest, pageSize: nat) returns (r: Result<(), SpaceError>)
      requires Valid() && pageSize > 0
      ensures r.Ok? <==> RequestAccepts(State(), pageSize, request)
      ensures r.Err? ==> RequestFails(State(), pageSize, request, r.error)
    {
      if request.size == 0 {
        return Err(EmptyMapping);
      }
      if request.offset % pageSize != 0 || request.size % pageSize != 0 {
        return Err(MisalignedAddress);
      }
      var containing := ReservationContaining(request.offset, request.End());
      if containing.None? {
        return Err(if request.End() >= U64_SIZE then ArithmeticOverflow else OutsideReservation);
      }
      var sparse := SparseAt(request.offset, request.End());
      if !sparse {
        return Err(NonSparseReservation);
      }
      if request.mapping.Some? {
        var source := request.mapping.value;
        if source.kind == INVALID_PTE_KIND {
          return Err(InvalidKind);
        }
        var backed := ValidateBacking(source.backing, source.backingOffset, request.size, source.permissions);
        if backed.Err? {
          return Err(backed.error);
        }
        if source.backingOffset % pageSize != 0 {
          return Err(MisalignedBackingRange);
        }
      }
      return Ok(());
    }

    /** Validates every request and rejects overlapping spans. */
    method CheckRequests(requests: seq<RemapRequest>, pageSize: nat) returns (r: Result<(), SpaceError>)
      requires Valid() && pageSize > 0
      ensures r.Ok? <==> (forall i :: 0 <= i < |requests| ==> RequestAccepts(State(), pageSize, requests[i]))
                         && SpansDisjoint(requests)
      ensures r.Err? ==> RequestsFail(State(), pageSize, requests, r.error)
    {
      for i := 0 to |requests|
        invariant forall k :: 0 <= k < i ==> RequestAccepts(State(), pageSize, requests[k])
        invariant SpansDisjoint(requests[..i])
      {
        var checked := CheckRequest(requests[i], pageSize);
        if checked.Err? {
          return Err(checked.error);
        }
        for j := 0 to i
          invariant forall k :: 0 <= k < j ==> !SpansOverlap(requests[k], requests[i])
        {
          if SpansOverlap(requests[j], requests[i]) {
            return Err(OverlappingRemapEntries);
          }
        }
      }
      assert requests[..|requests|] == requests;
      return Ok(());
    }

    /** The checks of a sparse remap, and the page size it works in. */
    method CheckRemap(requests: seq<RemapRequest>) returns (r: Result<nat, SpaceError>)
      requires Valid()
      ensures r.Ok? <==> RemapAccepts(State(), requests)
      ensures r.Ok? ==> r.value == regions.value.big.pageSize
      ensures r.Err? ==> RemapFails(State(), requests, r.error)
    {
      if regions.None? {
        return Err(NotInitialized);
      }
      var pageSize := regions.value.big.pageSize;
      if requests == [] {
        return Err(EmptyRemap);
      }
      var checked := CheckRequests(requests, pageSize);
      if checked.Err? {
        return Err(checked.error);
      }
      if mappingGeneration + 1 >= U64_SIZE {
        return Err(GenerationExhausted);
      }
      if nextMappingId + CountMapped(requests) >= U64_SIZE {
        return Err(MappingIdentityExhausted);
      }
      return Ok(pageSize);
    }

    /** Replaces big-page subranges of sparse reservations, all or none. */
    method RemapSparse(requests: seq<RemapRequest>) returns (r: Result<(), SpaceError>)
      requires Valid()
      modifies this
      ensures Valid() && Advances(old(State()), State())
      ensures r.Ok? <==> RemapAccepts(old(State()), requests)
      ensures r.Err? ==> State() == old(State()) && RemapFails(State(), requests, r.error)
      ensures r.Ok? ==>
              && State() == old(State()).(mappings := mappings, generation := old(mappingGeneration) + 1,
                                          nextMappingId := old(nextMappingId) + CountMapped(requests))
              && Remaps(old(mappings), mappings, requests, regions.value.big.pageSize, old(nextMappingId))
              && RemapsFields(mappings, requests, regions.value.big.pageSize, old(nextMappingId))
    {
      var checked := CheckRemap(requests);
      if checked.Err? {
        return Err(checked.error);
      }
      var pageSize := checked.value;
      var remapped := RemappedTable(reservations, profile.addressLimit, mappings, requests, pageSize, nextMappingId, mappingGeneration);
      RemapsByFields(mappings, remapped, requests, pageSize, nextMappingId);
      InstallTable(remapped, nextMappingId + CountMapped(requests));
      return Ok(());
    }

    /** Replaces the table under the next generation. */
    method InstallTable(t: Table, nextId: nat)
      requires Valid() && regions.Some? && mappingGeneration + 1 < U64_SIZE && nextMappingId <= nextId < U64_SIZE
      requires TableInv(reservations, t, profile.addressLimit, nextId, mappingGeneration + 1)
      requires RestampedBy(mappings, t, mappingGeneration + 1)
      modifies this`mappings, this`nextMappingId, this`mappingGeneration
      ensures Valid() && Advances(old(State()), State())
      ensures State() == Installed(old(State()), t, nextId)
    {
      InstallKeepsInv(State(), t, nextId);
      mappings := t;
      nextMappingId := nextId;
      mappingGeneration := mappingGeneration + 1;
      assert State() == Installed(old(State()), t, nextId);
    }

    // ---- modify ------------------------------------------------------------------------------

    /** The checks of a modification's range against the record it names. */
    method CheckModifyRange(first: nat, start: nat, size: nat) returns (r: Result<(), SpaceError>)
      requires Valid() && first in mappings && mappings[first].attr.pageSize > 0 && size > 0
      ensures r.Ok? <==> RangeAligned(State(), first, start, size) && IdentityCovers(mappings, mappings[first].attr.id, start, start + size)
      ensures r == Err(PartialMapping) <==>
                RangeAligned(State(), first, start, size) && !IdentityCovers(mappings, mappings[first].attr.id, start, start + size)
      ensures r.Err? ==> RangeFails(State(), first, start, size, r.error)
    {
      var end := start + size;
      if end >= U64_SIZE {
        return Err(ArithmeticOverflow);
      }
      var identity := mappings[first].attr.id;
      var pageSize := mappings[first].attr.pageSize;
      if start % pageSize != 0 || size % pageSize != 0 {
        return Err(MisalignedAddress);
      }
      var covers := CoversRange(mappings, identity, start, end, profile.addressLimit);
      OwnedMeansCovered(mappings, profile.addressLimit, identity, start, end);
      if !covers {
        return Err(PartialMapping);
      }
      return Ok(());
    }

    /** The checks of a modification, and the identity it changes. */
    method CheckModify(unmapOffset: nat, within: u64, size: u64, kind: nat) returns (r: Result<nat, SpaceError>, named: Option<nat>)
      requires Valid()
      ensures named.None? ==> forall o :: o in mappings ==> mappings[o].attr.unmapOffset != unmapOffset
      ensures named.Some? ==> FirstNamed(mappings, unmapOffset, named.value) && mappings[named.value].attr.pageSize > 0
      ensures r.Ok? <==> regions.Some? && named.Some? && ModifyAccepts(State(), named.value, unmapOffset + within, size, kind)
      ensures r == Err(PartialMapping) <==>
              && regions.Some? && named.Some?
              && ModifyValidated(State(), named.value, unmapOffset + within, size, kind)
              && !IdentityCovers(mappings, mappings[named.value].attr.id, unmapOffset + within, unmapOffset + within + size)
      ensures r.Ok? ==> r.value == mappings[named.value].attr.id
      ensures r.Err? ==> ModifyFails(State(), named, unmapOffset + within, size, kind, r.error)
    {
      named := FindNamed(unmapOffset);
      if regions.None? {
        return Err(NotInitialized), named;
      }
      if kind == INVALID_PTE_KIND {
        return Err(InvalidKind), named;
      }
      if size == 0 {
        return Err(EmptyMapping), named;
      }
      if named.None? {
        return Err(UnknownMapping), named;
      }
      var checked := CheckModifyRange(named.value, unmapOffset + within, size);
      if checked.Err? {
        return Err(checked.error), named;
      }
      if mappingGeneration + 1 >= U64_SIZE {
        return Err(GenerationExhausted), named;
      }
      return Ok(mappings[named.value].attr.id), named;
    }

    /**
     Changes the kind and cacheability of a subrange of the identity `unmapOffset` names.
     `PartialMapping` is reported exactly when a well-formed, aligned range is not covered.
     */
    method ModifyMapping(unmapOffset: nat, within: u64, size: u64, kind: nat, cacheable: bool)
      returns (r: Result<(), SpaceError>, ghost first: Option<nat>)
      requires Valid()
      modifies this
      ensures Valid() && Advances(old(State()), State())
      ensures first.None? ==> forall o :: o in old(mappings) ==> old(mappings)[o].attr.unmapOffset != unmapOffset
      ensures first.Some? ==> FirstNamed(old(mappings), unmapOffset, first.value) && old(mappings)[first.value].attr.pageSize > 0
      ensures r.Ok? <==> old(regions).Some? && first.Some?
                         && ModifyAccepts(old(State()), first.value, unmapOffset + within, size, kind)
      ensures r == Err(PartialMapping) <==>
              && old(regions).Some? && first.Some?
              && ModifyValidated(old(State()), first.value, unmapOffset + within, size, kind)
              && !IdentityCovers(old(mappings), old(mappings)[first.value].attr.id, unmapOffset + within, unmapOffset + within + size)
      ensures r.Err? ==> State() == old(State()) && ModifyFails(State(), first, unmapOffset + within, size, kind, r.error)
      ensures r.Ok? ==>
              && State() == old(State()).(mappings := mappings, generation := old(mappingGeneration) + 1)
              && Recoloured(old(mappings), mappings, unmapOffset + within, unmapOffset + within + size, kind, cacheable)
    {
      var checked, named := CheckModify(unmapOffset, within, size, kind);
      first := named;
      if checked.Err? {
        return Err(checked.error), first;
      }
      var start := unmapOffset + within;
      var recoloured := RecolouredTable(reservations, profile.addressLimit, mappings, nextMappingId, mappingGeneration,
                                        checked.value, start, start + size, kind, cacheable);
      InstallTable(recoloured, nextMappingId);
      return Ok(()), first;
    }

    // ---- resolution --------------------------------------------------------------------------

    /** The rest of the active mapping covering `offset`, found by predecessor lookup. */
    method ResolveMaximal(offset: nat, permissions: Permissions) returns (r: Result<ResolvedMapping, AccessError>)
      requires Valid()
      ensures r.Ok? <==> regions.Some? && offset < profile.addressLimit && permissions != {}
                         && Accessible(State(), offset, permissions)
      ensures r.Ok? ==>
              && Active(State(), r.value.mapping)
              && PieceOf(r.value)
              && r.value.gpuOffset == offset
              && offset + r.value.size == r.value.mapping.End()
              && permissions <= r.value.mapping.attr.permissions
      ensures r.Err? && regions.Some? && offset < profile.addressLimit && permissions != {} ==>
              r.error == UnmappedAddress(offset) || r.error == PermissionDenied(offset)
      ensures r.Err? ==> ResolutionFails(State(), offset, permissions, r.error)
    {
      if regions.None? {
        return Err(SpaceNotInitialized);
      }
      if offset >= profile.addressLimit {
        return Err(AddressOutOfRange);
      }
      if permissions == {} {
        return Err(InvalidPermissions);
      }
      var floor := FloorKey(mappings, offset);
      if floor.None? || !mappings[floor.value].Covers(offset) {
        FloorMisses(mappings, profile.addressLimit, floor, offset);
        return Err(UnmappedAddress(offset));
      }
      var mapping := mappings[floor.value];
      assert Hit(mappings, floor.value, offset);
      if !(permissions <= mapping.attr.permissions) {
        forall o | Hit(mappings, o, offset)
          ensures o == floor.value
        {
          HitUnique(mappings, profile.addressLimit, floor.value, o, offset);
        }
        return Err(PermissionDenied(offset));
      }
      var within := offset - mapping.offset;
      return Ok(ResolvedMapping(offset, mapping.size - within, mapping.backingOffset + within, mapping));
    }

    /**
     Scatter/gather resolution of a whole range. It succeeds exactly when every byte is mapped
     with the wanted permissions; the segments then tile the range in order. Otherwise it names
     the first byte that is not accessible.
     */
    method ResolveRange(offset: nat, size: u64, permissions: Permissions) returns (r: Result<ResolvedRange, AccessError>)
      requires Valid()
      ensures r.Ok? <==> regions.Some? && permissions != {} && size > 0 && offset + size <= profile.addressLimit
                         && forall a :: offset <= a < offset + size ==> Accessible(State(), a, permissions)
      ensures r.Ok? ==>
              && r.value.addressSpace == id && r.value.offset == offset && r.value.size == size && r.value.permissions == permissions
              && Tiles(r.value.segments, offset, size)
              && AllActive(State(), r.value.segments)
              && r.value.segments != []
      ensures r.Err? && (r.error.UnmappedAddress? || r.error.PermissionDenied?) ==>
              FirstInaccessible(State(), offset, size, permissions, ErrorAddress(r.error))
      ensures r.Err? ==>
              || (r.error == EmptyRange && size == 0)
              || (r.error == AddressOutOfRange && offset + size > profile.addressLimit)
              || ResolutionFails(State(), offset, permissions, r.error)
              || ((r.error.UnmappedAddress? || r.error.PermissionDenied?)
                  && ResolutionFails(State(), ErrorAddress(r.error), permissions, r.error))
    {
      if regions.None? {
        return Err(SpaceNotInitialized);
      }
      if offset >= profile.addressLimit {
        return Err(AddressOutOfRange);
      }
      if permissions == {} {
        return Err(InvalidPermissions);
      }
      if size == 0 {
        return Err(EmptyRange);
      }
      if offset + (size - 1) >= profile.addressLimit {
        return Err(AddressOutOfRange);
      }
      var resolved := ResolveSegments(offset, size, permissions);
      if resolved.Err? {
        return Err(resolved.error);
      }
      return Ok(ResolvedRange(id, offset, size, permissions, resolved.value));
    }

    /** The resolution loop: one maximal segment after another. */
    method ResolveSegments(offset: nat, size: nat, permissions: Permissions) returns (r: Result<seq<ResolvedMapping>, AccessError>)
      requires Valid() && regions.Some? && permissions != {} && offset + size <= profile.addressLimit
      ensures r.Ok? ==> ResolvedUpTo(State(), r.value, offset, size, permissions)
      ensures r.Err? ==>
              && (r.error.UnmappedAddress? || r.error.PermissionDenied?)
              && FirstInaccessible(State(), offset, size, permissions, ErrorAddress(r.error))
              && ResolutionFails(State(), ErrorAddress(r.error), permissions, r.error)
    {
      var remaining := size;
      var cursor := offset;
      var segments := [];
      while remaining != 0
        invariant 0 <= remaining <= size && cursor == offset + (size - remaining)
        invariant ResolvedUpTo(State(), segments, offset, size - remaining, permissions)
      {
        var step := ResolveNext(segments, offset, size - remaining, remaining, permissions);
        if step.Err? {
          return Err(step.error);
        }
        segments := segments + [step.value];
        remaining := remaining - step.value.size;
        cursor := cursor + step.value.size;
      }
      return Ok(segments);
    }

    /** One more segment, cut to what remains. */
    method ResolveNext(ghost segments: seq<ResolvedMapping>, offset: nat, done: nat, remaining: nat, permissions: Permissions)
      returns (r: Result<ResolvedMapping, AccessError>)
      requires Valid() && regions.Some? && permissions != {} && remaining > 0 && offset + done + remaining <= profile.addressLimit
      requires ResolvedUpTo(State(), segments, offset, done, permissions)
      ensures r.Ok? ==> 0 < r.value.size <= remaining
      ensures r.Ok? ==> ResolvedUpTo(State(), segments + [r.value], offset, done + r.value.size, permissions)
      ensures r.Err? ==>
              && (r.error.UnmappedAddress? || r.error.PermissionDenied?)
              && FirstInaccessible(State(), offset, done + remaining, permissions, ErrorAddress(r.error))
              && ResolutionFails(State(), ErrorAddress(r.error), permissions, r.error)
    {
      var step := ResolveMaximal(offset + done, permissions);
      if step.Err? {
        return step;
      }
      var segment := step.value.(size := Min(step.value.size, remaining));
      ResolvedFurther(State(), segments, offset, done, permissions, segment);
      return Ok(segment);
    }

    /** Whether a retained record still names the active generation. */
    method RetainedMappingIsCurrent(retained: Mapping) returns (current: bool)
      ensures current <==> Current(State(), retained)
    {
      if retained.offset !in mappings {
        return false;
      }
      var mapping := mappings[retained.offset];
      return mapping.attr.id == retained.attr.id
          && mapping.generation == retained.generation
          && mapping.offset == retained.offset
          && mapping.size == retained.size;
    }

    /**
     Copies a resolved range out of canonical memory, after checking every retained record. A
     range that was resolved earlier reads the canonical bytes its own records name.
     */
    method ReadResolved(memory: Location -> nat, resolved: ResolvedRange, outputSize: nat) returns (r: Result<seq<nat>, AccessError>)
      requires Tiles(resolved.segments, resolved.offset, resolved.size)
      requires SegmentsBacked(resolved.segments)
      ensures r.Ok? <==> resolved.addressSpace == id && Read in resolved.permissions && outputSize == resolved.size
                         && AllCurrent(State(), resolved.segments)
      ensures r.Ok? ==> |r.value| == resolved.size
      ensures r.Ok? ==> forall i {:trigger r.value[i]} :: 0 <= i < resolved.size ==>
                          ByteLocated(memory, resolved.segments, resolved.offset, resolved.size, resolved.offset + i, r.value[i])
      ensures r == Err(WrongAddressSpace) <==> resolved.addressSpace != id
      ensures r.Err? ==>
              || (r.error == WrongAddressSpace && resolved.addressSpace != id)
              || (r.error == PermissionDenied(resolved.offset) && Read !in resolved.permissions)
              || (r.error == OutputSizeMismatch && outputSize != resolved.size)
              || (exists k: nat :: FirstStale(State(), resolved.segments, k)
                              && r.error == StaleMapping(resolved.segments[k].mapping.attr.id, resolved.segments[k].mapping.generation))
    {
      if resolved.addressSpace != id {
        return Err(WrongAddressSpace);
      }
      if Read !in resolved.permissions {
        return Err(PermissionDenied(resolved.offset));
      }
      if outputSize != resolved.size {
        return Err(OutputSizeMismatch);
      }
      for i := 0 to |resolved.segments|
        invariant forall k :: 0 <= k < i ==> Current(State(), resolved.segments[k].mapping)
      {
        var current := RetainedMappingIsCurrent(resolved.segments[i].mapping);
        if !current {
          assert FirstStale(State(), resolved.segments, i);
          return Err(StaleMapping(resolved.segments[i].mapping.attr.id, resolved.segments[i].mapping.generation));
        }
      }
      var output := CopySegments(memory, resolved.segments, resolved.offset, resolved.size);
      return Ok(output);
    }
  }

  /** Something that occupies part of `[start, end)` ends at `furthest`. */
  ghost predicate OccupantEnd(s: Space, start: nat, end: nat, furthest: nat) {
    || (exists r :: r in s.reservations && s.reservations[r].Overlaps(start, end) && s.reservations[r].End() == furthest)
    || (exists o :: o in s.mappings && s.mappings[o].Overlaps(start, end) && s.mappings[o].End() == furthest)
  }

  /** Nothing fits between an occupied candidate and the end of what occupies it. */
  lemma SkipIsSafe(s: Space, candidate: nat, size: nat, furthest: nat, a: nat)
    requires candidate <= a && size > 0
    requires FreeRange(s, a, a + size)
    requires OccupantEnd(s, candidate, candidate + size, furthest)
    ensures furthest <= a
  {
    if r :| r in s.reservations && s.reservations[r].Overlaps(candidate, candidate + size) && s.reservations[r].End() == furthest {
      assert !s.reservations[r].Overlaps(a, a + size);
    } else {
      var o :| o in s.mappings && s.mappings[o].Overlaps(candidate, candidate + size) && s.mappings[o].End() == furthest;
      assert !s.mappings[o].Overlaps(a, a + size);
    }
  }

  lemma NoRoomPastOverflow(s: Space, region: Region, size: nat, alignment: nat, from: nat)
    requires region.End() < U64_SIZE && size > 0 && IsPowerOfTwo(alignment) && alignment < U64_SIZE
    requires from + alignment - 1 >= U64_SIZE
    ensures forall a :: from <= a ==> !Fits(s, region, size, alignment, a)
  {
    forall a | from <= a && Fits(s, region, size, alignment, a)
      ensures false
    {
      NoMultipleLeft(from, alignment, a);
    }
  }

  /** The candidate is the first aligned address from `base`, and nothing below it fits. */
  ghost predicate Searching(s: Space, region: Region, size: nat, alignment: nat, base: nat, candidate: nat)
    requires alignment > 0
  {
    && SearchBase(s, region, base) && candidate == AlignUp(base, alignment)
    && region.offset <= candidate && candidate % alignment == 0
    && forall a :: Fits(s, region, size, alignment, a) ==> candidate <= a
  }

  lemma SearchStarts(s: Space, region: Region, size: nat, alignment: nat)
    requires alignment > 0
    ensures Searching(s, region, size, alignment, region.offset, AlignUp(region.offset, alignment))
  {
    forall a: nat {
      AlignUpLeast(region.offset, alignment, a);
    }
  }

  lemma SearchContinues(s: Space, region: Region, size: nat, alignment: nat, base: nat, candidate: nat, furthest: nat)
    requires alignment > 0 && size > 0 && Searching(s, region, size, alignment, base, candidate)
    requires OccupantEnd(s, candidate, candidate + size, furthest)
    ensures Searching(s, region, size, alignment, furthest, AlignUp(furthest, alignment)) && base <= candidate < furthest
  {
    AlignUpLeast(base, alignment, 0);
    AlignUpLeast(furthest, alignment, 0);
    forall a | Fits(s, region, size, alignment, a)
      ensures AlignUp(furthest, alignment) <= a
    {
      SkipIsSafe(s, candidate, size, furthest, a);
      AlignUpLeast(furthest, alignment, a);
    }
  }

  /** Where the search gives up nothing fits, and the error says how. */
  lemma SearchStops(s: Space, region: Region, size: nat, alignment: nat, base: nat, candidate: nat)
    requires IsPowerOfTwo(alignment) && alignment < U64_SIZE && size > 0 && region.End() < U64_SIZE
    requires Searching(s, region, size, alignment, base, candidate)
    ensures base + alignment - 1 >= U64_SIZE || candidate + size >= U64_SIZE ==>
              SearchFails(s, region, size, alignment, ArithmeticOverflow)
    ensures base + alignment - 1 < U64_SIZE && region.End() < candidate + size < U64_SIZE ==>
              SearchFails(s, region, size, alignment, InsufficientAddressSpace)
    ensures candidate + size <= region.End() && FreeRange(s, candidate, candidate + size) ==>
              IsFirstFit(s, region, size, alignment, candidate)
  {
    if base + alignment - 1 >= U64_SIZE {
      NoRoomPastOverflow(s, region, size, alignment, base);
      AlignUpLeast(base, alignment, 0);
    }
  }

  ghost predicate InAddressOrder(pieces: seq<Mapping>) {
    forall i, j :: 0 <= i < j < |pieces| ==> pieces[i].offset < pieces[j].offset
  }

  /** `pieces` lists exactly the records of one identity, once each and in address order. */
  ghost predicate ListsIdentity(pieces: seq<Mapping>, t: Table, identity: nat) {
    && InAddressOrder(pieces)
    && forall m :: m in pieces <==> exists k :: k in IdentityKeys(t, identity) && t[k] == m
  }

  /** `pieces` and `gone` are the records of the identity, and their keys, among `seen`. */
  ghost predicate Collects(t: Table, seen: seq<nat>, identity: nat, pieces: seq<Mapping>, gone: set<nat>) {
    && (forall k :: k in gone <==> k in seen && k in t && t[k].attr.id == identity)
    && (forall m :: m in pieces <==> exists k :: k in gone && t[k] == m)
    && (forall m :: m in pieces ==> m.offset in seen)
    && InAddressOrder(pieces)
  }

  lemma InAddressOrderAppend(pieces: seq<Mapping>, m: Mapping)
    requires InAddressOrder(pieces) && forall p :: p in pieces ==> p.offset < m.offset
    ensures InAddressOrder(pieces + [m])
  {
    var more := pieces + [m];
    forall i, j | 0 <= i < j < |more|
      ensures more[i].offset < more[j].offset
    {
      assert more[i] in pieces;
    }
  }

  lemma AscendingLast(seen: seq<nat>, key: nat, k: nat)
    requires Ascending(seen + [key]) && k in seen
    ensures k < key
  {
    var i :| 0 <= i < |seen| && seen[i] == k;
    assert (seen + [key])[i] == k && (seen + [key])[|seen|] == key;
  }

  lemma PieceAppended(t: Table, gone: set<nat>, pieces: seq<Mapping>, key: nat)
    requires key in t && (forall k :: k in gone ==> k in t)
    requires forall m :: m in pieces <==> exists k :: k in gone && t[k] == m
    ensures forall m :: m in pieces + [t[key]] <==> exists k :: k in gone + {key} && t[k] == m
  {
    forall m
      ensures m in pieces + [t[key]] <==> exists k :: k in gone + {key} && t[k] == m
    {
      if m in pieces {
        var k :| k in gone && t[k] == m;
        assert k in gone + {key};
      }
      if m == t[key] {
        assert key in gone + {key};
      }
      if k :| k in gone + {key} && t[k] == m {
        assert k == key || k in gone;
      }
    }
  }

  lemma CollectsOneMore(t: Table, seen: seq<nat>, key: nat, identity: nat, pieces: seq<Mapping>, gone: set<nat>)
    requires Collects(t, seen, identity, pieces, gone) && Ascending(seen + [key]) && key in t && t[key].offset == key
    ensures if t[key].attr.id == identity
            then Collects(t, seen + [key], identity, pieces + [t[key]], gone + {key})
            else Collects(t, seen + [key], identity, pieces, gone)
  {
    assert forall k :: k in seen + [key] <==> k in seen || k == key;
    if t[key].attr.id == identity {
      forall p | p in pieces
        ensures p.offset < key
      {
        AscendingLast(seen, key, p.offset);
      }
      InAddressOrderAppend(pieces, t[key]);
      PieceAppended(t, gone, pieces, key);
    }
  }

  lemma CollectsAll(t: Table, keys: seq<nat>, identity: nat, pieces: seq<Mapping>, gone: set<nat>)
    requires Collects(t, keys, identity, pieces, gone) && ListsKeys(keys, t)
    ensures gone == IdentityKeys(t, identity) && ListsIdentity(pieces, t, identity)
  {
    assert forall k :: k in gone <==> k in IdentityKeys(t, identity);
  }

  lemma ProductFits(pages: u32, pageSize: u32)
    requires pages > 0 && pageSize > 0
    ensures 0 < pages * pageSize < U64_SIZE
  {
    MulAtMost(1, pages, pageSize);
    MulAtMost(pages, U32_SIZE - 1, pageSize);
  }

  /** The record `map` installs: the request's bytes, a fresh identity, and the next generation. */
  ghost predicate MapsRequest(s: Space, request: MapRequest, m: Mapping) {
    && s.regions.Some?
    && s.regions.value.big.pageSize > 0
    && m.size == request.size
    && m.backingOffset == request.backingOffset
    && m.generation == s.generation + 1
    && m.attr == Attributes(s.nextMappingId, m.offset, request.allocation, request.backing, request.permissions,
                            ChosenPageSize(s.regions.value, request), request.kind, request.cacheable,
                            request.fixedOffset.Some?, SparselyReserved(s.reservations, m.offset, m.End()))
    && (forall o :: o in s.mappings ==> !s.mappings[o].Overlaps(m.offset, m.End()))
    && match request.fixedOffset
       case Some(offset) => m.offset == offset
       case None =>
         var pageSize := ChosenPageSize(s.regions.value, request);
         && pageSize > 0
         && RegionFor(s.regions.value, pageSize).Some?
         && IsFirstFit(s, RegionFor(s.regions.value, pageSize).value, request.size, pageSize, m.offset)
  }

  /** Mapping turns unmapped bytes into the request's bytes and changes nothing else. */
  lemma MapMeaning(s: Space, request: MapRequest, m: Mapping, a: nat)
    requires Inv(s) && SoundRecord(m, s.limit)
    requires MapsRequest(s, request, m)
    ensures m.Covers(a) ==> Translate(s.mappings, a).None?
    ensures Translate(Mapped(s, m).mappings, a)
         == if m.Covers(a) then Some(ByteView(request.backingOffset + (a - m.offset), m.attr)) else Translate(s.mappings, a)
  {
    InsertMeaning(s.mappings, s.limit, m, a);
    if m.Covers(a) {
      forall o
        ensures !Hit(s.mappings, o, a)
      {
      }
    }
  }

  lemma FirstInOrder(t: Table, keys: seq<nat>, i: nat, unmapOffset: nat)
    requires ListsKeys(keys, t) && i < |keys|
    requires forall k :: 0 <= k < i ==> t[keys[k]].attr.unmapOffset != unmapOffset
    requires t[keys[i]].attr.unmapOffset == unmapOffset
    ensures FirstNamed(t, unmapOffset, keys[i])
  {
    forall p | p in t && t[p].attr.unmapOffset == unmapOffset
      ensures keys[i] <= p
    {
      assert p in keys;
      var k :| 0 <= k < |keys| && keys[k] == p;
      assert i <= k;
    }
  }

  /** `t'` means what `r` says on its span, and what `t` means elsewhere. */
  ghost predicate Overlays(t: Table, t': Table, r: RemapRequest, id: nat, pageSize: nat) {
    forall a :: Translate(t', a) == if r.InSpan(a) then RequestView(r, id, pageSize, a) else Translate(t, a)
  }

  /** `t'` means what the requests, run in turn over `t`, say. */
  ghost predicate Remaps(t: Table, t': Table, requests: seq<RemapRequest>, pageSize: nat, nextMappingId: nat) {
    forall a :: Translate(t', a) == RemapView(Translate(t, a), requests, pageSize, nextMappingId, a)
  }

  /** Field by field, every byte of every span means what its request says. */
  ghost predicate RemapsFields(t': Table, requests: seq<RemapRequest>, pageSize: nat, nextMappingId: nat) {
    forall j: nat, a: nat :: j < |requests| && requests[j].offset <= a < requests[j].offset + requests[j].size ==>
      MeansRequest(Translate(t', a), requests[j], nextMappingId + |MappedBefore(requests, j)|, pageSize, a)
  }

  lemma RemapsByFields(t: Table, t': Table, requests: seq<RemapRequest>, pageSize: nat, nextMappingId: nat)
    requires SpansDisjoint(requests) && Remaps(t, t', requests, pageSize, nextMappingId)
    ensures RemapsFields(t', requests, pageSize, nextMappingId)
  {
    forall j: nat, a: nat | j < |requests| && requests[j].offset <= a < requests[j].offset + requests[j].size
      ensures MeansRequest(Translate(t', a), requests[j], nextMappingId + |MappedBefore(requests, j)|, pageSize, a)
    {
      RemapFields(Translate(t, a), requests, pageSize, nextMappingId, a, j);
    }
  }

  lemma RemapsOneMore(t0: Table, t: Table, t': Table, requests: seq<RemapRequest>, k: nat, pageSize: nat, nextMappingId: nat)
    requires k < |requests|
    requires Remaps(t0, t, requests[..k], pageSize, nextMappingId)
    requires Overlays(t, t', requests[k], nextMappingId + CountMapped(requests[..k]), pageSize)
    ensures Remaps(t0, t', requests[..k + 1], pageSize, nextMappingId)
  {
    var more := requests[..k + 1];
    assert more[..k] == requests[..k] && more[k] == requests[k];
  }

  /** One remap request applied to a working copy of the table. */
  method ApplyRequest(ghost rs: Reservations, ghost limit: nat, ghost t0: Table, t: Table, r: RemapRequest, id: nat, pageSize: nat, generation: nat)
    returns (t': Table)
    requires TableInv(rs, t, limit, id, generation) && limit <= U64_SIZE
    requires RestampedBy(t0, t, generation)
    requires r.size > 0 && SparselyReserved(rs, r.offset, r.End())
    requires r.mapping.Some? ==> SoundRecord(NewRecord(r, id, pageSize, generation), limit)
    ensures TableInv(rs, t', limit, id + (if r.mapping.Some? then 1 else 0), generation)
    ensures RestampedBy(t0, t', generation)
    ensures Overlays(t, t', r, id, pageSize)
  {
    ghost var e := Erase(r.offset, r.End(), generation);
    ghost var done := AffectedSet(t, e);
    var erased := ReplaceMappingRange(t, r.offset, r.End(), generation, limit);
    t' := if r.mapping.None? then erased else erased[r.offset := NewRecord(r, id, pageSize, generation)];
    forall a
      ensures Translate(t', a) == if r.InSpan(a) then RequestView(r, id, pageSize, a) else Translate(t, a)
    {
      AfterRequestMeaning(t, limit, done, erased, r, id, pageSize, generation, a);
    }
    AfterRequestMeaning(t, limit, done, erased, r, id, pageSize, generation, 0);
    EditKeepsTable(rs, t, limit, id, generation, done, e, erased);
    AfterRequestKeepsTable(rs, erased, limit, r, id, pageSize, generation);
    EditRestamps(t0, t, limit, done, e, erased);
  }

  /** The working copy after the first `k` requests. */
  ghost predicate Progress(rs: Reservations, limit: nat, t: Table, t': Table, requests: seq<RemapRequest>, k: nat,
                           pageSize: nat, nextMappingId: nat, generation: nat)
    requires k <= |requests|
  {
    && TableInv(rs, t', limit, nextMappingId + CountMapped(requests[..k]), generation)
    && RestampedBy(t, t', generation)
    && Remaps(t, t', requests[..k], pageSize, nextMappingId)
  }

  /** The next request applied to the working copy. */
  method ApplyNext(ghost rs: Reservations, ghost limit: nat, ghost t0: Table, t: Table, requests: seq<RemapRequest>, k: nat,
                   id: nat, pageSize: nat, ghost nextMappingId: nat, generation: nat) returns (t': Table)
    requires limit <= U64_SIZE && k < |requests|
    requires requests[k].size > 0 && SparselyReserved(rs, requests[k].offset, requests[k].End())
    requires requests[k].mapping.Some? ==> SoundRecord(NewRecord(requests[k], id, pageSize, generation), limit)
    requires id == nextMappingId + CountMapped(requests[..k])
    requires Progress(rs, limit, t0, t, requests, k, pageSize, nextMappingId, generation)
    ensures Progress(rs, limit, t0, t', requests, k + 1, pageSize, nextMappingId, generation)
  {
    t' := ApplyRequest(rs, limit, t0, t, requests[k], id, pageSize, generation);
    ProgressGrows(rs, limit, t0, t, t', requests, k, pageSize, nextMappingId, generation);
  }

  lemma ProgressGrows(rs: Reservations, limit: nat, t0: Table, t: Table, t': Table, requests: seq<RemapRequest>, k: nat,
                      pageSize: nat, nextMappingId: nat, generation: nat)
    requires k < |requests|
    requires TableInv(rs, t', limit, nextMappingId + CountMapped(requests[..k]) + (if requests[k].mapping.Some? then 1 else 0), generation)
    requires RestampedBy(t0, t', generation)
    requires Remaps(t0, t, requests[..k], pageSize, nextMappingId)
    requires Overlays(t, t', requests[k], nextMappingId + CountMapped(requests[..k]), pageSize)
    ensures Progress(rs, limit, t0, t', requests, k + 1, pageSize, nextMappingId, generation)
  {
    CountOneMore(requests, k);
    RemapsOneMore(t0, t, t', requests, k, pageSize, nextMappingId);
  }

  /** All requests in turn on a working copy. */
  method RemappedTable(rs: Reservations, limit: nat, t: Table, requests: seq<RemapRequest>, pageSize: nat, nextMappingId: nat, generation: nat)
    returns (t': Table)
    requires TableInv(rs, t, limit, nextMappingId, generation)
    requires SoundReservations(rs, limit) && limit <= U64_SIZE && pageSize > 0
    requires RequestsFit(rs, requests)
    ensures TableInv(rs, t', limit, nextMappingId + CountMapped(requests), generation + 1)
    ensures RestampedBy(t, t', generation + 1)
    ensures Remaps(t, t', requests, pageSize, nextMappingId)
  {
    t' := t;
    var mappingId := nextMappingId;
    RemapStart(rs, t, limit, nextMappingId, generation, requests, pageSize);
    for k := 0 to |requests|
      invariant mappingId == nextMappingId + CountMapped(requests[..k])
      invariant Progress(rs, limit, t, t', requests, k, pageSize, nextMappingId, generation + 1)
    {
      NewRecordSound(rs, limit, requests, k, mappingId, pageSize, generation + 1);
      t' := ApplyNext(rs, limit, t, t', requests, k, mappingId, pageSize, nextMappingId, generation + 1);
      CountOneMore(requests, k);
      if requests[k].mapping.Some? {
        mappingId := mappingId + 1;
      }
    }
    assert requests[..|requests|] == requests;
  }

  lemma CountOneMore(requests: seq<RemapRequest>, k: nat)
    requires k < |requests|
    ensures CountMapped(requests[..k + 1]) == CountMapped(requests[..k]) + if requests[k].mapping.Some? then 1 else 0
  {
    assert requests[..k + 1][..k] == requests[..k];
  }

  /** The part of an accepted request that installing it relies on. */
  ghost predicate RequestFits(rs: Reservations, r: RemapRequest) {
    && r.size > 0
    && SparselyReserved(rs, r.offset, r.End())
    && (r.mapping.Some? ==> BackingAccepts(r.mapping.value.backing, r.mapping.value.backingOffset, r.size, r.mapping.value.permissions))
  }

  ghost predicate RequestsFit(rs: Reservations, requests: seq<RemapRequest>) {
    forall i :: 0 <= i < |requests| ==> RequestFits(rs, requests[i])
  }

  lemma NewRecordSound(rs: Reservations, limit: nat, requests: seq<RemapRequest>, k: nat, id: nat, pageSize: nat, generation: nat)
    requires SoundReservations(rs, limit) && RequestsFit(rs, requests) && k < |requests| && pageSize > 0
    ensures requests[k].size > 0 && SparselyReserved(rs, requests[k].offset, requests[k].End())
    ensures requests[k].mapping.Some? ==> SoundRecord(NewRecord(requests[k], id, pageSize, generation), limit)
  {
    var r := requests[k];
    assert RequestFits(rs, r);
    var q :| q in rs && rs[q].Contains(r.offset, r.End()) && rs[q].sparse;
  }

  lemma RemapStart(rs: Reservations, t: Table, limit: nat, nextMappingId: nat, generation: nat, requests: seq<RemapRequest>, pageSize: nat)
    requires TableInv(rs, t, limit, nextMappingId, generation)
    ensures TableInv(rs, t, limit, nextMappingId, generation + 1)
    ensures RestampedBy(t, t, generation + 1)
    ensures Remaps(t, t, requests[..0], pageSize, nextMappingId)
  {
  }

  /** A recoloured working copy. */
  method RecolouredTable(ghost rs: Reservations, ghost limit: nat, t: Table, ghost nextMappingId: nat, generation: nat,
                         id: nat, start: nat, end: nat, kind: nat, cacheable: bool) returns (t': Table)
    requires TableInv(rs, t, limit, nextMappingId, generation) && limit <= U64_SIZE
    requires start < end && IdentityCovers(t, id, start, end)
    ensures TableInv(rs, t', limit, nextMappingId, generation + 1)
    ensures RestampedBy(t, t', generation + 1)
    ensures Recoloured(t, t', start, end, kind, cacheable)
  {
    ghost var e := Recolour(id, start, end, kind, cacheable, generation + 1);
    ghost var done := AffectedSet(t, e);
    t' := RecolourRange(t, id, start, end, kind, cacheable, generation + 1, limit);
    forall a: nat
      ensures RecolouredAt(Translate(t, a), Translate(t', a), start <= a < end, kind, cacheable)
    {
      EditMeaning(t, limit, done, e, t', a);
    }
    EditKeepsTable(rs, t, limit, nextMappingId, generation + 1, done, e, t');
    EditRestamps(t, t, limit, done, e, t');
  }

  lemma OwnedMeansCovered(t: Table, limit: nat, id: nat, start: nat, end: nat)
    requires WellFormed(t, limit)
    ensures (forall a :: start <= a < end ==> OwnedBy(t, id, a)) <==> IdentityCovers(t, id, start, end)
  {
    forall a
      ensures OwnedBy(t, id, a) <==> Translate(t, a).Some? && Translate(t, a).value.attr.id == id
    {
      if o :| Hit(t, o, a) {
        TranslateHit(t, limit, o, a);
        forall p | Hit(t, p, a)
          ensures p == o
        {
          HitUnique(t, limit, o, p, a);
        }
      }
    }
  }

  function ErrorAddress(e: AccessError): nat
    requires e.UnmappedAddress? || e.PermissionDenied?
  {
    if e.UnmappedAddress? then e.address else e.deniedAt
  }

  /** `b` is the lowest byte of the range that is not accessible. */
  ghost predicate FirstInaccessible(s: Space, offset: nat, size: nat, permissions: Permissions, b: nat) {
    && offset <= b < offset + size
    && !Accessible(s, b, permissions)
    && forall a :: offset <= a < b ==> Accessible(s, a, permissions)
  }

  /** The segments resolve the first `size` bytes from `offset`. */
  ghost predicate ResolvedUpTo(s: Space, segs: seq<ResolvedMapping>, offset: nat, size: nat, permissions: Permissions) {
    && Tiles(segs, offset, size)
    && AllActive(s, segs)
    && (forall a :: offset <= a < offset + size ==> Accessible(s, a, permissions))
  }

  lemma ResolvedFurther(s: Space, segs: seq<ResolvedMapping>, offset: nat, size: nat, permissions: Permissions, next: ResolvedMapping)
    requires ResolvedUpTo(s, segs, offset, size, permissions)
    requires PieceOf(next) && next.gpuOffset == offset + size
    requires Active(s, next.mapping) && permissions <= next.mapping.attr.permissions
    ensures ResolvedUpTo(s, segs + [next], offset, size + next.size, permissions)
  {
    TilesAppend(segs, offset, size, next);
    forall a | offset + size <= a < offset + size + next.size
      ensures Accessible(s, a, permissions)
    {
      assert Hit(s.mappings, next.mapping.offset, a);
    }
  }

  /** If the predecessor record does not cover a byte, no record does. */
  lemma FloorMisses(t: Table, limit: nat, floor: Option<nat>, a: nat)
    requires WellFormed(t, limit)
    requires floor.None? ==> forall k :: k in t ==> k > a
    requires floor.Some? ==> floor.value in t && floor.value <= a && !t[floor.value].Covers(a)
    requires floor.Some? ==> forall k :: k in t && k <= a ==> k <= floor.value
    ensures forall o :: !Hit(t, o, a)
  {
  }

  lemma {:induction false} TilesAppend(segs: seq<ResolvedMapping>, offset: nat, size: nat, next: ResolvedMapping)
    requires Tiles(segs, offset, size)
    requires PieceOf(next) && next.gpuOffset == offset + size
    ensures Tiles(segs + [next], offset, size + next.size)
  {
    if segs == [] {
      assert (segs + [next])[1..] == [];
    } else {
      TilesAppend(segs[1..], offset + segs[0].size, size - segs[0].size, next);
      assert (segs + [next])[1..] == segs[1..] + [next];
    }
  }

  // ---- reading -----------------------------------------------------------------------------

  /** Every retained record stays inside its backing. */
  ghost predicate SegmentsBacked(segs: seq<ResolvedMapping>) {
    forall i :: 0 <= i < |segs| ==>
      segs[i].mapping.backingOffset + segs[i].mapping.size <= BackingSize(segs[i].mapping.attr.backing)
  }

  /** `value` is the canonical byte the segments give to GPU byte `a`. */
  ghost predicate ByteLocated(memory: Location -> nat, segs: seq<ResolvedMapping>, offset: nat, size: nat, a: nat, value: nat)
    requires Tiles(segs, offset, size)
    requires offset <= a < offset + size
  {
    var v := SegmentView(segs, offset, size, a);
    v.backingByte < BackingSize(v.attr.backing) && value == memory(Locate(v.attr.backing, v.backingByte))
  }

  /** `output` holds, for each byte of the segments, the canonical byte behind it. */
  ghost predicate AllLocated(memory: Location -> nat, segs: seq<ResolvedMapping>, offset: nat, size: nat, output: seq<nat>)
    requires Tiles(segs, offset, size)
  {
    && |output| == size
    && forall i {:trigger output[i]} :: 0 <= i < size ==> ByteLocated(memory, segs, offset, size, offset + i, output[i])
  }

  /** The bytes behind one segment. */
  function SegmentBytes(memory: Location -> nat, seg: ResolvedMapping): (r: seq<nat>)
    requires seg.backingOffset + seg.size <= BackingSize(seg.mapping.attr.backing)
    ensures |r| == seg.size
    ensures forall i :: 0 <= i < seg.size ==> r[i] == memory(Locate(seg.mapping.attr.backing, seg.backingOffset + i))
  {
    seq<nat>(seg.size, i requires 0 <= i < seg.size && seg.backingOffset + seg.size <= BackingSize(seg.mapping.attr.backing) =>
      memory(Locate(seg.mapping.attr.backing, seg.backingOffset + i)))
  }

  /** Copies the segments one after another. */
  method CopySegments(memory: Location -> nat, segs: seq<ResolvedMapping>, offset: nat, size: nat) returns (output: seq<nat>)
    requires Tiles(segs, offset, size) && SegmentsBacked(segs)
    ensures AllLocated(memory, segs, offset, size, output)
    decreases |segs|
  {
    if segs == [] {
      return [];
    }
    FirstBacked(segs, offset, size);
    var rest := CopySegments(memory, segs[1..], offset + segs[0].size, size - segs[0].size);
    LocatedTogether(memory, segs, offset, size, rest);
    output := SegmentBytes(memory, segs[0]) + rest;
  }

  lemma FirstBacked(segs: seq<ResolvedMapping>, offset: nat, size: nat)
    requires Tiles(segs, offset, size) && SegmentsBacked(segs) && segs != []
    ensures segs[0].backingOffset + segs[0].size <= BackingSize(segs[0].mapping.attr.backing)
    ensures segs[0].size <= size && Tiles(segs[1..], offset + segs[0].size, size - segs[0].size) && SegmentsBacked(segs[1..])
  {
  }

  lemma LocatedTogether(memory: Location -> nat, segs: seq<ResolvedMapping>, offset: nat, size: nat, rest: seq<nat>)
    requires Tiles(segs, offset, size) && SegmentsBacked(segs) && segs != [] && segs[0].size <= size
    requires segs[0].backingOffset + segs[0].size <= BackingSize(segs[0].mapping.attr.backing)
    requires Tiles(segs[1..], offset + segs[0].size, size - segs[0].size)
    requires AllLocated(memory, segs[1..], offset + segs[0].size, size - segs[0].size, rest)
    ensures AllLocated(memory, segs, offset, size, SegmentBytes(memory, segs[0]) + rest)
  {
    var output := SegmentBytes(memory, segs[0]) + rest;
    forall i | 0 <= i < size
      ensures ByteLocated(memory, segs, offset, size, offset + i, output[i])
    {
      if i < segs[0].size {
        FirstLocated(memory, segs, offset, size, i);
      } else {
        assert output[i] == rest[i - segs[0].size];
        RestLocated(memory, segs, offset, size, i, output[i]);
      }
    }
  }

  lemma FirstLocated(memory: Location -> nat, segs: seq<ResolvedMapping>, offset: nat, size: nat, i: nat)
    requires Tiles(segs, offset, size) && SegmentsBacked(segs) && segs != [] && i < segs[0].size
    ensures segs[0].backingOffset + i < BackingSize(segs[0].mapping.attr.backing)
    ensures ByteLocated(memory, segs, offset, size, offset + i, memory(Locate(segs[0].mapping.attr.backing, segs[0].backingOffset + i)))
  {
  }

  lemma RestLocated(memory: Location -> nat, segs: seq<ResolvedMapping>, offset: nat, size: nat, i: nat, value: nat)
    requires Tiles(segs, offset, size) && segs != [] && segs[0].size <= i < size
    requires ByteLocated(memory, segs[1..], offset + segs[0].size, size - segs[0].size, offset + i, value)
    ensures ByteLocated(memory, segs, offset, size, offset + i, value)
  {
  }
}
