/** Why an address-space operation is refused: each reported error names a check the request really fails. */
module SpaceRefusals {
  import opened Primitives
  import opened CanonicalMemory
  import opened MappingTable
  import opened SpaceModel
  import opened SpaceOperations
  import opened RemapModel

  ghost predicate InitializeFails(s: Space, bigPageAccepted: bool, geometryAccepted: bool, why: SpaceError) {
    match why
    case AlreadyInitialized => s.regions.Some?
    case InvalidBigPageSize => s.regions.None? && !bigPageAccepted
    case InvalidGeometry => s.regions.None? && bigPageAccepted && !geometryAccepted
    case _ => false
  }

  // ---- placing ------------------------------------------------------------------------------

  /** Where a search starts or goes on: the start of the region or the end of something occupied. */
  ghost predicate SearchBase(s: Space, region: Region, base: nat) {
    || base == region.offset
    || (exists r :: r in s.reservations && s.reservations[r].End() == base)
    || (exists o :: o in s.mappings && s.mappings[o].End() == base)
  }

  /** From `base` the next aligned range leaves the 64-bit addresses. */
  ghost predicate LeavesAddresses(base: nat, size: nat, alignment: nat)
    requires alignment > 0
  {
    base + alignment - 1 >= 0x1_0000_0000_0000_0000 || AlignUp(base, alignment) + size >= 0x1_0000_0000_0000_0000
  }

  ghost predicate SearchOverflows(s: Space, region: Region, size: nat, alignment: nat)
    requires alignment > 0
  {
    exists base :: SearchBase(s, region, base) && LeavesAddresses(base, size, alignment)
  }

  ghost predicate SearchExhausts(s: Space, region: Region, size: nat, alignment: nat)
    requires alignment > 0
  {
    exists base :: SearchBase(s, region, base) && !LeavesAddresses(base, size, alignment)
                   && AlignUp(base, alignment) + size > region.End()
  }

  ghost predicate SearchFails(s: Space, region: Region, size: nat, alignment: nat, why: SpaceError)
    requires alignment > 0
  {
    && (forall a :: !Fits(s, region, size, alignment, a))
    && match why
       case ArithmeticOverflow => SearchOverflows(s, region, size, alignment)
       case InsufficientAddressSpace => SearchExhausts(s, region, size, alignment)
       case _ => false
  }

  ghost predicate FixedFails(s: Space, region: Region, size: nat, pageSize: nat, a: nat, why: SpaceError)
    requires pageSize > 0
  {
    match why
    case MisalignedAddress => a % pageSize != 0
    case ArithmeticOverflow => a + size >= 0x1_0000_0000_0000_0000
    case OutsideVaRegion => a < region.offset || region.End() < a + size
    case OverlappingReservation => region.offset <= a && a + size <= region.End() && !FreeRange(s, a, a + size)
    case _ => false
  }

  ghost predicate AnywhereFails(s: Space, region: Region, size: nat, pageSize: nat, alignment: nat, why: SpaceError)
    requires pageSize > 0 && alignment > 0
  {
    if why == InvalidAlignment then !IsPowerOfTwo(alignment) || alignment % pageSize != 0
    else SearchFails(s, region, size, alignment, why)
  }

  ghost predicate ReservationCheckFails(s: Space, pages: u32, pageSize: u32, flags: u32, why: SpaceError) {
    match why
    case NotInitialized => s.regions.None?
    case InvalidPageCount => pages == 0
    case InvalidReservationFlags => flags > 3
    case InvalidPageSize => s.regions.Some? && RegionFor(s.regions.value, pageSize).None?
    case SparseSmallPagesUnsupported => s.regions.Some? && IsSparse(flags) && pageSize != s.regions.value.big.pageSize
    case _ => false
  }

  ghost predicate ReserveFails(s: Space, pages: u32, pageSize: u32, flags: u32, alignOrOffset: u64, why: SpaceError) {
    || ReservationCheckFails(s, pages, pageSize, flags, why)
    || (&& ReservationChecks(s, pages, pageSize, flags)
        && var region := RegionFor(s.regions.value, pageSize).value;
           if IsFixed(flags) then FixedFails(s, region, pages * pageSize, pageSize, alignOrOffset, why)
           else AnywhereFails(s, region, pages * pageSize, pageSize, Max(alignOrOffset, pageSize), why))
  }

  // ---- mapping ------------------------------------------------------------------------------

  ghost predicate CheckFails(s: Space, request: MapRequest, why: SpaceError) {
    match why
    case NotInitialized => s.regions.None?
    case InvalidKind => request.kind == 0xff
    case InvalidAlignment => !IsPowerOfTwo(request.allocationAlignment)
    case InvalidPageSize =>
      s.regions.Some? && s.regions.value.big.pageSize > 0
      && RegionFor(s.regions.value, ChosenPageSize(s.regions.value, request)).None?
    case MisalignedBackingRange =>
      && s.regions.Some? && s.regions.value.big.pageSize > 0
      && var pageSize := ChosenPageSize(s.regions.value, request);
         pageSize > 0 && (request.backingOffset % pageSize != 0 || request.size % pageSize != 0)
    case _ => BackingFails(request.backing, request.backingOffset, request.size, request.permissions, why)
  }

  ghost predicate PlaceFails(s: Space, request: MapRequest, pageSize: nat, region: Region, why: SpaceError)
    requires pageSize > 0
  {
    match request.fixedOffset
    case None => SearchFails(s, region, request.size, pageSize, why)
    case Some(offset) =>
      match why
      case MisalignedAddress => offset % pageSize != 0
      case ArithmeticOverflow => offset + request.size >= 0x1_0000_0000_0000_0000
      case OutsideReservation => offset + request.size < 0x1_0000_0000_0000_0000 && !Reserved(s, offset, offset + request.size)
      case OverlappingMapping => exists o :: o in s.mappings && s.mappings[o].Overlaps(offset, offset + request.size)
      case _ => false
  }

  ghost predicate MapFails(s: Space, request: MapRequest, why: SpaceError) {
    || CheckFails(s, request, why)
    || (why == GenerationExhausted && s.generation + 1 >= 0x1_0000_0000_0000_0000)
    || (why == MappingIdentityExhausted && s.nextMappingId + 1 >= 0x1_0000_0000_0000_0000)
    || (&& MapChecks(s, request)
        && var pageSize := ChosenPageSize(s.regions.value, request);
           pageSize > 0 && PlaceFails(s, request, pageSize, RegionFor(s.regions.value, pageSize).value, why))
  }

  // ---- sparse remap -------------------------------------------------------------------------

  ghost predicate RequestFails(s: Space, pageSize: nat, r: RemapRequest, why: SpaceError)
    requires pageSize > 0
  {
    match why
    case MisalignedAddress => r.offset % pageSize != 0 || r.size % pageSize != 0
    case OutsideReservation => r.End() < 0x1_0000_0000_0000_0000 && !Reserved(s, r.offset, r.End())
    case NonSparseReservation => Reserved(s, r.offset, r.End()) && !SparselyReserved(s.reservations, r.offset, r.End())
    case InvalidKind => r.mapping.Some? && r.mapping.value.kind == 0xff
    case MisalignedBackingRange => r.mapping.Some? && r.mapping.value.backingOffset % pageSize != 0
    case _ =>
      || (why == EmptyMapping && r.size == 0)
      || (why == ArithmeticOverflow && r.End() >= 0x1_0000_0000_0000_0000)
      || (r.mapping.Some?
          && BackingFails(r.mapping.value.backing, r.mapping.value.backingOffset, r.size, r.mapping.value.permissions, why))
  }

  ghost predicate RequestsFail(s: Space, pageSize: nat, requests: seq<RemapRequest>, why: SpaceError)
    requires pageSize > 0
  {
    if why == OverlappingRemapEntries then exists i, j :: 0 <= i < j < |requests| && SpansOverlap(requests[i], requests[j])
    else exists i :: 0 <= i < |requests| && RequestFails(s, pageSize, requests[i], why)
  }

  ghost predicate RemapFails(s: Space, requests: seq<RemapRequest>, why: SpaceError) {
    || (why == NotInitialized && s.regions.None?)
    || (why == EmptyRemap && requests == [])
    || (why == GenerationExhausted && s.generation + 1 >= 0x1_0000_0000_0000_0000)
    || (why == MappingIdentityExhausted && s.nextMappingId + CountMapped(requests) >= 0x1_0000_0000_0000_0000)
    || (s.regions.Some? && s.regions.value.big.pageSize > 0 && RequestsFail(s, s.regions.value.big.pageSize, requests, why))
  }

  // ---- modification -------------------------------------------------------------------------

  ghost predicate ModifyFails(s: Space, first: Option<nat>, start: nat, size: nat, kind: nat, why: SpaceError) {
    || (why == NotInitialized && s.regions.None?)
    || (why == GenerationExhausted && s.generation + 1 >= 0x1_0000_0000_0000_0000)
    || (why == UnknownMapping && first.None?)
    || (first.Some? && first.value in s.mappings && s.mappings[first.value].attr.pageSize > 0
        && RangeFails(s, first.value, start, size, why))
    || (why == InvalidKind && kind == 0xff)
    || (why == EmptyMapping && size == 0)
  }

  ghost predicate RangeFails(s: Space, first: nat, start: nat, size: nat, why: SpaceError)
    requires first in s.mappings && s.mappings[first].attr.pageSize > 0
  {
    match why
    case ArithmeticOverflow => start + size >= 0x1_0000_0000_0000_0000
    case MisalignedAddress => start % s.mappings[first].attr.pageSize != 0 || size % s.mappings[first].attr.pageSize != 0
    case PartialMapping => !IdentityCovers(s.mappings, s.mappings[first].attr.id, start, start + size)
    case _ => false
  }
}
