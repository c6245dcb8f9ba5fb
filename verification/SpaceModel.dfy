/**
 The abstract state of one Maxwell GPU address space: its allocator regions, its reservations,
 its active mappings, and the two counters that stamp mapping records.
 */
module SpaceModel {
  import opened Primitives
  import opened MappingTable

  datatype Region = Region(offset: nat, pageSize: nat, pages: nat) {
    function End(): nat {
      offset + pages * pageSize
    }
  }

  datatype Regions = Regions(small: Region, big: Region)

  datatype Reservation = Reservation(offset: nat, pages: nat, pageSize: nat, sparse: bool) {
    function End(): nat {
      offset + pages * pageSize
    }

    predicate Contains(start: nat, end: nat) {
      offset <= start && end <= End()
    }

    predicate Overlaps(start: nat, end: nat) {
      start < End() && offset < end
    }
  }

  type Reservations = map<nat, Reservation>

  datatype Space = Space(
    limit: nat,
    regions: Option<Regions>,
    reservations: Reservations,
    mappings: Table,
    nextMappingId: nat,
    generation: nat
  )

  ghost predicate SoundRegion(r: Region, limit: nat) {
    IsPowerOfTwo(r.pageSize) && r.pageSize < U32_SIZE && r.End() <= limit && r.End() < U64_SIZE
  }

  ghost predicate SoundReservations(rs: Reservations, limit: nat) {
    && (forall o :: o in rs ==> rs[o].offset == o && o < rs[o].End() <= limit)
    && (forall o, p :: o in rs && p in rs && o < p ==> rs[o].End() <= p)
  }

  /** A mapping is inside one reservation, or meets none. */
  ghost predicate Placed(rs: Reservations, start: nat, end: nat) {
    || (exists r :: r in rs && rs[r].Contains(start, end))
    || (forall r :: r in rs ==> !rs[r].Overlaps(start, end))
  }

  ghost predicate AllPlaced(rs: Reservations, t: Table) {
    forall o :: o in t ==> Placed(rs, t[o].offset, t[o].End())
  }

  ghost predicate StampedBelow(t: Table, nextMappingId: nat, generation: nat) {
    forall o :: o in t ==> t[o].generation <= generation && t[o].attr.id < nextMappingId
  }

  ghost predicate TableInv(rs: Reservations, t: Table, limit: nat, nextMappingId: nat, generation: nat) {
    && WellFormed(t, limit)
    && StampedBelow(t, nextMappingId, generation)
    && IdentityWindows(t)
    && AllPlaced(rs, t)
  }

  /** What holds of every address space the source can build. */
  ghost predicate Inv(s: Space) {
    && s.limit <= U64_SIZE
    && s.nextMappingId < U64_SIZE
    && s.generation < U64_SIZE
    && (s.regions.None? ==> s.reservations == map[] && s.mappings == map[])
    && (s.regions.Some? ==> SoundRegion(s.regions.value.small, s.limit)
                            && SoundRegion(s.regions.value.big, s.limit))
    && SoundReservations(s.reservations, s.limit)
    && TableInv(s.reservations, s.mappings, s.limit, s.nextMappingId, s.generation)
  }

  /** No reservation and no mapping meets `[start, end)`. */
  ghost predicate FreeRange(s: Space, start: nat, end: nat) {
    && (forall r :: r in s.reservations ==> !s.reservations[r].Overlaps(start, end))
    && (forall o :: o in s.mappings ==> !s.mappings[o].Overlaps(start, end))
  }

  // ---- runs --------------------------------------------------------------------------------

  /** Records in `t'` are old records, or carry exactly the stamp `generation`. */
  ghost predicate RestampedBy(t: Table, t': Table, generation: nat) {
    forall o :: o in t' ==> (o in t && t'[o] == t[o]) || t'[o].generation == generation
  }

  /** One successful or failed operation: the table is untouched, or a newer stamp marks what changed. */
  ghost predicate Advances(s: Space, s': Space) {
    && s'.limit == s.limit
    && s.nextMappingId <= s'.nextMappingId
    && (|| (s'.mappings == s.mappings && s'.generation == s.generation)
        || (s.generation < s'.generation && RestampedBy(s.mappings, s'.mappings, s'.generation)))
  }

  ghost predicate Stamped(s: Space) {
    forall o :: o in s.mappings ==> s.mappings[o].offset == o && s.mappings[o].generation <= s.generation
  }

  /** A run of the address space: sound states, each reached from the one before by one operation. */
  ghost predicate IsRun(run: seq<Space>) {
    IsHistory(run) && forall i :: 0 <= i < |run| ==> Inv(run[i])
  }

  /** The part of a run that staleness rests on. */
  ghost predicate IsHistory(run: seq<Space>) {
    && (forall i :: 0 <= i < |run| ==> Stamped(run[i]))
    && (forall i :: 0 < i < |run| ==> Advances(run[i - 1], run[i]))
  }

  /** A record at or below the previous stamp was already there. */
  lemma OldStampOldRecord(s: Space, s': Space, o: nat)
    requires Advances(s, s')
    requires o in s'.mappings && s'.mappings[o].generation <= s.generation
    ensures o in s.mappings && s.mappings[o] == s'.mappings[o]
  {
  }

  /** The staleness test: it looks at the offset, identity, generation and size only. */
  predicate Current(s: Space, retained: Mapping) {
    && retained.offset in s.mappings
    && var m := s.mappings[retained.offset];
       && m.attr.id == retained.attr.id
       && m.generation == retained.generation
       && m.offset == retained.offset
       && m.size == retained.size
  }

  /** `m` is the active record at its own offset. */
  ghost predicate Active(s: Space, m: Mapping) {
    m.offset in s.mappings && s.mappings[m.offset] == m
  }

  lemma {:induction false} GenerationsGrow(run: seq<Space>, i: nat, j: nat)
    requires IsHistory(run) && i <= j < |run|
    ensures run[i].generation <= run[j].generation
  {
    if i < j {
      GenerationsGrow(run, i, j - 1);
      assert Advances(run[j - 1], run[j]);
    }
  }

  /** An (offset, generation) pair never names two records in one run. */
  lemma {:induction false} RecordNeverReused(run: seq<Space>, i: nat, j: nat, o: nat)
    requires IsHistory(run) && i <= j < |run|
    requires o in run[i].mappings && o in run[j].mappings
    requires run[i].mappings[o].generation == run[j].mappings[o].generation
    ensures run[i].mappings[o] == run[j].mappings[o]
  {
    if i < j {
      assert Stamped(run[i]);
      GenerationsGrow(run, i, j - 1);
      OldStampOldRecord(run[j - 1], run[j], o);
      RecordNeverReused(run, i, j - 1, o);
    }
  }

  /** A record once in the table is reported current exactly while that identical record is active. */
  lemma StalenessIsExact(run: seq<Space>, i: nat, j: nat, retained: Mapping)
    requires IsHistory(run) && i <= j < |run|
    requires Active(run[i], retained)
    ensures Current(run[j], retained) <==> Active(run[j], retained)
  {
    if Current(run[j], retained) {
      RecordNeverReused(run, i, j, retained.offset);
    }
  }

  /** A record that left the table never re-enters it. */
  lemma {:induction false} StaleForever(run: seq<Space>, i: nat, j: nat, k: nat, retained: Mapping)
    requires IsHistory(run) && i <= j <= k < |run|
    requires Active(run[i], retained)
    requires !Current(run[j], retained)
    ensures !Current(run[k], retained)
  {
    if j < k {
      StaleForever(run, i, j, k - 1, retained);
      assert Stamped(run[i]);
      GenerationsGrow(run, i, k - 1);
      if Current(run[k], retained) {
        OldStampOldRecord(run[k - 1], run[k], retained.offset);
      }
    }
  }

  // ---- retained ranges ---------------------------------------------------------------------

  /** A piece of one mapping beginning at `gpuOffset`. */
  datatype ResolvedMapping = ResolvedMapping(gpuOffset: nat, size: nat, backingOffset: nat, mapping: Mapping)

  /** `seg` is a suffix-clipped piece of its own mapping, in step with it. */
  ghost predicate PieceOf(seg: ResolvedMapping) {
    && 0 < seg.size
    && seg.mapping.offset <= seg.gpuOffset
    && seg.gpuOffset + seg.size <= seg.mapping.End()
    && seg.backingOffset == seg.mapping.backingOffset + (seg.gpuOffset - seg.mapping.offset)
  }

  /** The segments cover `[offset, offset + size)` in order, without gap or overlap. */
  ghost predicate Tiles(segs: seq<ResolvedMapping>, offset: nat, size: nat) {
    if segs == [] then
      size == 0
    else
      && PieceOf(segs[0])
      && segs[0].gpuOffset == offset
      && segs[0].size <= size
      && Tiles(segs[1..], offset + segs[0].size, size - segs[0].size)
  }

  ghost predicate AllActive(s: Space, segs: seq<ResolvedMapping>) {
    forall i :: 0 <= i < |segs| ==> Active(s, segs[i].mapping)
  }

  ghost predicate AllCurrent(s: Space, segs: seq<ResolvedMapping>) {
    forall i :: 0 <= i < |segs| ==> Current(s, segs[i].mapping)
  }

  /** The meaning a resolved segment list gives to byte `a`. */
  ghost function SegmentView(segs: seq<ResolvedMapping>, offset: nat, size: nat, a: nat): ByteView
    requires Tiles(segs, offset, size)
    requires offset <= a < offset + size
  {
    if a < offset + segs[0].size then
      View(segs[0].mapping, a)
    else
      SegmentView(segs[1..], offset + segs[0].size, size - segs[0].size, a)
  }

  /** While its records are active, a tiling means what the table means. */
  lemma {:induction false} TilingMatchesTable(s: Space, segs: seq<ResolvedMapping>, offset: nat, size: nat, a: nat)
    requires Inv(s)
    requires Tiles(segs, offset, size) && AllActive(s, segs)
    requires offset <= a < offset + size
    ensures Translate(s.mappings, a) == Some(SegmentView(segs, offset, size, a))
  {
    if a < offset + segs[0].size {
      assert Active(s, segs[0].mapping);
      TranslateHit(s.mappings, s.limit, segs[0].mapping.offset, a);
    } else {
      assert AllActive(s, segs[1..]);
      TilingMatchesTable(s, segs[1..], offset + segs[0].size, size - segs[0].size, a);
    }
  }

  /**
   A range resolved at one moment whose records all still test as current means, byte for byte,
   what it meant when it was resolved, whatever was mapped, remapped or recoloured in between.
   */
  lemma RetainedRangeUnchanged(run: seq<Space>, i: nat, j: nat, segs: seq<ResolvedMapping>, offset: nat, size: nat, a: nat)
    requires IsRun(run) && i <= j < |run|
    requires Tiles(segs, offset, size) && AllActive(run[i], segs)
    requires AllCurrent(run[j], segs)
    requires offset <= a < offset + size
    ensures Translate(run[j].mappings, a) == Translate(run[i].mappings, a)
    ensures Translate(run[i].mappings, a) == Some(SegmentView(segs, offset, size, a))
  {
    forall k | 0 <= k < |segs|
      ensures Active(run[j], segs[k].mapping)
    {
      StalenessIsExact(run, i, j, segs[k].mapping);
    }
    TilingMatchesTable(run[i], segs, offset, size, a);
    TilingMatchesTable(run[j], segs, offset, size, a);
  }
}
