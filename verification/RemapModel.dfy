/**
 Sparse remapping and recolouring on the abstract state: what is accepted, what the new table
 means byte by byte, and that the meaning of a remap does not depend on request order.
 */
module RemapModel {
  import opened Primitives
  import opened CanonicalMemory
  import opened MappingTable
  import opened SpaceModel
  import opened SpaceOperations

  // ---- edits keep the table invariant --------------------------------------------------------

  lemma PlacedShrinks(rs: Reservations, start: nat, end: nat, start': nat, end': nat)
    requires Placed(rs, start, end)
    requires start <= start' && end' <= end
    ensures Placed(rs, start', end')
  {
    if r :| r in rs && rs[r].Contains(start, end) {
      assert rs[r].Contains(start', end');
    }
  }

  lemma EditKeepsTable(rs: Reservations, t: Table, limit: nat, nextMappingId: nat, generation: nat, done: set<nat>, e: Edit, t': Table)
    requires TableInv(rs, t, limit, nextMappingId, generation)
    requires IsEdited(t, done, e, t') && e.generation <= generation
    ensures TableInv(rs, t', limit, nextMappingId, generation)
  {
    EditedWellFormed(t, limit, done, e, t');
    EditedWindows(t, limit, done, e, t');
    forall p | p in t'
      ensures t'[p].generation <= generation && t'[p].attr.id < nextMappingId
      ensures Placed(rs, t'[p].offset, t'[p].End())
    {
      var o := EditedRecord(t, limit, done, e, t', p);
      PlacedShrinks(rs, t[o].offset, t[o].End(), t'[p].offset, t'[p].End());
    }
  }

  lemma EditRestamps(t0: Table, t: Table, limit: nat, done: set<nat>, e: Edit, t': Table)
    requires WellFormed(t, limit)
    requires RestampedBy(t0, t, e.generation)
    requires IsEdited(t, done, e, t')
    ensures RestampedBy(t0, t', e.generation)
  {
    forall p | p in t'
      ensures (p in t0 && t'[p] == t0[p]) || t'[p].generation == e.generation
    {
      var o := EditedRecord(t, limit, done, e, t', p);
    }
  }

  /** After an erase no record meets the erased range. */
  lemma ErasedIsFree(t: Table, limit: nat, done: set<nat>, e: Edit, t': Table, p: nat)
    requires WellFormed(t, limit) && e.Erase?
    requires IsEdited(t, done, e, t')
    requires forall o :: o in t && Affects(e, t[o]) ==> o in done
    requires p in t' && e.start < e.end
    ensures !t'[p].Overlaps(e.start, e.end)
  {
    EditedWellFormed(t, limit, done, e, t');
    if t'[p].Overlaps(e.start, e.end) {
      var a := Max(p, e.start);
      EditMeaning(t, limit, done, e, t', a);
      OverlapTranslates(t', limit, p, e.start, e.end);
    }
  }

  lemma OverlapTranslates(t: Table, limit: nat, p: nat, start: nat, end: nat)
    requires WellFormed(t, limit) && p in t && start < end && t[p].Overlaps(start, end)
    ensures start <= Max(p, start) < end && Translate(t, Max(p, start)).Some?
  {
    TranslateHit(t, limit, p, Max(p, start));
  }

  // ---- sparse remap ------------------------------------------------------------------------

  datatype SparseMapping = SparseMapping(
    allocation: nat,
    backing: Backing,
    backingOffset: u64,
    kind: nat,
    cacheable: bool,
    permissions: Permissions
  )

  datatype RemapRequest = RemapRequest(offset: nat, size: u64, mapping: Option<SparseMapping>) {
    function End(): nat {
      offset + size
    }

    predicate InSpan(a: nat) {
      offset <= a < offset + size
    }
  }

  predicate SpansOverlap(q: RemapRequest, r: RemapRequest) {
    r.offset < q.End() && q.offset < r.End()
  }

  ghost predicate SpansDisjoint(requests: seq<RemapRequest>) {
    forall i, j :: 0 <= i < j < |requests| ==> !SpansOverlap(requests[i], requests[j])
  }

  function CountMapped(requests: seq<RemapRequest>): nat {
    if requests == [] then 0
    else CountMapped(requests[..|requests| - 1]) + if requests[|requests| - 1].mapping.Some? then 1 else 0
  }

  ghost predicate SparselyReserved(rs: Reservations, start: nat, end: nat) {
    exists r :: r in rs && rs[r].Contains(start, end) && rs[r].sparse
  }

  ghost predicate RequestAccepts(s: Space, pageSize: nat, r: RemapRequest)
    requires pageSize > 0
  {
    && r.size > 0
    && r.offset % pageSize == 0
    && r.size % pageSize == 0
    && SparselyReserved(s.reservations, r.offset, r.End())
    && (r.mapping.Some? ==>
          && r.mapping.value.kind != 0xff
          && BackingAccepts(r.mapping.value.backing, r.mapping.value.backingOffset, r.size, r.mapping.value.permissions)
          && r.mapping.value.backingOffset % pageSize == 0)
  }

  ghost predicate RemapAccepts(s: Space, requests: seq<RemapRequest>) {
    && s.regions.Some?
    && s.regions.value.big.pageSize > 0
    && requests != []
    && (forall i :: 0 <= i < |requests| ==> RequestAccepts(s, s.regions.value.big.pageSize, requests[i]))
    && SpansDisjoint(requests)
    && s.generation + 1 < U64_SIZE
    && s.nextMappingId + CountMapped(requests) < U64_SIZE
  }

  function NewAttributes(r: RemapRequest, id: nat, pageSize: nat): Attributes
    requires r.mapping.Some?
  {
    var m := r.mapping.value;
    Attributes(id, r.offset, m.allocation, m.backing, m.permissions, pageSize, m.kind, m.cacheable, true, true)
  }

  function NewRecord(r: RemapRequest, id: nat, pageSize: nat, generation: nat): Mapping
    requires r.mapping.Some?
  {
    Mapping(r.offset, r.size, r.mapping.value.backingOffset, generation, NewAttributes(r, id, pageSize))
  }

  /** What a request says about a byte of its span. */
  function RequestView(r: RemapRequest, id: nat, pageSize: nat, a: nat): Option<ByteView>
    requires r.InSpan(a)
  {
    if r.mapping.None? then None
    else Some(ByteView(r.mapping.value.backingOffset + (a - r.offset), NewAttributes(r, id, pageSize)))
  }

  /** The meaning of byte `a` after the requests ran in turn over a table where it meant `v`. */
  ghost function RemapView(v: Option<ByteView>, requests: seq<RemapRequest>, pageSize: nat, nextMappingId: nat, a: nat): Option<ByteView> {
    if requests == [] then v
    else
      var last := |requests| - 1;
      if requests[last].InSpan(a) then
        RequestView(requests[last], nextMappingId + CountMapped(requests[..last]), pageSize, a)
      else
        RemapView(v, requests[..last], pageSize, nextMappingId, a)
  }

  /** A byte in a request's span means what that request says, wherever the request stands. */
  lemma {:induction false} RemapInSpan(v: Option<ByteView>, requests: seq<RemapRequest>, pageSize: nat, nextMappingId: nat, a: nat, j: nat)
    requires SpansDisjoint(requests)
    requires j < |requests| && requests[j].InSpan(a)
    ensures RemapView(v, requests, pageSize, nextMappingId, a)
         == RequestView(requests[j], nextMappingId + CountMapped(requests[..j]), pageSize, a)
    decreases |requests|
  {
    var last := |requests| - 1;
    if j < last {
      assert !SpansOverlap(requests[j], requests[last]);
      assert requests[..last][..j] == requests[..j];
      RemapInSpan(v, requests[..last], pageSize, nextMappingId, a, j);
    }
  }

  /** The requests before place `j` that install a mapping. */
  ghost function MappedBefore(requests: seq<RemapRequest>, j: nat): set<nat>
    requires j <= |requests|
  {
    set i: nat | i < j && requests[i].mapping.Some?
  }

  lemma {:induction false} CountsMappedBefore(requests: seq<RemapRequest>, j: nat)
    requires j <= |requests|
    ensures CountMapped(requests[..j]) == |MappedBefore(requests, j)|
  {
    if j == 0 {
      assert MappedBefore(requests, j) == {};
    } else {
      CountsMappedBefore(requests, j - 1);
      assert requests[..j][..j - 1] == requests[..j - 1];
      assert MappedBefore(requests, j)
          == MappedBefore(requests, j - 1) + if requests[j - 1].mapping.Some? then {j - 1} else {};
    }
  }

  /** Field by field, the meaning a request with identity number `id` gives byte `a` of its span. */
  ghost predicate MeansRequest(v: Option<ByteView>, r: RemapRequest, id: nat, pageSize: nat, a: nat) {
    if r.mapping.None? then v.None?
    else
      && v.Some?
      && v.value.backingByte == r.mapping.value.backingOffset + (a - r.offset)
      && v.value.attr.allocation == r.mapping.value.allocation
      && v.value.attr.backing == r.mapping.value.backing
      && v.value.attr.permissions == r.mapping.value.permissions
      && v.value.attr.kind == r.mapping.value.kind
      && v.value.attr.cacheable == r.mapping.value.cacheable
      && v.value.attr.unmapOffset == r.offset
      && v.value.attr.pageSize == pageSize
      && v.value.attr.isFixed
      && v.value.attr.sparse
      && v.value.attr.id == id
  }

  /**
   Each byte of a request's span means what that request's own fields say, numbered by the mapped
   requests before it.
   */
  lemma RemapFields(v: Option<ByteView>, requests: seq<RemapRequest>, pageSize: nat, nextMappingId: nat, a: nat, j: nat)
    requires SpansDisjoint(requests)
    requires j < |requests| && requests[j].offset <= a < requests[j].offset + requests[j].size
    ensures MeansRequest(RemapView(v, requests, pageSize, nextMappingId, a), requests[j],
                         nextMappingId + |MappedBefore(requests, j)|, pageSize, a)
  {
    RemapInSpan(v, requests, pageSize, nextMappingId, a, j);
    CountsMappedBefore(requests, j);
  }

  predicate Within(start: nat, size: nat, a: nat) {
    start <= a < start + size
  }

  /** Spans overlap exactly when they share a byte. */
  lemma OverlapSharesByte(q: RemapRequest, r: RemapRequest)
    requires q.size > 0 && r.size > 0
    ensures SpansOverlap(q, r) <==>
              exists a: nat :: Within(q.offset, q.size, a) && Within(r.offset, r.size, a)
  {
    if SpansOverlap(q, r) {
      var a := Max(q.offset, r.offset);
      assert Within(q.offset, q.size, a) && Within(r.offset, r.size, a);
    }
  }

  /** A byte in no span keeps its meaning. */
  lemma {:induction false} RemapOutside(v: Option<ByteView>, requests: seq<RemapRequest>, pageSize: nat, nextMappingId: nat, a: nat)
    requires forall j :: 0 <= j < |requests| ==> !requests[j].InSpan(a)
    ensures RemapView(v, requests, pageSize, nextMappingId, a) == v
    decreases |requests|
  {
    if requests != [] {
      RemapOutside(v, requests[..|requests| - 1], pageSize, nextMappingId, a);
    }
  }

  /** The table after one request: its span erased, then its mapping installed. */
  function AfterRequest(erased: Table, r: RemapRequest, id: nat, pageSize: nat, generation: nat): Table {
    if r.mapping.None? then erased else erased[r.offset := NewRecord(r, id, pageSize, generation)]
  }

  lemma AfterRequestMeaning(t: Table, limit: nat, done: set<nat>, t1: Table, r: RemapRequest, id: nat, pageSize: nat, generation: nat, a: nat)
    requires WellFormed(t, limit) && r.size > 0
    requires IsEdited(t, done, Erase(r.offset, r.End(), generation), t1)
    requires forall o :: o in t && Affects(Erase(r.offset, r.End(), generation), t[o]) ==> o in done
    requires r.mapping.Some? ==> SoundRecord(NewRecord(r, id, pageSize, generation), limit)
    ensures WellFormed(t1, limit)
    ensures forall o :: o in t1 ==> !t1[o].Overlaps(r.offset, r.End())
    ensures Translate(AfterRequest(t1, r, id, pageSize, generation), a)
         == if r.InSpan(a) then RequestView(r, id, pageSize, a) else Translate(t, a)
  {
    var e := Erase(r.offset, r.End(), generation);
    EditMeaning(t, limit, done, e, t1, a);
    ErasedAllFree(t, limit, done, e, t1);
    if r.mapping.Some? {
      InsertMeaning(t1, limit, NewRecord(r, id, pageSize, generation), a);
    }
  }

  lemma ErasedAllFree(t: Table, limit: nat, done: set<nat>, e: Edit, t1: Table)
    requires WellFormed(t, limit) && e.Erase? && e.start < e.end && IsEdited(t, done, e, t1)
    requires forall o :: o in t && Affects(e, t[o]) ==> o in done
    ensures forall o :: o in t1 ==> !t1[o].Overlaps(e.start, e.end)
  {
    forall o | o in t1
      ensures !t1[o].Overlaps(e.start, e.end)
    {
      ErasedIsFree(t, limit, done, e, t1, o);
    }
  }

  lemma AfterRequestKeepsTable(rs: Reservations, t1: Table, limit: nat, r: RemapRequest, id: nat, pageSize: nat, generation: nat)
    requires TableInv(rs, t1, limit, id, generation)
    requires r.size > 0
    requires forall o :: o in t1 ==> !t1[o].Overlaps(r.offset, r.End())
    requires SparselyReserved(rs, r.offset, r.End())
    requires r.mapping.Some? ==> SoundRecord(NewRecord(r, id, pageSize, generation), limit)
    ensures TableInv(rs, AfterRequest(t1, r, id, pageSize, generation), limit,
                     id + (if r.mapping.Some? then 1 else 0), generation)
  {
    if r.mapping.Some? {
      var m := NewRecord(r, id, pageSize, generation);
      InsertMeaning(t1, limit, m, 0);
      InsertKeeps(rs, t1, m, id, generation);
    }
  }

  // ---- request order -----------------------------------------------------------------------

  /** A byte's meaning without the identity number, which only records arrival order. */
  ghost function Anonymous(v: Option<ByteView>): Option<ByteView> {
    if v.None? then v else Some(v.value.(attr := v.value.attr.(id := 0)))
  }

  /**
   Two accepted request lists with the same entries, in whatever order, give every byte the same
   meaning, identity numbers aside.
   */
  lemma RemapOrderIrrelevant(v: Option<ByteView>, requests: seq<RemapRequest>, shuffled: seq<RemapRequest>,
                             pageSize: nat, nextMappingId: nat, a: nat)
    requires SpansDisjoint(requests)
    requires multiset(requests) == multiset(shuffled)
    ensures Anonymous(RemapView(v, requests, pageSize, nextMappingId, a))
         == Anonymous(RemapView(v, shuffled, pageSize, nextMappingId, a))
  {
    if i :| 0 <= i < |requests| && requests[i].InSpan(a) {
      ShuffledSpansDisjoint(requests, shuffled);
      var j := InShuffle(requests, shuffled, i);
      SameAnonymousView(v, requests, i, shuffled, j, pageSize, nextMappingId, a);
    } else {
      ShuffleOutside(requests, shuffled, a);
      RemapOutside(v, requests, pageSize, nextMappingId, a);
      RemapOutside(v, shuffled, pageSize, nextMappingId, a);
    }
  }

  lemma ShuffleOutside(requests: seq<RemapRequest>, shuffled: seq<RemapRequest>, a: nat)
    requires multiset(requests) == multiset(shuffled)
    requires forall j :: 0 <= j < |requests| ==> !requests[j].InSpan(a)
    ensures forall j :: 0 <= j < |shuffled| ==> !shuffled[j].InSpan(a)
  {
    forall j | 0 <= j < |shuffled|
      ensures !shuffled[j].InSpan(a)
    {
      var i := InShuffle(shuffled, requests, j);
    }
  }

  lemma SameAnonymousView(v: Option<ByteView>, requests: seq<RemapRequest>, i: nat, shuffled: seq<RemapRequest>, j: nat,
                          pageSize: nat, nextMappingId: nat, a: nat)
    requires SpansDisjoint(requests) && SpansDisjoint(shuffled)
    requires i < |requests| && j < |shuffled| && shuffled[j] == requests[i] && requests[i].InSpan(a)
    ensures Anonymous(RemapView(v, requests, pageSize, nextMappingId, a))
         == Anonymous(RemapView(v, shuffled, pageSize, nextMappingId, a))
  {
    RemapInSpan(v, requests, pageSize, nextMappingId, a, i);
    RemapInSpan(v, shuffled, pageSize, nextMappingId, a, j);
  }

  lemma InShuffle(requests: seq<RemapRequest>, shuffled: seq<RemapRequest>, i: nat) returns (j: nat)
    requires multiset(requests) == multiset(shuffled)
    requires i < |requests|
    ensures j < |shuffled| && shuffled[j] == requests[i]
  {
    assert requests[i] in multiset(requests);
    assert requests[i] in shuffled;
    j :| 0 <= j < |shuffled| && shuffled[j] == requests[i];
  }

  lemma OccursTwice(requests: seq<RemapRequest>, i: nat, j: nat)
    requires i < j < |requests| && requests[i] == requests[j]
    ensures multiset(requests)[requests[i]] >= 2
  {
    assert requests == requests[..j] + [requests[j]] + requests[j + 1..];
    assert requests[i] in requests[..j];
  }

  lemma TwoIndices(requests: seq<RemapRequest>, r: RemapRequest) returns (i: nat, j: nat)
    requires multiset(requests)[r] >= 2
    ensures i < j < |requests| && requests[i] == requests[j] == r
  {
    assert r in requests;
    i :| 0 <= i < |requests| && requests[i] == r;
    assert requests == requests[..i] + [r] + requests[i + 1..];
    var rest := requests[..i] + requests[i + 1..];
    assert multiset(rest)[r] >= 1;
    assert r in rest;
    var k :| 0 <= k < |rest| && rest[k] == r;
    if k < i {
      i, j := k, i;
    } else {
      j := k + 1;
    }
  }

  lemma ShuffledSpansDisjoint(requests: seq<RemapRequest>, shuffled: seq<RemapRequest>)
    requires multiset(requests) == multiset(shuffled)
    requires SpansDisjoint(requests)
    ensures SpansDisjoint(shuffled)
  {
    forall i, j | 0 <= i < j < |shuffled|
      ensures !SpansOverlap(shuffled[i], shuffled[j])
    {
      if shuffled[i] == shuffled[j] {
        OccursTwice(shuffled, i, j);
        var p, q := TwoIndices(requests, shuffled[i]);
      } else {
        var p := InShuffle(shuffled, requests, i);
        var q := InShuffle(shuffled, requests, j);
        assert p < q || q < p;
      }
    }
  }

  lemma {:induction false} CountAppend(requests: seq<RemapRequest>, extra: seq<RemapRequest>)
    ensures CountMapped(requests + extra) == CountMapped(requests) + CountMapped(extra)
  {
    if extra == [] {
      assert requests + extra == requests;
    } else {
      var last := |extra| - 1;
      CountAppend(requests, extra[..last]);
      assert (requests + extra)[..|requests + extra| - 1] == requests + extra[..last];
    }
  }

  lemma {:induction false} CountOfShuffle(requests: seq<RemapRequest>, shuffled: seq<RemapRequest>)
    requires multiset(requests) == multiset(shuffled)
    ensures CountMapped(requests) == CountMapped(shuffled)
    decreases |requests|
  {
    if requests == [] {
      assert |multiset(requests)| == |multiset(shuffled)|;
      assert shuffled == [];
    } else {
      var last := |requests| - 1;
      var r := requests[last];
      assert r in multiset(shuffled);
      var j :| 0 <= j < |shuffled| && shuffled[j] == r;
      assert requests == requests[..last] + [r];
      assert shuffled == shuffled[..j] + [r] + shuffled[j + 1..];
      var rest := shuffled[..j] + shuffled[j + 1..];
      assert multiset(requests) == multiset(requests[..last]) + multiset{r};
      assert multiset(shuffled) == multiset(rest) + multiset{r};
      assert multiset(requests[..last]) == multiset(requests) - multiset{r};
      assert multiset(rest) == multiset(shuffled) - multiset{r};
      CountOfShuffle(requests[..last], rest);
      CountAppend(shuffled[..j] + [r], shuffled[j + 1..]);
      CountAppend(shuffled[..j], [r]);
      CountAppend(shuffled[..j], shuffled[j + 1..]);
    }
  }

  /** Whether a remap is accepted does not depend on request order either. */
  lemma RemapAcceptsAnyOrder(s: Space, requests: seq<RemapRequest>, shuffled: seq<RemapRequest>)
    requires multiset(requests) == multiset(shuffled)
    requires RemapAccepts(s, requests)
    ensures RemapAccepts(s, shuffled)
  {
    ShuffledSpansDisjoint(requests, shuffled);
    CountOfShuffle(requests, shuffled);
    assert |multiset(requests)| == |requests| && |multiset(shuffled)| == |shuffled|;
    forall i | 0 <= i < |shuffled|
      ensures RequestAccepts(s, s.regions.value.big.pageSize, shuffled[i])
    {
      var j := InShuffle(shuffled, requests, i);
    }
  }

  // ---- recolouring -------------------------------------------------------------------------

  /**
   Kind and cacheability changed on exactly the bytes of `[start, end)`, all of them mapped;
   allocation, backing byte, permissions and every other attribute stay, everywhere.
   */
  ghost predicate Recoloured(t: Table, t': Table, start: nat, end: nat, kind: nat, cacheable: bool) {
    forall a: nat :: RecolouredAt(Translate(t, a), Translate(t', a), start <= a < end, kind, cacheable)
  }

  ghost predicate RecolouredAt(v: Option<ByteView>, v': Option<ByteView>, within: bool, kind: nat, cacheable: bool) {
    if within then v.Some? && v' == Some(v.value.(attr := v.value.attr.(kind := kind, cacheable := cacheable)))
    else v' == v
  }
}
