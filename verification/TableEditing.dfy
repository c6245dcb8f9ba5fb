/**
 The loops that cut mapping records apart in place, proved to perform the edits of
 `MappingTable`.
 */
module TableEditing {
  import opened Primitives
  import opened OrderedMaps
  import opened MappingTable

  /** Keys of the affected records, in address order. */
  method AffectedKeys(t: Table, e: Edit) returns (affected: seq<nat>)
    requires forall o :: o in t ==> t[o].size > 0
    requires e.start < e.end
    ensures Ascending(affected)
    ensures forall o :: o in affected <==> o in t && Affects(e, t[o])
  {
    var keys := OrderedKeys(t);
    affected := [];
    for i := 0 to |keys|
      invariant Ascending(affected)
      invariant forall j, k :: 0 <= j < |affected| && i <= k < |keys| ==> affected[j] < keys[k]
      invariant forall o :: o in affected <==> o in keys[..i] && Affects(e, t[o])
    {
      assert keys[..i + 1] == keys[..i] + [keys[i]];
      if t[keys[i]].Overlaps(e.start, e.end) && (e.Recolour? ==> t[keys[i]].attr.id == e.id) {
        affected := affected + [keys[i]];
      }
    }
    assert keys[..|keys|] == keys;
  }

  /** Replaces the record at `offset` by what is left of it outside `[start, end)`. */
  method CutRecord(t: Table, offset: nat, start: nat, end: nat, generation: nat, ghost limit: nat) returns (t': Table)
    requires offset in t && SoundRecord(t[offset], limit) && limit <= U64_SIZE
    requires Affects(Erase(start, end, generation), t[offset])
    ensures t' == WithPieces(t, offset, Pieces(Erase(start, end, generation), t[offset]))
  {
    var mapping := t[offset];
    t' := t - {offset};
    if mapping.offset < start {
      t' := t'[mapping.offset := mapping.(size := start - mapping.offset, generation := generation)];
    }
    if mapping.End() > end {
      var consumed := end - mapping.offset;
      // The checked address and backing arithmetic cannot fail on a sound record.
      assert end < U64_SIZE && mapping.backingOffset + consumed < U64_SIZE;
      t' := t'[end := mapping.(offset := end,
                               size := mapping.End() - end,
                               backingOffset := mapping.backingOffset + consumed,
                               generation := generation)];
    }
  }

  /** Removes `[start, end)` from the table, keeping and re-stamping what sticks out on either side. */
  method ReplaceMappingRange(t: Table, start: nat, end: nat, generation: nat, ghost limit: nat) returns (t': Table)
    requires WellFormed(t, limit) && limit <= U64_SIZE
    requires start < end
    ensures IsEdited(t, AffectedSet(t, Erase(start, end, generation)), Erase(start, end, generation), t')
  {
    ghost var e := Erase(start, end, generation);
    var overlapping := AffectedKeys(t, Erase(start, end, generation));
    t' := t;
    ghost var done: set<nat> := {};
    for i := 0 to |overlapping|
      invariant forall o :: o in done <==> o in overlapping[..i]
      invariant IsEdited(t, done, e, t')
    {
      assert overlapping[..i + 1] == overlapping[..i] + [overlapping[i]];
      EditOneMore(t, limit, done, e, t', overlapping[i]);
      t' := CutRecord(t', overlapping[i], start, end, generation, limit);
      done := done + {overlapping[i]};
    }
    assert overlapping[..|overlapping|] == overlapping;
    assert done == AffectedSet(t, e);
  }

  /** Splits the record at `offset` around `[start, end)` and recolours the middle. */
  method RecolourRecord(t: Table, offset: nat, start: nat, end: nat, kind: nat, cacheable: bool, generation: nat, ghost limit: nat)
    returns (t': Table)
    requires offset in t && SoundRecord(t[offset], limit) && limit <= U64_SIZE
    requires Affects(Recolour(t[offset].attr.id, start, end, kind, cacheable, generation), t[offset])
    ensures t' == WithPieces(t, offset, Pieces(Recolour(t[offset].attr.id, start, end, kind, cacheable, generation), t[offset]))
  {
    var mapping := t[offset];
    t' := t - {offset};
    var changedStart := Max(mapping.offset, start);
    var changedEnd := Min(mapping.End(), end);
    if mapping.offset < changedStart {
      t' := t'[mapping.offset := mapping.(size := changedStart - mapping.offset, generation := generation)];
    }
    t' := t'[changedStart := mapping.(offset := changedStart,
                                      size := changedEnd - changedStart,
                                      backingOffset := mapping.backingOffset + (changedStart - mapping.offset),
                                      generation := generation,
                                      attr := mapping.attr.(kind := kind, cacheable := cacheable))];
    if changedEnd < mapping.End() {
      assert changedEnd < U64_SIZE && mapping.backingOffset + (changedEnd - mapping.offset) < U64_SIZE;
      t' := t'[changedEnd := mapping.(offset := changedEnd,
                                      size := mapping.End() - changedEnd,
                                      backingOffset := mapping.backingOffset + (changedEnd - mapping.offset),
                                      generation := generation)];
    }
  }

  /** Changes kind and cacheability on the part of identity `id` inside `[start, end)`. */
  method RecolourRange(t: Table, id: nat, start: nat, end: nat, kind: nat, cacheable: bool, generation: nat, ghost limit: nat)
    returns (t': Table)
    requires WellFormed(t, limit) && limit <= U64_SIZE
    requires start < end
    ensures var e := Recolour(id, start, end, kind, cacheable, generation);
            IsEdited(t, AffectedSet(t, e), e, t')
  {
    ghost var e := Recolour(id, start, end, kind, cacheable, generation);
    var affected := AffectedKeys(t, Recolour(id, start, end, kind, cacheable, generation));
    t' := t;
    ghost var done: set<nat> := {};
    for i := 0 to |affected|
      invariant forall o :: o in done <==> o in affected[..i]
      invariant IsEdited(t, done, e, t')
    {
      assert affected[..i + 1] == affected[..i] + [affected[i]];
      EditOneMore(t, limit, done, e, t', affected[i]);
      t' := RecolourRecord(t', affected[i], start, end, kind, cacheable, generation, limit);
      done := done + {affected[i]};
    }
    assert affected[..|affected|] == affected;
    assert done == AffectedSet(t, e);
  }

  /** Byte `a` belongs to identity `id`. */
  ghost predicate OwnedBy(t: Table, id: nat, a: nat) {
    exists o :: Hit(t, o, a) && t[o].attr.id == id
  }

  /** The coverage scan of `modify_mapping`: do the identity's pieces cover all of `[start, end)`? */
  method CoversRange(t: Table, id: nat, start: nat, end: nat, ghost limit: nat) returns (covers: bool)
    requires WellFormed(t, limit)
    requires start < end
    ensures covers <==> forall a :: start <= a < end ==> OwnedBy(t, id, a)
  {
    var keys := OrderedKeys(t);
    var covered := start;
    for i := 0 to |keys|
      invariant start <= covered < end
      invariant forall a :: start <= a < covered ==> OwnedBy(t, id, a)
      invariant forall o :: o in keys[..i] && t[o].attr.id == id ==> t[o].End() <= covered || end <= t[o].offset
    {
      var mapping := t[keys[i]];
      assert keys[..i + 1] == keys[..i] + [keys[i]];
      if mapping.attr.id != id || mapping.End() <= covered || mapping.offset >= end {
        continue;
      }
      if mapping.offset > covered {
        NotOwned(t, limit, keys, i, id, covered, end);
        return false;
      }
      forall a | covered <= a < Min(mapping.End(), end)
        ensures OwnedBy(t, id, a)
      {
        assert Hit(t, keys[i], a);
      }
      covered := Min(mapping.End(), end);
      if covered == end {
        return true;
      }
    }
    assert keys[..|keys|] == keys;
    forall o | Hit(t, o, covered)
      ensures t[o].attr.id != id
    {
      assert o in keys;
    }
    assert !OwnedBy(t, id, covered);
    return false;
  }

  /** The scan stopped at a gap: byte `a` lies before the next piece and after all earlier ones. */
  lemma NotOwned(t: Table, limit: nat, keys: seq<nat>, i: nat, id: nat, a: nat, end: nat)
    requires WellFormed(t, limit) && ListsKeys(keys, t)
    requires i < |keys| && a < keys[i] && a < end
    requires forall o :: o in keys[..i] && t[o].attr.id == id ==> t[o].End() <= a || end <= t[o].offset
    ensures !OwnedBy(t, id, a)
  {
    forall o | Hit(t, o, a)
      ensures t[o].attr.id != id
    {
      assert t[o].offset == o;
      assert o in keys;
      var k :| 0 <= k < |keys| && keys[k] == o;
      assert k < i;
      assert o in keys[..i];
    }
  }
}
