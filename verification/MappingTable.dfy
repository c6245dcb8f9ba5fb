/**
 The table of active GPU mappings and its pointwise meaning.

 A table is a map from start address to mapping record. Its meaning is `Translate`, a partial
 function from GPU bytes to what a GPU access of that byte means. The two ways the source cuts
 records apart, erasing a range and recolouring a range of one identity, are `Edit`s, and
 `EditMeaning` says what each does to `Translate`.
 */
module MappingTable {
  import opened Primitives
  import opened CanonicalMemory

  /** Everything about a mapping that splitting never changes, apart from recolouring. */
  datatype Attributes = Attributes(
    id: nat,
    unmapOffset: nat,
    allocation: nat,
    backing: Backing,
    permissions: Permissions,
    pageSize: nat,
    kind: nat,
    cacheable: bool,
    isFixed: bool,
    sparse: bool
  )

  datatype Mapping = Mapping(
    offset: nat,
    size: nat,
    backingOffset: nat,
    generation: nat,
    attr: Attributes
  ) {
    function End(): nat {
      offset + size
    }

    predicate Covers(a: nat) {
      offset <= a < offset + size
    }

    predicate Overlaps(start: nat, end: nat) {
      start < End() && offset < end
    }
  }

  type Table = map<nat, Mapping>

  /** What one GPU byte means: which backing byte it names, under which identity and attributes. */
  datatype ByteView = ByteView(backingByte: nat, attr: Attributes)

  function View(m: Mapping, a: nat): ByteView
    requires m.Covers(a)
  {
    ByteView(m.backingOffset + (a - m.offset), m.attr)
  }

  ghost predicate SoundRecord(m: Mapping, limit: nat) {
    && m.size > 0
    && m.End() <= limit
    && m.backingOffset + m.size <= BackingSize(m.attr.backing)
    && m.backingOffset + m.size < U64_SIZE
    && m.attr.permissions != {}
    && m.attr.pageSize > 0
  }

  /** Records sit at their own key, are sound, and are pairwise disjoint. */
  ghost predicate WellFormed(t: Table, limit: nat) {
    && (forall o :: o in t ==> t[o].offset == o && SoundRecord(t[o], limit))
    && (forall o, p :: o in t && p in t && o < p ==> t[o].End() <= p)
  }

  ghost predicate Hit(t: Table, o: nat, a: nat) {
    o in t && t[o].Covers(a)
  }

  ghost function Translate(t: Table, a: nat): Option<ByteView> {
    if exists o :: Hit(t, o, a) then
      var o :| Hit(t, o, a);
      Some(View(t[o], a))
    else
      None
  }

  lemma HitUnique(t: Table, limit: nat, o: nat, p: nat, a: nat)
    requires WellFormed(t, limit)
    requires Hit(t, o, a) && Hit(t, p, a)
    ensures o == p
  {
    assert t[o].offset == o && t[p].offset == p;
  }

  lemma TranslateHit(t: Table, limit: nat, o: nat, a: nat)
    requires WellFormed(t, limit)
    requires Hit(t, o, a)
    ensures Translate(t, a) == Some(View(t[o], a))
  {
    forall p | Hit(t, p, a)
      ensures p == o
    {
      HitUnique(t, limit, o, p, a);
    }
  }

  // ---- edits -----------------------------------------------------------------------------

  datatype Edit =
    | Erase(start: nat, end: nat, generation: nat)
    | Recolour(id: nat, start: nat, end: nat, kind: nat, cacheable: bool, generation: nat)

  predicate Affects(e: Edit, m: Mapping) {
    e.start < e.end && m.size > 0 && m.Overlaps(e.start, e.end) && (e.Recolour? ==> m.attr.id == e.id)
  }

  function LeftPiece(e: Edit, m: Mapping): Mapping
    requires m.offset < e.start
  {
    m.(size := e.start - m.offset, generation := e.generation)
  }

  function MiddlePiece(e: Edit, m: Mapping): Mapping
    requires e.Recolour? && Affects(e, m)
  {
    var lo := Max(m.offset, e.start);
    m.(offset := lo,
       size := Min(m.End(), e.end) - lo,
       backingOffset := m.backingOffset + (lo - m.offset),
       generation := e.generation,
       attr := m.attr.(kind := e.kind, cacheable := e.cacheable))
  }

  function RightPiece(e: Edit, m: Mapping): Mapping
    requires m.offset < e.end < m.End()
  {
    m.(offset := e.end,
       size := m.End() - e.end,
       backingOffset := m.backingOffset + (e.end - m.offset),
       generation := e.generation)
  }

  /** The records an affected mapping is replaced by, each at its own start address. */
  function Pieces(e: Edit, m: Mapping): Table
    requires Affects(e, m)
  {
    (if m.offset < e.start then map[m.offset := LeftPiece(e, m)] else map[])
    + (if e.Recolour? then map[Max(m.offset, e.start) := MiddlePiece(e, m)] else map[])
    + (if e.end < m.End() then map[e.end := RightPiece(e, m)] else map[])
  }

  ghost predicate PiecesCovered(t: Table, done: set<nat>, e: Edit) {
    forall d :: d in done ==> d in t && Affects(e, t[d])
  }

  ghost predicate FromPiece(t: Table, done: set<nat>, e: Edit, p: nat, d: nat)
    requires PiecesCovered(t, done, e)
  {
    d in done && p in Pieces(e, t[d])
  }

  ghost predicate KeepsOthers(t: Table, done: set<nat>, t': Table) {
    forall o :: o in t && o !in done ==> o in t' && t'[o] == t[o]
  }

  ghost predicate InstallsPieces(t: Table, done: set<nat>, e: Edit, t': Table)
    requires PiecesCovered(t, done, e)
  {
    forall p, d :: FromPiece(t, done, e, p, d) ==> p in t' && t'[p] == Pieces(e, t[d])[p]
  }

  ghost predicate NothingElse(t: Table, done: set<nat>, e: Edit, t': Table)
    requires PiecesCovered(t, done, e)
  {
    forall p :: p in t' ==> (p in t && p !in done) || exists d :: FromPiece(t, done, e, p, d)
  }

  /** The keys of the records an edit changes. */
  ghost function AffectedSet(t: Table, e: Edit): set<nat> {
    set o | o in t && Affects(e, t[o])
  }

  /** `t'` is `t` with every record at a key of `done` replaced by its pieces. */
  ghost predicate IsEdited(t: Table, done: set<nat>, e: Edit, t': Table) {
    && PiecesCovered(t, done, e)
    && KeepsOthers(t, done, t')
    && InstallsPieces(t, done, e, t')
    && NothingElse(t, done, e, t')
  }

  /** Every piece lies inside the record it came from, at its own key. */
  lemma PieceInside(e: Edit, m: Mapping, p: nat, limit: nat)
    requires Affects(e, m)
    requires SoundRecord(m, limit)
    requires p in Pieces(e, m)
    ensures Pieces(e, m)[p].offset == p
    ensures m.offset <= p && Pieces(e, m)[p].End() <= m.End()
    ensures SoundRecord(Pieces(e, m)[p], limit)
    ensures Pieces(e, m)[p].attr.id == m.attr.id
    ensures Pieces(e, m)[p].generation == e.generation
  {
  }

  lemma PiecesDisjoint(e: Edit, m: Mapping, p: nat, q: nat)
    requires Affects(e, m)
    requires p in Pieces(e, m) && q in Pieces(e, m) && p < q
    ensures Pieces(e, m)[p].End() <= q
  {
  }

  /** One record replaced in place: its key is dropped and its pieces are added. */
  ghost function WithPieces(t': Table, d: nat, pieces: Table): Table {
    (t' - {d}) + pieces
  }

  /** A piece of one record meets no other record's key and no other record's piece. */
  lemma PieceApart(t: Table, limit: nat, e: Edit, c: nat, p: nat, d: nat)
    requires WellFormed(t, limit)
    requires c in t && d in t && c != d
    requires Affects(e, t[c]) && p in Pieces(e, t[c])
    ensures p != d
    ensures Affects(e, t[d]) ==> p !in Pieces(e, t[d])
  {
    PieceInside(e, t[c], p, limit);
    assert t[c].offset == c && t[d].offset == d;
    if Affects(e, t[d]) && p in Pieces(e, t[d]) {
      PieceInside(e, t[d], p, limit);
      assert false;
    }
  }

  lemma EditOneMore(t: Table, limit: nat, done: set<nat>, e: Edit, t': Table, d: nat)
    requires WellFormed(t, limit)
    requires IsEdited(t, done, e, t')
    requires d in t && d !in done && Affects(e, t[d])
    ensures d in t' && t'[d] == t[d]
    ensures IsEdited(t, done + {d}, e, WithPieces(t', d, Pieces(e, t[d])))
  {
    EditOneMoreKeeps(t, limit, done, e, t', d);
    EditOneMoreInstalls(t, limit, done, e, t', d);
    forall p | p in WithPieces(t', d, Pieces(e, t[d]))
      ensures (p in t && p !in done + {d}) || exists c :: FromPiece(t, done + {d}, e, p, c)
    {
      EditOneMoreOrigin(t, done, e, t', d, p);
    }
  }

  lemma EditOneMoreKeeps(t: Table, limit: nat, done: set<nat>, e: Edit, t': Table, d: nat)
    requires WellFormed(t, limit)
    requires KeepsOthers(t, done, t')
    requires d in t && d !in done && Affects(e, t[d])
    ensures KeepsOthers(t, done + {d}, WithPieces(t', d, Pieces(e, t[d])))
  {
    var pieces := Pieces(e, t[d]);
    forall o | o in t && o !in done + {d}
      ensures o !in pieces
    {
      if o in pieces {
        PieceApart(t, limit, e, d, o, o);
      }
    }
  }

  lemma EditOneMoreInstalls(t: Table, limit: nat, done: set<nat>, e: Edit, t': Table, d: nat)
    requires WellFormed(t, limit)
    requires PiecesCovered(t, done, e) && InstallsPieces(t, done, e, t')
    requires d in t && d !in done && Affects(e, t[d])
    ensures PiecesCovered(t, done + {d}, e)
    ensures InstallsPieces(t, done + {d}, e, WithPieces(t', d, Pieces(e, t[d])))
  {
    var t'' := WithPieces(t', d, Pieces(e, t[d]));
    forall p, c | FromPiece(t, done + {d}, e, p, c)
      ensures p in t'' && t''[p] == Pieces(e, t[c])[p]
    {
      if c != d {
        assert FromPiece(t, done, e, p, c);
        PieceApart(t, limit, e, c, p, d);
      }
    }
  }

  lemma EditOneMoreOrigin(t: Table, done: set<nat>, e: Edit, t': Table, d: nat, p: nat)
    requires IsEdited(t, done, e, t')
    requires d in t && d !in done && Affects(e, t[d])
    requires p in WithPieces(t', d, Pieces(e, t[d]))
    ensures PiecesCovered(t, done + {d}, e)
    ensures (p in t && p !in done + {d}) || exists c :: FromPiece(t, done + {d}, e, p, c)
  {
    if p in Pieces(e, t[d]) {
      assert FromPiece(t, done + {d}, e, p, d);
    } else if !(p in t && p !in done) {
      var c :| FromPiece(t, done, e, p, c);
      assert FromPiece(t, done + {d}, e, p, c);
    }
  }

  /** Every record of an edited table is an old record or a re-stamped fragment of one. */
  lemma EditedRecord(t: Table, limit: nat, done: set<nat>, e: Edit, t': Table, p: nat) returns (o: nat)
    requires WellFormed(t, limit)
    requires IsEdited(t, done, e, t')
    requires p in t'
    ensures o in t && t[o].offset <= t'[p].offset && t'[p].End() <= t[o].End()
    ensures forall a :: t'[p].Covers(a) ==> Hit(t, o, a)
    ensures t'[p].offset == p && t'[p].attr.id == t[o].attr.id && SoundRecord(t'[p], limit)
    ensures (o == p && o !in done && t'[p] == t[o])
         || (o in done && FromPiece(t, done, e, p, o) && t'[p] == Pieces(e, t[o])[p]
             && t'[p].generation == e.generation)
  {
    if p in t && p !in done {
      o := p;
    } else {
      o :| FromPiece(t, done, e, p, o);
      PieceRecord(t, limit, done, e, t', p, o);
    }
  }

  lemma PieceRecord(t: Table, limit: nat, done: set<nat>, e: Edit, t': Table, p: nat, o: nat)
    requires WellFormed(t, limit) && IsEdited(t, done, e, t') && FromPiece(t, done, e, p, o)
    ensures o in t && p in t' && t'[p] == Pieces(e, t[o])[p] && t[o].offset <= t'[p].offset && t'[p].End() <= t[o].End()
    ensures t'[p].offset == p && t'[p].attr.id == t[o].attr.id && SoundRecord(t'[p], limit) && t'[p].generation == e.generation
  {
    PieceInside(e, t[o], p, limit);
  }

  lemma EditedWellFormed(t: Table, limit: nat, done: set<nat>, e: Edit, t': Table)
    requires WellFormed(t, limit)
    requires IsEdited(t, done, e, t')
    ensures WellFormed(t', limit)
  {
    forall p | p in t'
      ensures t'[p].offset == p && SoundRecord(t'[p], limit)
    {
      var o := EditedRecord(t, limit, done, e, t', p);
    }
    forall p, q | p in t' && q in t' && p < q
      ensures t'[p].End() <= q
    {
      var o := EditedRecord(t, limit, done, e, t', p);
      var r := EditedRecord(t, limit, done, e, t', q);
      if o == r && o in done {
        PiecesDisjoint(e, t[o], p, q);
      }
    }
  }

  /** What an edit does to the meaning of one byte. */
  ghost function EditView(e: Edit, v: Option<ByteView>, a: nat): Option<ByteView> {
    if v.None? || !(e.start <= a < e.end) then v
    else match e
      case Erase(_, _, _) => None
      case Recolour(id, _, _, kind, cacheable, _) =>
        if v.value.attr.id == id then
          Some(v.value.(attr := v.value.attr.(kind := kind, cacheable := cacheable)))
        else
          v
  }

  lemma PieceView(e: Edit, m: Mapping, p: nat, a: nat, limit: nat)
    requires Affects(e, m)
    requires SoundRecord(m, limit)
    requires p in Pieces(e, m) && Pieces(e, m)[p].Covers(a)
    ensures m.Covers(a)
    ensures EditView(e, Some(View(m, a)), a) == Some(View(Pieces(e, m)[p], a))
  {
  }

  lemma PieceExists(e: Edit, m: Mapping, a: nat) returns (p: nat)
    requires Affects(e, m)
    requires m.Covers(a)
    requires EditView(e, Some(View(m, a)), a).Some?
    ensures p in Pieces(e, m) && Pieces(e, m)[p].Covers(a)
  {
    p := if a < e.start then m.offset
         else if e.end <= a then e.end
         else Max(m.offset, e.start);
  }

  /** An edit of all affected records changes the table's meaning exactly as `EditView` says. */
  lemma EditMeaning(t: Table, limit: nat, done: set<nat>, e: Edit, t': Table, a: nat)
    requires WellFormed(t, limit)
    requires IsEdited(t, done, e, t')
    requires forall o :: o in t && Affects(e, t[o]) ==> o in done
    ensures WellFormed(t', limit)
    ensures Translate(t', a) == EditView(e, Translate(t, a), a)
  {
    EditedWellFormed(t, limit, done, e, t');
    if exists o :: Hit(t, o, a) {
      var o :| Hit(t, o, a);
      TranslateHit(t, limit, o, a);
      EditHit(t, limit, done, e, t', a, o);
    } else {
      forall p | Hit(t', p, a)
        ensures false
      {
        var o := EditedRecord(t, limit, done, e, t', p);
      }
    }
  }

  lemma EditHit(t: Table, limit: nat, done: set<nat>, e: Edit, t': Table, a: nat, o: nat)
    requires WellFormed(t, limit)
    requires IsEdited(t, done, e, t') && WellFormed(t', limit)
    requires forall o :: o in t && Affects(e, t[o]) ==> o in done
    requires Hit(t, o, a)
    ensures Translate(t', a) == EditView(e, Some(View(t[o], a)), a)
  {
    var v := EditView(e, Some(View(t[o], a)), a);
    if o !in done {
      assert Hit(t', o, a);
      TranslateHit(t', limit, o, a);
    } else if v.Some? {
      var p := PieceExists(e, t[o], a);
      assert FromPiece(t, done, e, p, o);
      PieceView(e, t[o], p, a, limit);
      TranslateHit(t', limit, p, a);
    } else {
      forall p
        ensures !Hit(t', p, a)
      {
        ErasedHasNoHit(t, limit, done, e, t', a, o, p);
      }
    }
  }

  lemma ErasedHasNoHit(t: Table, limit: nat, done: set<nat>, e: Edit, t': Table, a: nat, o: nat, p: nat)
    requires WellFormed(t, limit) && IsEdited(t, done, e, t')
    requires Hit(t, o, a) && o in done && EditView(e, Some(View(t[o], a)), a).None?
    ensures !Hit(t', p, a)
  {
    if Hit(t', p, a) {
      var c := EditedRecord(t, limit, done, e, t', p);
      HitUnique(t, limit, c, o, a);
      PieceView(e, t[o], p, a, limit);
    }
  }

  // ---- inserting and removing whole records ------------------------------------------------

  lemma InsertMeaning(t: Table, limit: nat, m: Mapping, a: nat)
    requires WellFormed(t, limit) && SoundRecord(m, limit)
    requires forall o :: o in t ==> !t[o].Overlaps(m.offset, m.End())
    ensures WellFormed(t[m.offset := m], limit)
    ensures Translate(t[m.offset := m], a) == if m.Covers(a) then Some(View(m, a)) else Translate(t, a)
  {
    var t' := t[m.offset := m];
    assert m.offset !in t;
    if m.Covers(a) {
      assert Hit(t', m.offset, a);
      TranslateHit(t', limit, m.offset, a);
    } else {
      SameHitsSameMeaning(t, t', limit, a);
    }
  }

  /** Removing records unmaps exactly the bytes they covered. */
  lemma RemoveMeaning(t: Table, limit: nat, gone: set<nat>, a: nat)
    requires WellFormed(t, limit)
    ensures WellFormed(t - gone, limit)
    ensures (exists o :: o in gone && Hit(t, o, a)) ==> Translate(t - gone, a).None?
    ensures !(exists o :: o in gone && Hit(t, o, a)) ==> Translate(t - gone, a) == Translate(t, a)
  {
    var t' := t - gone;
    if o :| o in gone && Hit(t, o, a) {
      forall p
        ensures !Hit(t', p, a)
      {
        if Hit(t, p, a) {
          HitUnique(t, limit, o, p, a);
        }
      }
    } else {
      SameHitsSameMeaning(t, t', limit, a);
    }
  }

  lemma SameHitsSameMeaning(t: Table, t': Table, limit: nat, a: nat)
    requires WellFormed(t, limit) && WellFormed(t', limit)
    requires forall o :: Hit(t, o, a) ==> o in t' && t'[o] == t[o]
    requires forall o :: Hit(t', o, a) ==> o in t && t'[o] == t[o]
    ensures Translate(t', a) == Translate(t, a)
  {
    if o :| Hit(t, o, a) {
      TranslateHit(t, limit, o, a);
      assert Hit(t', o, a);
      TranslateHit(t', limit, o, a);
    } else if p :| Hit(t', p, a) {
      assert Hit(t, p, a);
    }
  }

  // ---- identities --------------------------------------------------------------------------

  /** The two records are windows of one linear mapping, up to recolouring. */
  ghost predicate SameWindow(m: Mapping, n: Mapping) {
    && m.attr == n.attr.(kind := m.attr.kind, cacheable := m.attr.cacheable)
    && m.backingOffset + n.offset == n.backingOffset + m.offset
  }

  /** All records of one identity are windows of one linear mapping. */
  ghost predicate IdentityWindows(t: Table) {
    forall o, p :: o in t && p in t && t[o].attr.id == t[p].attr.id ==> SameWindow(t[o], t[p])
  }

  lemma EditedWindows(t: Table, limit: nat, done: set<nat>, e: Edit, t': Table)
    requires WellFormed(t, limit) && IdentityWindows(t)
    requires IsEdited(t, done, e, t')
    ensures IdentityWindows(t')
  {
    forall p, q | p in t' && q in t' && t'[p].attr.id == t'[q].attr.id
      ensures SameWindow(t'[p], t'[q])
    {
      var o := EditedRecord(t, limit, done, e, t', p);
      var r := EditedRecord(t, limit, done, e, t', q);
      assert SameWindow(t[o], t[r]);
      if o in done {
        PieceWindow(e, t[o], p);
      }
      if r in done {
        PieceWindow(e, t[r], q);
      }
    }
  }

  lemma PieceWindow(e: Edit, m: Mapping, p: nat)
    requires Affects(e, m) && p in Pieces(e, m)
    ensures SameWindow(Pieces(e, m)[p], m)
  {
  }
}
