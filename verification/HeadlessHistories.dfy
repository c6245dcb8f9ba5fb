/** Histories of the headless validator's tracked records, and which hazards they still detect. */
module HeadlessHistories {
  import opened Primitives
  import opened CanonicalMemory
  import opened Footprints
  import opened Validator

  // ---- histories of the tracked records -----------------------------------------------------

  /** An access or transition of the submission at `entry` of the history, or a destroyed resource. */
  datatype Step =
    | Did(event: Event, owner: nat, entry: nat)
    | Gone(handle: nat)

  /** The records of other resources, in order. */
  function Spared(accesses: seq<Tracked>, handle: nat): seq<Tracked> {
    if accesses == [] then []
    else
      var last := accesses[|accesses| - 1];
      var kept := Spared(accesses[..|accesses| - 1], handle);
      if last.footprint.handle == handle then kept else kept + [last]
  }

  ghost function Track(steps: seq<Step>): seq<Tracked> {
    if steps == [] then []
    else
      var before := Track(steps[..|steps| - 1]);
      match steps[|steps| - 1]
      case Did(event, owner, _) => After(before, event, owner)
      case Gone(handle) => Spared(before, handle)
  }

  ghost predicate SoundSteps(steps: seq<Step>) {
    forall k :: 0 <= k < |steps| && steps[k].Did? ==> SoundFootprint(steps[k].event.footprint)
  }

  ghost predicate TouchesAt(steps: seq<Step>, k: nat, c: Cell)
    requires k < |steps|
  {
    steps[k].Did? && Touches(steps[k].event.footprint, c)
  }

  /** Step `k` is the last one to touch the cell. */
  ghost predicate LastToucher(steps: seq<Step>, k: nat, c: Cell) {
    && k < |steps| && TouchesAt(steps, k, c)
    && forall j :: k < j < |steps| ==> !TouchesAt(steps, j, c)
  }

  /** The step shares a cell with the footprint or destroys its resource. */
  ghost predicate Disturbs(step: Step, footprint: Footprint) {
    match step
    case Did(event, _, _) => Share(event.footprint, footprint)
    case Gone(handle) => handle == footprint.handle
  }

  /** Nothing has disturbed what step `k` touched. */
  ghost predicate LeftAlone(steps: seq<Step>, k: nat)
    requires k < |steps| && steps[k].Did?
  {
    forall j :: k < j < |steps| ==> !Disturbs(steps[j], steps[k].event.footprint)
  }

  ghost function RecordOf(step: Step): Tracked
    requires step.Did?
  {
    Record(step.event, step.owner)
  }

  lemma {:induction false} SparedContents(accesses: seq<Tracked>, handle: nat, t: Tracked)
    ensures t in Spared(accesses, handle) <==> t in accesses && t.footprint.handle != handle
  {
    if accesses != [] {
      SparedContents(accesses[..|accesses| - 1], handle, t);
      assert accesses == accesses[..|accesses| - 1] + [accesses[|accesses| - 1]];
    }
  }

  lemma {:induction false} SparedSeparate(accesses: seq<Tracked>, handle: nat)
    requires Separate(accesses)
    ensures Separate(Spared(accesses, handle))
  {
    if accesses != [] {
      var rest := accesses[..|accesses| - 1];
      SparedSeparate(rest, handle);
      var kept := Spared(rest, handle);
      forall i | 0 <= i < |kept|
        ensures !FootprintsOverlap(kept[i].footprint, accesses[|accesses| - 1].footprint)
      {
        SparedContents(rest, handle, kept[i]);
        var j :| 0 <= j < |rest| && rest[j] == kept[i];
      }
    }
  }

  lemma {:induction false} StepsKeepSeparate(steps: seq<Step>)
    requires SoundSteps(steps)
    ensures Separate(Track(steps))
  {
    if steps != [] {
      var n := |steps| - 1;
      StepsKeepSeparate(steps[..n]);
      match steps[n] {
        case Did(event, owner, _) => EventKeepsSeparate(Track(steps[..n]), event, owner);
        case Gone(handle) => SparedSeparate(Track(steps[..n]), handle);
      }
    }
  }

  /** What the last step leaves of a record that touches a cell. */
  lemma LastStepTracks(steps: seq<Step>, c: Cell, t: Tracked)
    requires steps != [] && SoundSteps(steps) && Touches(t.footprint, c)
    ensures var n := |steps| - 1;
            t in Track(steps) <==>
              if TouchesAt(steps, n, c) then t == RecordOf(steps[n])
              else t in Track(steps[..n]) && !Disturbs(steps[n], t.footprint)
  {
    var n := |steps| - 1;
    StepsKeepSeparate(steps[..n]);
    match steps[n] {
      case Did(event, owner, _) => EventOwnsItsCells(Track(steps[..n]), event, owner, c, t);
      case Gone(handle) => SparedContents(Track(steps[..n]), handle, t);
    }
  }

  lemma EarlierLastToucher(steps: seq<Step>, k: nat, c: Cell)
    requires LastToucher(steps, k, c) && k < |steps| - 1
    ensures LastToucher(steps[..|steps| - 1], k, c) && !TouchesAt(steps, |steps| - 1, c)
  {
    var before := steps[..|steps| - 1];
    forall j | k < j < |before|
      ensures !TouchesAt(before, j, c)
    {
      assert !TouchesAt(steps, j, c);
    }
  }

  lemma LeftAloneOneMore(steps: seq<Step>, k: nat)
    requires k < |steps| - 1 && steps[k].Did?
    ensures var n := |steps| - 1;
            LeftAlone(steps, k) <==> LeftAlone(steps[..n], k) && !Disturbs(steps[n], steps[k].event.footprint)
  {
    var before := steps[..|steps| - 1];
    assert forall j :: 0 <= j < |before| ==> before[j] == steps[j];
  }

  /** The record of a cell's last toucher is tracked exactly when nothing has disturbed it. */
  lemma {:induction false} TrackedExactlyWhenLeftAlone(steps: seq<Step>, k: nat, c: Cell)
    requires SoundSteps(steps) && LastToucher(steps, k, c)
    ensures RecordOf(steps[k]) in Track(steps) <==> LeftAlone(steps, k)
    decreases |steps|
  {
    if k < |steps| - 1 {
      EarlierLastToucher(steps, k, c);
      TrackedExactlyWhenLeftAlone(steps[..|steps| - 1], k, c);
      LeftAloneOneMore(steps, k);
      LastStepKeeps(steps, k, c);
    } else {
      LastStepTracks(steps, c, RecordOf(steps[k]));
    }
  }

  lemma LastStepKeeps(steps: seq<Step>, k: nat, c: Cell)
    requires SoundSteps(steps) && k < |steps| - 1 && TouchesAt(steps, k, c) && !TouchesAt(steps, |steps| - 1, c)
    ensures var n, t := |steps| - 1, RecordOf(steps[k]);
            t in Track(steps) <==> t in Track(steps[..n]) && !Disturbs(steps[n], steps[k].event.footprint)
  {
    LastStepTracks(steps, c, RecordOf(steps[k]));
  }

  /** Nothing but the last toucher's record is ever tracked for a cell. */
  lemma {:induction false} OnlyLastToucherTracked(steps: seq<Step>, k: nat, c: Cell, t: Tracked)
    requires SoundSteps(steps) && LastToucher(steps, k, c)
    requires t in Track(steps) && Touches(t.footprint, c)
    ensures t == RecordOf(steps[k])
    decreases |steps|
  {
    LastStepTracks(steps, c, t);
    if k < |steps| - 1 {
      EarlierLastToucher(steps, k, c);
      OnlyLastToucherTracked(steps[..|steps| - 1], k, c, t);
    }
  }

  // ---- which hazards are detected -----------------------------------------------------------

  /** Whatever access to the cell is accepted comes from the submission of step `k` or follows it. */
  ghost predicate Detected(steps: seq<Step>, k: nat, c: Cell)
    requires k < |steps| && steps[k].Did?
  {
    forall event: Event, owner: nat, ancestors: set<nat> ::
      SoundFootprint(event.footprint) && Touches(event.footprint, c) && Accepts(Track(steps), event, owner, ancestors) ==>
        steps[k].owner == owner || steps[k].owner in ancestors
  }

  lemma AcceptedFollowsLastToucher(steps: seq<Step>, k: nat, c: Cell, event: Event, owner: nat, ancestors: set<nat>)
    requires SoundSteps(steps) && LastToucher(steps, k, c) && LeftAlone(steps, k)
    requires SoundFootprint(event.footprint) && Touches(event.footprint, c)
    requires Accepts(Track(steps), event, owner, ancestors)
    ensures steps[k].owner == owner || steps[k].owner in ancestors
  {
    var accesses, t := Track(steps), RecordOf(steps[k]);
    TrackedExactlyWhenLeftAlone(steps, k, c);
    OverlapMeansSharing(event.footprint, t.footprint);
    assert Share(event.footprint, t.footprint) by {
      assert Touches(t.footprint, c);
    }
    var i :| 0 <= i < |accesses| && accesses[i] == t;
    assert MayFollow(accesses[i], event, owner, ancestors);
  }

  /** A handle no record uses. */
  function FreshHandle(accesses: seq<Tracked>): (unused: nat)
    ensures forall i :: 0 <= i < |accesses| ==> accesses[i].footprint.handle < unused
  {
    if accesses == [] then 0
    else Max(FreshHandle(accesses[..|accesses| - 1]), accesses[|accesses| - 1].footprint.handle + 1)
  }

  /** A footprint at the one cell; a canonical byte is reached through a new one-byte buffer. */
  function Lone(c: Cell, unused: nat): Footprint {
    match c
    case BufferByte(handle, id, byte) => Buffer(handle, id, byte, 1, None)
    case ImageLayer(handle, id, plane, mip, layer) => Image(handle, id, ImageRange(plane, mip, layer, 1), [])
    case QuerySlot(handle, pool, query) => Queries(handle, pool, query, 1)
    case CanonicalByte(location) => ViewOf(unused, location)
  }

  /** A buffer whose only byte is the canonical byte. */
  function ViewOf(handle: nat, location: Location): Footprint {
    Buffer(handle, 0, 0, 1, Some(Slice(Backing([Segment(location.page, location.byte, 1, {})]), 0, 1)))
  }

  lemma ViewHolds(location: Location, l: Location)
    ensures SliceHolds(Slice(Backing([Segment(location.page, location.byte, 1, {})]), 0, 1), l) <==> l == location
  {
    var segments := [Segment(location.page, location.byte, 1, {})];
    assert segments[1..] == [];
    assert SegmentsSize(segments) == 1;
    assert LocateIn(segments, 0) == location;
  }

  lemma LoneTouches(c: Cell, unused: nat, d: Cell)
    ensures SoundFootprint(Lone(c, unused)) && Touches(Lone(c, unused), c)
    ensures Touches(Lone(c, unused), d) ==> d == c || d == BufferByte(unused, 0, 0)
  {
    if c.CanonicalByte? {
      ViewHolds(c.location, c.location);
      if d.CanonicalByte? {
        ViewHolds(c.location, d.location);
      }
    }
  }

  /** Where no record touches a cell, an access to it alone meets no record. */
  lemma LoneMeetsNothing(accesses: seq<Tracked>, c: Cell, t: Tracked)
    requires t in accesses && SoundFootprint(t.footprint) && !Touches(t.footprint, c)
    ensures !FootprintsOverlap(Lone(c, FreshHandle(accesses)), t.footprint)
  {
    var unused := FreshHandle(accesses);
    LoneTouches(c, unused, c);
    OverlapMeansSharing(Lone(c, unused), t.footprint);
    if d :| Touches(Lone(c, unused), d) && Touches(t.footprint, d) {
      LoneTouches(c, unused, d);
    }
  }

  const READS := Scope(0, false)
  const WRITES := Scope(1, true)

  lemma ForgottenIsMissed(steps: seq<Step>, k: nat, c: Cell)
    requires SoundSteps(steps) && LastToucher(steps, k, c) && !LeftAlone(steps, k)
    ensures !Detected(steps, k, c)
  {
    var accesses := Track(steps);
    var event := Access(Lone(c, FreshHandle(accesses)), WRITES);
    StepsKeepSeparate(steps);
    LoneTouches(c, FreshHandle(accesses), c);
    TrackedExactlyWhenLeftAlone(steps, k, c);
    forall i | 0 <= i < |accesses|
      ensures !FootprintsOverlap(event.footprint, accesses[i].footprint)
    {
      if Touches(accesses[i].footprint, c) {
        OnlyLastToucherTracked(steps, k, c, accesses[i]);
      }
      LoneMeetsNothing(accesses, c, accesses[i]);
    }
    assert Accepts(accesses, event, steps[k].owner + 1, {});
  }

  /**
   Hazards with the last toucher of a cell are detected exactly while nothing has shared a cell with
   what it touched and its resource has not been destroyed.
   */
  lemma DetectedExactlyWhenLeftAlone(steps: seq<Step>, k: nat, c: Cell)
    requires SoundSteps(steps) && LastToucher(steps, k, c)
    ensures Detected(steps, k, c) <==> LeftAlone(steps, k)
  {
    if LeftAlone(steps, k) {
      forall event: Event, owner: nat, ancestors: set<nat> |
        SoundFootprint(event.footprint) && Touches(event.footprint, c) && Accepts(Track(steps), event, owner, ancestors)
        ensures steps[k].owner == owner || steps[k].owner in ancestors
      {
        AcceptedFollowsLastToucher(steps, k, c, event, owner, ancestors);
      }
    } else {
      ForgottenIsMissed(steps, k, c);
    }
  }

  // ---- submissions as steps -----------------------------------------------------------------

  ghost function Deeds(events: seq<Event>, owner: nat, entry: nat): seq<Step> {
    seq(|events|, i requires 0 <= i < |events| => Did(events[i], owner, entry))
  }

  lemma DeedsPrefix(steps: seq<Step>, events: seq<Event>, owner: nat, entry: nat, j: nat)
    requires j <= |events|
    ensures (steps + Deeds(events, owner, entry))[..|steps| + j] == steps + Deeds(events[..j], owner, entry)
  {
  }

  /** The records a submission leaves are those of its accesses added to the history. */
  lemma {:induction false} DeedsTrack(steps: seq<Step>, events: seq<Event>, owner: nat, entry: nat)
    ensures Track(steps + Deeds(events, owner, entry)) == AfterAll(Track(steps), events, owner)
    decreases |events|
  {
    if events == [] {
      assert steps + Deeds(events, owner, entry) == steps;
    } else {
      var n := |events| - 1;
      DeedsTrack(steps, events[..n], owner, entry);
      DeedsPrefix(steps, events, owner, entry, n);
    }
  }

  /** The prefix before one access of a submission, and what is tracked then. */
  lemma DeedAt(steps: seq<Step>, all: seq<Step>, events: seq<Event>, owner: nat, entry: nat, j: nat)
    requires j < |events| && all == steps + Deeds(events, owner, entry)
    ensures |steps| + j < |all| && all[|steps| + j] == Did(events[j], owner, entry)
    ensures Track(all[..|steps| + j]) == AfterAll(Track(steps), events[..j], owner)
  {
    DeedsPrefix(steps, events, owner, entry, j);
    DeedsTrack(steps, events[..j], owner, entry);
  }
}
