/**
 When an access or transition is accepted, told from the history alone: which touchers it must follow,
 in which scope they must have left what it touches, and which barriers it needs.
 */
module JudgedHistories {
  import opened Primitives
  import opened Footprints
  import opened Validator
  import opened HeadlessHistories

  // ---- the rules ----------------------------------------------------------------------------

  /** The scope in which an event leaves what it touches. */
  ghost function LeavesScope(event: Event): Scope {
    match event
    case Access(_, scope) => scope
    case Transition(_, _, after) => after
  }

  /**
   The scopes let `event` come after `before`: an access needs the scope it finds, put there by a
   transition if it writes, and a transition needs the scope it starts from.
   */
  ghost predicate Allowed(before: Event, event: Event) {
    match event
    case Access(_, scope) => LeavesScope(before) == scope && (scope.writes ==> before.Transition?)
    case Transition(_, from, _) => LeavesScope(before) == from
  }

  /** The event touches a cell whose last toucher, step `k`, has been left alone. */
  ghost predicate Meets(steps: seq<Step>, event: Event, k: nat, c: Cell) {
    Touches(event.footprint, c) && LastToucher(steps, k, c) && LeftAlone(steps, k)
  }

  /** The event follows every toucher it meets, as the scopes allow, and a transition meets one. */
  ghost predicate MayCome(steps: seq<Step>, event: Event, owner: nat, ancestors: set<nat>) {
    && (forall k: nat, c :: Meets(steps, event, k, c) ==>
          (steps[k].owner == owner || steps[k].owner in ancestors) && Allowed(steps[k].event, event))
    && (event.Transition? ==> exists k: nat, c :: Meets(steps, event, k, c))
  }

  // ---- tracked records and the touchers they stand for --------------------------------------

  lemma {:induction false} TrackedWasDone(steps: seq<Step>, t: Tracked) returns (j: nat)
    requires t in Track(steps)
    ensures j < |steps| && steps[j].Did? && t == RecordOf(steps[j])
  {
    var n := |steps| - 1;
    match steps[n] {
      case Did(event, owner, _) =>
        RetainedContents(Track(steps[..n]), event.footprint, t);
        if t == Record(event, owner) {
          j := n;
        } else {
          j := TrackedWasDone(steps[..n], t);
        }
      case Gone(handle) =>
        SparedContents(Track(steps[..n]), handle, t);
        j := TrackedWasDone(steps[..n], t);
    }
  }

  lemma {:induction false} SomeLastToucher(steps: seq<Step>, j: nat, c: Cell) returns (k: nat)
    requires j < |steps| && TouchesAt(steps, j, c)
    ensures LastToucher(steps, k, c)
    decreases |steps| - j
  {
    if i :| j < i < |steps| && TouchesAt(steps, i, c) {
      k := SomeLastToucher(steps, i, c);
    } else {
      k := j;
    }
  }

  /** A tracked record that touches a cell is that of its last toucher, left alone. */
  lemma TrackedIsToucher(steps: seq<Step>, t: Tracked, c: Cell) returns (k: nat)
    requires SoundSteps(steps) && t in Track(steps) && Touches(t.footprint, c)
    ensures LastToucher(steps, k, c) && LeftAlone(steps, k) && t == RecordOf(steps[k])
  {
    var j := TrackedWasDone(steps, t);
    k := SomeLastToucher(steps, j, c);
    OnlyLastToucherTracked(steps, k, c, t);
    TrackedExactlyWhenLeftAlone(steps, k, c);
  }

  /** The records an event overlaps are those of the touchers it meets. */
  lemma OverlapIsMeeting(steps: seq<Step>, event: Event, t: Tracked) returns (k: nat, c: Cell)
    requires SoundSteps(steps) && SoundFootprint(event.footprint)
    requires t in Track(steps) && FootprintsOverlap(event.footprint, t.footprint)
    ensures Meets(steps, event, k, c) && t == RecordOf(steps[k])
  {
    var j := TrackedWasDone(steps, t);
    OverlapMeansSharing(event.footprint, t.footprint);
    c :| Touches(event.footprint, c) && Touches(t.footprint, c);
    k := TrackedIsToucher(steps, t, c);
  }

  lemma MeetingIsOverlap(steps: seq<Step>, event: Event, k: nat, c: Cell)
    requires SoundSteps(steps) && SoundFootprint(event.footprint) && Meets(steps, event, k, c)
    ensures RecordOf(steps[k]) in Track(steps) && FootprintsOverlap(event.footprint, RecordOf(steps[k]).footprint)
  {
    TrackedExactlyWhenLeftAlone(steps, k, c);
    OverlapMeansSharing(event.footprint, RecordOf(steps[k]).footprint);
    assert Touches(RecordOf(steps[k]).footprint, c);
  }

  lemma RuleIsAllowed(step: Step, event: Event, owner: nat, ancestors: set<nat>)
    requires step.Did?
    ensures MayFollow(RecordOf(step), event, owner, ancestors) <==>
              (step.owner == owner || step.owner in ancestors) && Allowed(step.event, event)
  {
  }

  /** An event is accepted after a history exactly when the rules let it come. */
  lemma AcceptedExactly(steps: seq<Step>, event: Event, owner: nat, ancestors: set<nat>)
    requires SoundSteps(steps) && SoundFootprint(event.footprint)
    ensures Accepts(Track(steps), event, owner, ancestors) <==> MayCome(steps, event, owner, ancestors)
  {
    if Accepts(Track(steps), event, owner, ancestors) {
      AcceptedMayCome(steps, event, owner, ancestors);
    }
    if MayCome(steps, event, owner, ancestors) {
      MayComeAccepted(steps, event, owner, ancestors);
    }
  }

  lemma AcceptedMayCome(steps: seq<Step>, event: Event, owner: nat, ancestors: set<nat>)
    requires SoundSteps(steps) && SoundFootprint(event.footprint) && Accepts(Track(steps), event, owner, ancestors)
    ensures MayCome(steps, event, owner, ancestors)
  {
    var accesses := Track(steps);
    forall k: nat, c | Meets(steps, event, k, c)
      ensures (steps[k].owner == owner || steps[k].owner in ancestors) && Allowed(steps[k].event, event)
    {
      MeetingIsOverlap(steps, event, k, c);
      var i :| 0 <= i < |accesses| && accesses[i] == RecordOf(steps[k]);
      RuleIsAllowed(steps[k], event, owner, ancestors);
    }
    if event.Transition? {
      var i :| 0 <= i < |accesses| && FootprintsOverlap(event.footprint, accesses[i].footprint);
      var k, c := OverlapIsMeeting(steps, event, accesses[i]);
    }
  }

  lemma MayComeAccepted(steps: seq<Step>, event: Event, owner: nat, ancestors: set<nat>)
    requires SoundSteps(steps) && SoundFootprint(event.footprint) && MayCome(steps, event, owner, ancestors)
    ensures Accepts(Track(steps), event, owner, ancestors)
  {
    var accesses := Track(steps);
    forall i | 0 <= i < |accesses| && FootprintsOverlap(event.footprint, accesses[i].footprint)
      ensures MayFollow(accesses[i], event, owner, ancestors)
    {
      var k, c := OverlapIsMeeting(steps, event, accesses[i]);
      RuleIsAllowed(steps[k], event, owner, ancestors);
    }
    if event.Transition? {
      var k: nat, c :| Meets(steps, event, k, c);
      MeetingIsOverlap(steps, event, k, c);
      var i :| 0 <= i < |accesses| && accesses[i] == RecordOf(steps[k]);
    }
  }

  // ---- whole runs ---------------------------------------------------------------------------

  /** Step `k` belongs to the submission of step `i` or to one that precedes it by declared predecessors. */
  ghost predicate InOrder(steps: seq<Step>, history: seq<Submission>, k: nat, i: nat)
    requires k < |steps| && i < |steps| && steps[k].Did? && steps[i].Did?
  {
    && steps[i].entry < |history|
    && (|| steps[k].owner == steps[i].owner
        || Precedes(history[..steps[i].entry + 1], steps[k].owner, steps[i].entry))
  }

  /** Step `i` touches a cell whose last toucher, step `k`, had been left alone until then. */
  ghost predicate Guarded(steps: seq<Step>, i: nat, k: nat, c: Cell) {
    i < |steps| && steps[i].Did? && Meets(steps[..i], steps[i].event, k, c)
  }

  /** Step `i` follows every toucher it meets, as the scopes allow, and a transition meets one. */
  ghost predicate JudgedAt(steps: seq<Step>, history: seq<Submission>, i: nat)
    requires i < |steps|
  {
    steps[i].Did? ==>
      && (forall k: nat, c :: Guarded(steps, i, k, c) ==> InOrder(steps, history, k, i) && Allowed(steps[k].event, steps[i].event))
      && (steps[i].event.Transition? ==> exists k: nat, c :: Guarded(steps, i, k, c))
  }

  ghost predicate RunJudged(steps: seq<Step>, history: seq<Submission>) {
    forall i :: 0 <= i < |steps| ==> JudgedAt(steps, history, i)
  }

  /** Later steps and submissions do not matter to a step. */
  lemma JudgedOnPrefix(steps: seq<Step>, more: seq<Step>, history: seq<Submission>, later: seq<Submission>, i: nat)
    requires i < |steps| && JudgedAt(steps, history, i)
    ensures JudgedAt(steps + more, history + later, i)
  {
    var all := steps + more;
    assert all[..i] == steps[..i];
    if steps[i].Did? {
      forall k: nat, c | Guarded(all, i, k, c)
        ensures InOrder(all, history + later, k, i) && Allowed(all[k].event, all[i].event)
      {
        assert Guarded(steps, i, k, c);
        assert (history + later)[..steps[i].entry + 1] == history[..steps[i].entry + 1];
      }
      if steps[i].event.Transition? {
        var k: nat, c :| Guarded(steps, i, k, c);
        assert Guarded(all, i, k, c);
      }
    }
  }

  lemma AncestorsPrecede(history: seq<Submission>, submission: Submission, x: nat)
    ensures x in Gather(AncestorTable(history, |history|), submission.predecessors) <==> Precedes(history + [submission], x, |history|)
  {
    TablePrefix(history, [submission], |history|);
    AncestorsAreTransitive(history + [submission], |history|, x);
  }

  /** Being in order, for a step of the newest submission. */
  lemma InOrderNewest(steps: seq<Step>, history: seq<Submission>, submission: Submission, k: nat, i: nat)
    requires i < |steps| && steps[i].Did? && steps[i].owner == submission.id && steps[i].entry == |history|
    requires k < |steps| && steps[k].Did?
    ensures InOrder(steps, history + [submission], k, i) <==>
              || steps[k].owner == submission.id
              || steps[k].owner in Gather(AncestorTable(history, |history|), submission.predecessors)
  {
    assert (history + [submission])[..|history| + 1] == history + [submission];
    AncestorsPrecede(history, submission, steps[k].owner);
  }

  /** A step of the newest submission is judged by what may come after the steps before it. */
  lemma JudgedMayCome(steps: seq<Step>, history: seq<Submission>, submission: Submission, i: nat)
    requires i < |steps| && steps[i].Did? && steps[i].owner == submission.id && steps[i].entry == |history|
    ensures JudgedAt(steps, history + [submission], i) <==>
              MayCome(steps[..i], steps[i].event, submission.id, Gather(AncestorTable(history, |history|), submission.predecessors))
  {
    forall k: nat, c | Meets(steps[..i], steps[i].event, k, c)
      ensures Guarded(steps, i, k, c) && steps[k].Did?
      ensures InOrder(steps, history + [submission], k, i) <==>
                || steps[k].owner == submission.id
                || steps[k].owner in Gather(AncestorTable(history, |history|), submission.predecessors)
    {
      InOrderNewest(steps, history, submission, k, i);
    }
  }

  /** Event `j` of a submission is accepted after the history and the events before it. */
  ghost predicate AcceptedAfter(steps: seq<Step>, history: seq<Submission>, submission: Submission, events: seq<Event>, j: nat)
    requires j < |events|
  {
    Accepts(AfterAll(Track(steps), events[..j], submission.id), events[j], submission.id,
            Gather(AncestorTable(history, |history|), submission.predecessors))
  }

  /** One access of a submission, `j` accesses after its first. */
  lemma DeedJudged(steps: seq<Step>, all: seq<Step>, history: seq<Submission>, submission: Submission, events: seq<Event>, j: nat)
    requires SoundSteps(all) && all == steps + Deeds(events, submission.id, |history|) && j < |events|
    ensures |steps| + j < |all|
    ensures JudgedAt(all, history + [submission], |steps| + j) <==> AcceptedAfter(steps, history, submission, events, j)
  {
    DeedAt(steps, all, events, submission.id, |history|, j);
    JudgedMayCome(all, history, submission, |steps| + j);
    PrefixSound(all, |steps| + j);
    AcceptedExactly(all[..|steps| + j], events[j], submission.id, Gather(AncestorTable(history, |history|), submission.predecessors));
  }

  lemma PrefixSound(steps: seq<Step>, n: nat)
    requires SoundSteps(steps) && n <= |steps|
    ensures SoundSteps(steps[..n])
  {
  }

  ghost predicate DeedsJudged(all: seq<Step>, history: seq<Submission>, from: nat) {
    forall i :: from <= i < |all| ==> JudgedAt(all, history, i)
  }

  ghost predicate AllAcceptedAfter(steps: seq<Step>, history: seq<Submission>, submission: Submission, events: seq<Event>) {
    forall j: nat | j < |events| :: AcceptedAfter(steps, history, submission, events, j)
  }

  lemma AcceptsAllUnfolds(steps: seq<Step>, history: seq<Submission>, submission: Submission, events: seq<Event>)
    ensures AcceptsAll(Track(steps), events, submission.id, Gather(AncestorTable(history, |history|), submission.predecessors)) <==>
              AllAcceptedAfter(steps, history, submission, events)
  {
    if AllAcceptedAfter(steps, history, submission, events) {
      forall j | 0 <= j < |events|
        ensures Accepts(AfterAll(Track(steps), events[..j], submission.id), events[j], submission.id,
                        Gather(AncestorTable(history, |history|), submission.predecessors))
      {
        assert AcceptedAfter(steps, history, submission, events, j);
      }
    }
  }

  /** A submission's accesses are accepted in turn exactly when each is judged good after those before it. */
  lemma AcceptedInTurn(steps: seq<Step>, all: seq<Step>, history: seq<Submission>, submission: Submission, events: seq<Event>)
    requires SoundSteps(all) && all == steps + Deeds(events, submission.id, |history|)
    ensures AllAcceptedAfter(steps, history, submission, events) <==> DeedsJudged(all, history + [submission], |steps|)
  {
    if AllAcceptedAfter(steps, history, submission, events) {
      forall i | |steps| <= i < |all|
        ensures JudgedAt(all, history + [submission], i)
      {
        DeedJudged(steps, all, history, submission, events, i - |steps|);
      }
    }
    if DeedsJudged(all, history + [submission], |steps|) {
      forall j: nat | j < |events|
        ensures AcceptedAfter(steps, history, submission, events, j)
      {
        DeedJudged(steps, all, history, submission, events, j);
      }
    }
  }

  lemma RunJudgedGrows(steps: seq<Step>, more: seq<Step>, history: seq<Submission>, later: seq<Submission>)
    requires RunJudged(steps, history) && DeedsJudged(steps + more, history + later, |steps|)
    ensures RunJudged(steps + more, history + later)
  {
    forall i | 0 <= i < |steps + more|
      ensures JudgedAt(steps + more, history + later, i)
    {
      if i < |steps| {
        JudgedOnPrefix(steps, more, history, later, i);
      }
    }
  }

  // ---- brackets over whole runs -------------------------------------------------------------

  ghost function AllOperations(history: seq<Submission>): seq<Operation> {
    if history == [] then [] else AllOperations(history[..|history| - 1]) + history[|history| - 1].operations
  }

  /** Passes and queries left open by one list carry over into the next. */
  lemma {:induction false} OrderRunConcat(pass: Option<nat>, queries: set<(nat, nat)>, a: seq<Operation>, b: seq<Operation>)
    requires OrderRun(pass, queries, a).Some?
    ensures var state := OrderRun(pass, queries, a).value;
            OrderRun(pass, queries, a + b) == OrderRun(state.0, state.1, b)
    decreases |b|
  {
    if b == [] {
      assert a + b == a;
    } else {
      OrderRunConcat(pass, queries, a, b[..|b| - 1]);
      assert (a + b)[..|a + b| - 1] == a + b[..|b| - 1];
    }
  }
}
