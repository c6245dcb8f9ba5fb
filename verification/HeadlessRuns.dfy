/** The headless backend over whole runs: exactly what it accepts, and two ways to lose track of a toucher. */
module HeadlessRuns {
  import opened Primitives
  import opened CanonicalMemory
  import opened Footprints
  import opened Validator
  import opened HeadlessHistories
  import opened JudgedHistories

  // ---- the backend --------------------------------------------------------------------------

  const NOTHING_TRACKED := Validation([], map[], None, {})

  class HeadlessBackend {
    var validation: Validation
    var deviceLost: bool
    var tornDown: bool
    ghost var history: seq<Submission>
    ghost var steps: seq<Step>

    /** Every step of the run is judged good and, while the device is there, the state is what the run tells. */
    ghost predicate Valid()
      reads this
    {
      && SoundSteps(steps)
      && RunJudged(steps, history)
      && (!deviceLost && !tornDown ==> Tells(steps, history, validation))
    }

    constructor ()
      ensures Valid() && validation == NOTHING_TRACKED && !deviceLost && !tornDown && history == [] && steps == []
    {
      validation := NOTHING_TRACKED;
      deviceLost, tornDown := false, false;
      history, steps := [], [];
    }

    /** A lost device is noticed by the next call, which forgets everything; the loss is final. */
    method CheckDevice() returns (ok: bool)
      requires Valid()
      modifies this`validation
      ensures Valid()
      ensures ok <==> !deviceLost && !tornDown
      ensures validation == if deviceLost then NOTHING_TRACKED else old(validation)
    {
      if deviceLost {
        validation := NOTHING_TRACKED;
        return false;
      }
      return !tornDown;
    }

    method LoseDevice()
      requires Valid()
      modifies this`deviceLost
      ensures Valid() && deviceLost == (old(deviceLost) || !tornDown)
    {
      if !tornDown {
        deviceLost := true;
      }
    }

    method Teardown() returns (ok: bool)
      requires Valid()
      modifies this`validation, this`tornDown
      ensures Valid()
      ensures ok <==> old(tornDown) || !deviceLost
      ensures tornDown <==> ok
      ensures validation == if old(tornDown) then old(validation) else NOTHING_TRACKED
    {
      if tornDown {
        return true;
      }
      ok := CheckDevice();
      if ok {
        validation := NOTHING_TRACKED;
        tornDown := true;
      }
    }

    /** Forgets every record of a resource. */
    method DestroyResource(handle: nat) returns (ok: bool)
      requires Valid()
      modifies this`validation, this`steps
      ensures Valid()
      ensures ok <==> !deviceLost && !tornDown
      ensures ok ==> steps == old(steps) + [Gone(handle)]
      ensures ok ==> validation == old(validation).(accesses := Spared(old(validation).accesses, handle))
      ensures !ok ==> steps == old(steps)
    {
      ok := CheckDevice();
      if ok {
        var spared := Spare(validation.accesses, handle);
        DestructionKeepsOrder(steps, history, handle);
        assert (steps + [Gone(handle)])[..|steps|] == steps;
        validation := validation.(accesses := spared);
        steps := steps + [Gone(handle)];
      }
    }

    /**
     Accepts a submission whole or rejects it without changing anything. It is accepted exactly when
     every command is in place after all before it and every access or transition follows each
     undisturbed last toucher of its cells, in the scope that one left and behind the barriers it needs.
     */
    method Submit(submission: Submission) returns (r: Result<(), ValidationError>)
      requires Valid() && SoundSubmission(submission)
      modifies this`validation, this`history, this`steps
      ensures Valid()
      ensures r.Ok? <==> !deviceLost && !tornDown && SubmissionAccepted(old(validation), submission)
      ensures r.Ok? <==> !deviceLost && !tornDown && Fitting(old(steps), old(history), submission)
      ensures r.Ok? ==> validation == Validated(old(validation), submission) && history == old(history) + [submission]
      ensures r.Ok? ==> steps == old(steps) + DeedsOf(old(history), submission)
      ensures r.Err? ==> history == old(history) && steps == old(steps)
      ensures deviceLost || tornDown ==> r == Err(DeviceUnavailable)
      ensures r.Err? && !deviceLost && !tornDown ==> SubmissionFails(old(validation), submission, r.error)
      ensures r.Err? ==> validation == if deviceLost then NOTHING_TRACKED else old(validation)
    {
      var ok := CheckDevice();
      if !ok {
        return Err(DeviceUnavailable);
      }
      SubmissionExtends(steps, history, validation, submission);
      var next := ValidateSubmission(validation, submission);
      if next.Err? {
        return Err(next.error);
      }
      validation := next.value;
      steps := steps + DeedsOf(history, submission);
      history := history + [submission];
      return Ok(());
    }
  }

  /** A submission is accepted exactly when its brackets and accesses fit the run so far, which it then extends. */
  lemma SubmissionExtends(steps: seq<Step>, history: seq<Submission>, state: Validation, submission: Submission)
    requires SoundSteps(steps) && RunJudged(steps, history) && SoundSubmission(submission) && Tells(steps, history, state)
    ensures SubmissionAccepted(state, submission) <==> Fitting(steps, history, submission)
    ensures SubmissionAccepted(state, submission) ==>
              var steps' := steps + DeedsOf(history, submission);
              && SoundSteps(steps') && RunJudged(steps', history + [submission])
              && Tells(steps', history + [submission], Validated(state, submission))
  {
    SoundDeeds(steps, Events(submission.operations), submission.id, |history|);
    AcceptedExactlyWhenFitting(steps, history, state, submission);
    if SubmissionAccepted(state, submission) {
      RunJudgedGrows(steps, DeedsOf(history, submission), history, [submission]);
      StillTells(steps, history, state, submission);
    }
  }

  lemma AcceptedExactlyWhenFitting(steps: seq<Step>, history: seq<Submission>, state: Validation, submission: Submission)
    requires SoundSteps(steps + DeedsOf(history, submission)) && Tells(steps, history, state)
    ensures SubmissionAccepted(state, submission) <==> Fitting(steps, history, submission)
  {
    var events := Events(submission.operations);
    AcceptsAllUnfolds(steps, history, submission, events);
    AcceptedInTurn(steps, steps + DeedsOf(history, submission), history, submission, events);
    BracketsFit(history, state, submission);
  }

  lemma StillTells(steps: seq<Step>, history: seq<Submission>, state: Validation, submission: Submission)
    requires Tells(steps, history, state) && SubmissionAccepted(state, submission)
    ensures Tells(steps + DeedsOf(history, submission), history + [submission], Validated(state, submission))
  {
    DeedsTrack(steps, Events(submission.operations), submission.id, |history|);
    TableGrows(history, submission);
    BracketsFit(history, state, submission);
  }

  ghost function DeedsOf(history: seq<Submission>, submission: Submission): seq<Step> {
    Deeds(Events(submission.operations), submission.id, |history|)
  }

  /** The validation state is what the run so far tells. */
  ghost predicate Tells(steps: seq<Step>, history: seq<Submission>, state: Validation) {
    && state.accesses == Track(steps)
    && state.ancestors == AncestorTable(history, |history|)
    && OrderRun(None, {}, AllOperations(history)) == Some((state.activePass, state.activeQueries))
  }

  /** Every command of the run, with the new ones, is in place, and every new access is judged good. */
  ghost predicate Fitting(steps: seq<Step>, history: seq<Submission>, submission: Submission) {
    && AllInPlace(None, {}, AllOperations(history) + submission.operations)
    && DeedsJudged(steps + DeedsOf(history, submission), history + [submission], |steps|)
  }

  lemma BracketsFit(history: seq<Submission>, state: Validation, submission: Submission)
    requires OrderRun(None, {}, AllOperations(history)) == Some((state.activePass, state.activeQueries))
    ensures OrderRun(state.activePass, state.activeQueries, submission.operations).Some? <==>
              AllInPlace(None, {}, AllOperations(history) + submission.operations)
    ensures AllOperations(history + [submission]) == AllOperations(history) + submission.operations
    ensures OrderRun(None, {}, AllOperations(history + [submission])) == OrderRun(state.activePass, state.activeQueries, submission.operations)
  {
    OrderRunConcat(None, {}, AllOperations(history), submission.operations);
    AcceptedBrackets(None, {}, AllOperations(history) + submission.operations);
    assert (history + [submission])[..|history|] == history;
  }

  lemma SoundDeeds(steps: seq<Step>, events: seq<Event>, owner: nat, entry: nat)
    requires SoundSteps(steps) && forall k :: 0 <= k < |events| ==> SoundFootprint(events[k].footprint)
    ensures SoundSteps(steps + Deeds(events, owner, entry))
  {
  }

  lemma DestructionKeepsOrder(steps: seq<Step>, history: seq<Submission>, handle: nat)
    requires RunJudged(steps, history)
    ensures RunJudged(steps + [Gone(handle)], history)
  {
    assert history + [] == history;
    RunJudgedGrows(steps, [Gone(handle)], history, []);
  }

  method Spare(accesses: seq<Tracked>, handle: nat) returns (kept: seq<Tracked>)
    ensures kept == Spared(accesses, handle)
  {
    kept := [];
    for i := 0 to |accesses|
      invariant kept == Spared(accesses[..i], handle)
    {
      assert accesses[..i + 1][..i] == accesses[..i];
      if accesses[i].footprint.handle != handle {
        kept := kept + [accesses[i]];
      }
    }
    assert accesses[..|accesses|] == accesses;
  }

  // ---- two ways to lose track of a toucher --------------------------------------------------

  function OneAccess(id: nat, predecessors: seq<nat>, footprint: Footprint, scope: Scope): Submission {
    Submission(id, predecessors, [Operation(OtherCommand, [Access(footprint, scope)])])
  }

  lemma OneAccessEvents(id: nat, predecessors: seq<nat>, footprint: Footprint, scope: Scope)
    ensures Events(OneAccess(id, predecessors, footprint, scope).operations) == [Access(footprint, scope)]
  {
    var operations := OneAccess(id, predecessors, footprint, scope).operations;
    assert operations[..0] == [];
    assert Events([]) == [];
  }

  lemma OneAccessOrder(pass: Option<nat>, queries: set<(nat, nat)>, operation: Operation)
    requires operation.command.OtherCommand?
    ensures OrderRun(pass, queries, [operation]).Some?
  {
    assert [operation][..0] == [];
    assert OrderRun(pass, queries, []) == Some((pass, queries));
  }

  lemma OneEvent(accesses: seq<Tracked>, event: Event, owner: nat, ancestors: set<nat>)
    ensures AcceptsAll(accesses, [event], owner, ancestors) <==> Accepts(accesses, event, owner, ancestors)
    ensures AfterAll(accesses, [event], owner) == After(accesses, event, owner)
  {
    var events := [event];
    assert events[..0] == [];
    assert AfterAll(accesses, events[..0], owner) == accesses;
  }

  /** A submission of one access is accepted when every record it meets may be followed. */
  lemma OneAccessAccepted(state: Validation, id: nat, predecessors: seq<nat>, footprint: Footprint, scope: Scope)
    ensures var submission, event := OneAccess(id, predecessors, footprint, scope), Access(footprint, scope);
            && Events(submission.operations) == [event]
            && (SubmissionAccepted(state, submission) <==> Accepts(state.accesses, event, id, Gather(state.ancestors, predecessors)))
            && AfterAll(state.accesses, [event], id) == After(state.accesses, event, id)
  {
    OneAccessEvents(id, predecessors, footprint, scope);
    OneAccessOrder(state.activePass, state.activeQueries, OneAccess(id, predecessors, footprint, scope).operations[0]);
    OneEvent(state.accesses, Access(footprint, scope), id, Gather(state.ancestors, predecessors));
  }

  lemma OneAccessDeeds(state: Validation, history: seq<Submission>, id: nat, predecessors: seq<nat>, footprint: Footprint, scope: Scope)
    requires SoundFootprint(footprint)
    requires Accepts(state.accesses, Access(footprint, scope), id, Gather(state.ancestors, predecessors))
    ensures var submission := OneAccess(id, predecessors, footprint, scope);
            && SoundSubmission(submission) && SubmissionAccepted(state, submission)
            && DeedsOf(history, submission) == [Did(Access(footprint, scope), id, |history|)]
            && Validated(state, submission).accesses == After(state.accesses, Access(footprint, scope), id)
  {
    OneAccessAccepted(state, id, predecessors, footprint, scope);
  }

  /** Submits one access that the records in the way let through. */
  method SubmitAccess(backend: HeadlessBackend, id: nat, predecessors: seq<nat>, footprint: Footprint, scope: Scope)
    requires backend.Valid() && !backend.deviceLost && !backend.tornDown && SoundFootprint(footprint)
    requires Accepts(backend.validation.accesses, Access(footprint, scope), id, Gather(backend.validation.ancestors, predecessors))
    modifies backend`validation, backend`history, backend`steps
    ensures backend.Valid()
    ensures backend.history == old(backend.history) + [OneAccess(id, predecessors, footprint, scope)]
    ensures backend.steps == old(backend.steps) + [Did(Access(footprint, scope), id, |old(backend.history)|)]
    ensures backend.validation.accesses == After(old(backend.validation.accesses), Access(footprint, scope), id)
  {
    OneAccessDeeds(backend.validation, backend.history, id, predecessors, footprint, scope);
    var r := backend.Submit(OneAccess(id, predecessors, footprint, scope));
    assert r.Ok?;
  }

  lemma NothingPrecedes(history: seq<Submission>, x: nat, i: nat)
    requires i < |history| && history[i].predecessors == []
    ensures !Precedes(history, x, i)
  {
    forall chain | |chain| > 0 && chain[0] == i
      ensures !IsChain(history, chain, x)
    {
      assert |chain| > 1 && chain[1] < |history| ==> !Follows(history, chain[0], chain[1]);
    }
  }

  /** The last step of the run touches the cell its last toucher, step 0, touched, and writes without following it. */
  ghost predicate Hazard(steps: seq<Step>, history: seq<Submission>, c: Cell) {
    var n := |steps| - 1;
    && n > 0 && steps[0].Did? && steps[n].Did?
    && LastToucher(steps[..n], 0, c) && TouchesAt(steps, n, c)
    && LeavesScope(steps[n].event).writes && !InOrder(steps, history, 0, n)
  }

  /** Step 0 and the last step touch a cell nothing between them touches, and nothing precedes the last. */
  lemma HazardMade(steps: seq<Step>, history: seq<Submission>, c: Cell)
    requires |steps| == 3 && TouchesAt(steps, 0, c) && !TouchesAt(steps, 1, c) && TouchesAt(steps, 2, c)
    requires steps[0].owner != steps[2].owner && LeavesScope(steps[2].event).writes
    requires steps[2].entry < |history| && history[steps[2].entry].predecessors == []
    ensures Hazard(steps, history, c)
  {
    var before := steps[..2];
    assert TouchesAt(before, 0, c) && !TouchesAt(before, 1, c);
    NothingPrecedes(history[..steps[2].entry + 1], steps[0].owner, steps[2].entry);
  }

  function BytesOf(offset: nat, size: nat): Footprint {
    Buffer(0, 0, offset, size, None)
  }

  lemma FirstTracked(footprint: Footprint, scope: Scope, id: nat)
    ensures After([], Access(footprint, scope), id) == [Tracked(footprint, scope, id, false)]
    ensures Accepts([], Access(footprint, scope), id, {})
  {
    assert Retained([], footprint) == [];
  }

  /** The second read follows the first and takes its place. */
  lemma MayRead(ancestors: map<nat, set<nat>>)
    ensures var first, second := [Tracked(BytesOf(0, 100), READS, 1, false)], Access(BytesOf(0, 10), READS);
            Accepts(first, second, 2, Gather(ancestors, [1])) && After(first, second, 2) == [Tracked(BytesOf(0, 10), READS, 2, false)]
  {
    var first := [Tracked(BytesOf(0, 100), READS, 1, false)];
    assert first[..0] == [] && Retained([], BytesOf(0, 10)) == [];
    assert 1 in Gather(ancestors, [1]) by {
      assert 1 in [1];
    }
  }

  function FirstRead(): Submission {
    OneAccess(1, [], BytesOf(0, 100), READS)
  }

  function SecondRead(): Submission {
    OneAccess(2, [1], BytesOf(0, 10), READS)
  }

  /** A new backend that has accepted one access. */
  method Started(id: nat, footprint: Footprint, scope: Scope) returns (backend: HeadlessBackend)
    requires SoundFootprint(footprint)
    ensures fresh(backend) && backend.Valid() && !backend.deviceLost && !backend.tornDown
    ensures backend.history == [OneAccess(id, [], footprint, scope)]
    ensures backend.steps == [Did(Access(footprint, scope), id, 0)]
    ensures backend.validation.accesses == [Tracked(footprint, scope, id, false)]
  {
    backend := new HeadlessBackend();
    FirstTracked(footprint, scope, id);
    SubmitAccess(backend, id, [], footprint, scope);
  }

  method ReadTwice() returns (backend: HeadlessBackend)
    ensures fresh(backend) && backend.Valid() && !backend.deviceLost && !backend.tornDown
    ensures backend.history == [FirstRead(), SecondRead()]
    ensures backend.steps == [Did(Access(BytesOf(0, 100), READS), 1, 0), Did(Access(BytesOf(0, 10), READS), 2, 1)]
    ensures backend.validation.accesses == [Tracked(BytesOf(0, 10), READS, 2, false)]
  {
    backend := Started(1, BytesOf(0, 100), READS);
    MayRead(backend.validation.ancestors);
    SubmitAccess(backend, 2, [1], BytesOf(0, 10), READS);
  }

  /**
   Submission 1 reads a hundred bytes, submission 2, after it, reads ten of them. The record of the
   first is dropped whole, so submission 3, which follows nothing, may write byte 50.
   */
  method ForgottenPartIsUnordered() returns (backend: HeadlessBackend)
    ensures fresh(backend) && backend.Valid()
    ensures backend.history == [FirstRead(), SecondRead(), OneAccess(3, [], BytesOf(50, 10), WRITES)]
    ensures Hazard(backend.steps, backend.history, BufferByte(0, 0, 50))
  {
    backend := ReadTwice();
    SubmitAccess(backend, 3, [], BytesOf(50, 10), WRITES);
    HazardMade(backend.steps, backend.history, BufferByte(0, 0, 50));
  }

  lemma OnlyRecordGone(t: Tracked)
    ensures Spared([t], t.footprint.handle) == []
  {
    assert [t][..0] == [];
    assert Spared([], t.footprint.handle) == [];
  }

  method WriteThenDestroy(l: Location) returns (backend: HeadlessBackend)
    ensures fresh(backend) && backend.Valid() && !backend.deviceLost && !backend.tornDown
    ensures backend.history == [OneAccess(1, [], ViewOf(7, l), WRITES)]
    ensures backend.steps == [Did(Access(ViewOf(7, l), WRITES), 1, 0), Gone(7)]
    ensures backend.validation.accesses == []
  {
    backend := Started(1, ViewOf(7, l), WRITES);
    OnlyRecordGone(Tracked(ViewOf(7, l), WRITES, 1, false));
    var _ := backend.DestroyResource(7);
  }

  /**
   Submission 1 writes a canonical byte through one buffer, which is then destroyed. Its record goes
   with it, so submission 2, which follows nothing, may write the byte through another buffer.
   */
  method DestroyedToucherIsUnordered(l: Location) returns (backend: HeadlessBackend)
    ensures fresh(backend) && backend.Valid()
    ensures backend.history == [OneAccess(1, [], ViewOf(7, l), WRITES), OneAccess(2, [], ViewOf(8, l), WRITES)]
    ensures |backend.steps| == 3 && backend.steps[1] == Gone(7)
    ensures Hazard(backend.steps, backend.history, CanonicalByte(l))
  {
    backend := WriteThenDestroy(l);
    SubmitAccess(backend, 2, [], ViewOf(8, l), WRITES);
    ViewHolds(l, l);
    HazardMade(backend.steps, backend.history, CanonicalByte(l));
  }
}
