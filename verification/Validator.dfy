/** Atomic validation of submissions: ordering by transitive predecessors, barriers and brackets. */
module Validator {
  import opened Primitives
  import opened Footprints

  /** `usage` stands for the stages and the semantic use of a scope. */
  datatype Scope = Scope(usage: nat, writes: bool)

  datatype Tracked = Tracked(footprint: Footprint, scope: Scope, owner: nat, preparedByBarrier: bool)

  datatype Event =
    | Access(footprint: Footprint, scope: Scope)
    | Transition(footprint: Footprint, before: Scope, after: Scope)

  datatype Command =
    | BeginPass(pass: nat)
    | EndPass(pass: nat)
    | Draw(pass: nat)
    | BeginQuery(pool: nat, query: nat)
    | EndQuery(pool: nat, query: nat)
    | ResetQueries(pool: nat, first: nat, count: nat)
    | OtherCommand

  /** A command with the accesses, or for a barrier the transitions, it performs. */
  datatype Operation = Operation(command: Command, events: seq<Event>)

  datatype Submission = Submission(id: nat, predecessors: seq<nat>, operations: seq<Operation>)

  datatype Validation = Validation(
    accesses: seq<Tracked>,
    ancestors: map<nat, set<nat>>,
    activePass: Option<nat>,
    activeQueries: set<(nat, nat)>)

  datatype ValidationError =
    | UnorderedAccess
    | MissingBarrier
    | UnknownTransitionState
    | TransitionBeforeMismatch
    | OrderViolation
    | DeviceUnavailable

  // ---- the tracked accesses -----------------------------------------------------------------

  /** Tracked footprints never overlap each other. */
  ghost predicate Separate(accesses: seq<Tracked>) {
    && (forall i :: 0 <= i < |accesses| ==> SoundFootprint(accesses[i].footprint))
    && (forall i, j :: 0 <= i < j < |accesses| ==> !FootprintsOverlap(accesses[i].footprint, accesses[j].footprint))
  }

  predicate Ordered(previous: Tracked, owner: nat, ancestors: set<nat>) {
    previous.owner == owner || previous.owner in ancestors
  }

  /** Whether an access or transition may follow a tracked access it overlaps. */
  predicate MayFollow(previous: Tracked, event: Event, owner: nat, ancestors: set<nat>) {
    && Ordered(previous, owner, ancestors)
    && match event
       case Access(_, scope) =>
         previous.scope == scope && ((previous.scope.writes || scope.writes) ==> previous.preparedByBarrier)
       case Transition(_, before, _) => previous.scope == before
  }

  ghost predicate Accepts(accesses: seq<Tracked>, event: Event, owner: nat, ancestors: set<nat>) {
    && (forall i :: 0 <= i < |accesses| && FootprintsOverlap(event.footprint, accesses[i].footprint) ==>
          MayFollow(accesses[i], event, owner, ancestors))
    && (event.Transition? ==> exists i :: 0 <= i < |accesses| && FootprintsOverlap(event.footprint, accesses[i].footprint))
  }

  /** The tracked accesses that do not overlap `footprint`, in order. */
  function Retained(accesses: seq<Tracked>, footprint: Footprint): seq<Tracked> {
    if accesses == [] then []
    else
      var last := accesses[|accesses| - 1];
      var kept := Retained(accesses[..|accesses| - 1], footprint);
      if FootprintsOverlap(footprint, last.footprint) then kept else kept + [last]
  }

  function Record(event: Event, owner: nat): Tracked {
    match event
    case Access(footprint, scope) => Tracked(footprint, scope, owner, false)
    case Transition(footprint, _, after) => Tracked(footprint, after, owner, true)
  }

  function After(accesses: seq<Tracked>, event: Event, owner: nat): seq<Tracked> {
    Retained(accesses, event.footprint) + [Record(event, owner)]
  }

  lemma {:induction false} RetainedContents(accesses: seq<Tracked>, footprint: Footprint, t: Tracked)
    ensures t in Retained(accesses, footprint) <==> t in accesses && !FootprintsOverlap(footprint, t.footprint)
  {
    if accesses != [] {
      RetainedContents(accesses[..|accesses| - 1], footprint, t);
      assert accesses == accesses[..|accesses| - 1] + [accesses[|accesses| - 1]];
    }
  }

  lemma {:induction false} RetainedSeparate(accesses: seq<Tracked>, footprint: Footprint)
    requires Separate(accesses)
    ensures Separate(Retained(accesses, footprint))
  {
    if accesses != [] {
      var rest := accesses[..|accesses| - 1];
      RetainedSeparate(rest, footprint);
      var kept := Retained(rest, footprint);
      forall i | 0 <= i < |kept|
        ensures !FootprintsOverlap(kept[i].footprint, accesses[|accesses| - 1].footprint)
      {
        RetainedContents(rest, footprint, kept[i]);
        var j :| 0 <= j < |rest| && rest[j] == kept[i];
      }
    }
  }

  /** One accepted event keeps the tracked footprints separate. */
  lemma EventKeepsSeparate(accesses: seq<Tracked>, event: Event, owner: nat)
    requires Separate(accesses) && SoundFootprint(event.footprint)
    ensures Separate(After(accesses, event, owner))
  {
    var kept := Retained(accesses, event.footprint);
    RetainedSeparate(accesses, event.footprint);
    forall i | 0 <= i < |kept|
      ensures !FootprintsOverlap(kept[i].footprint, event.footprint)
    {
      RetainedContents(accesses, event.footprint, kept[i]);
      OverlapIsSymmetric(kept[i].footprint, event.footprint);
    }
  }

  /** After an event, what it touched is tracked to it alone, and other footprints keep their record. */
  lemma EventOwnsItsCells(accesses: seq<Tracked>, event: Event, owner: nat, c: Cell, t: Tracked)
    requires Separate(accesses) && SoundFootprint(event.footprint)
    requires Touches(t.footprint, c)
    ensures Touches(event.footprint, c) ==>
              (t in After(accesses, event, owner) <==> t == Record(event, owner))
    ensures !Touches(event.footprint, c) ==>
              (t in After(accesses, event, owner) <==> t in accesses && !Share(event.footprint, t.footprint))
  {
    RetainedContents(accesses, event.footprint, t);
    if t in accesses {
      OverlapMeansSharing(event.footprint, t.footprint);
    }
  }

  method Retain(accesses: seq<Tracked>, footprint: Footprint) returns (kept: seq<Tracked>)
    ensures kept == Retained(accesses, footprint)
  {
    kept := [];
    for i := 0 to |accesses|
      invariant kept == Retained(accesses[..i], footprint)
    {
      assert accesses[..i + 1][..i] == accesses[..i];
      if !FootprintsOverlap(footprint, accesses[i].footprint) {
        kept := kept + [accesses[i]];
      }
    }
    assert accesses[..|accesses|] == accesses;
  }

  /** What keeps an access or transition from being applied. */
  ghost predicate EventFails(accesses: seq<Tracked>, event: Event, owner: nat, ancestors: set<nat>, why: ValidationError) {
    if why == UnknownTransitionState then
      event.Transition? && forall i :: 0 <= i < |accesses| ==> !FootprintsOverlap(event.footprint, accesses[i].footprint)
    else
      exists i :: 0 <= i < |accesses| && FootprintsOverlap(event.footprint, accesses[i].footprint)
                  && RecordRefuses(accesses[i], event, owner, ancestors, why)
  }

  ghost predicate RecordRefuses(previous: Tracked, event: Event, owner: nat, ancestors: set<nat>, why: ValidationError) {
    match why
    case UnorderedAccess => previous.owner != owner && previous.owner !in ancestors
    case MissingBarrier =>
      event.Access? && (previous.scope != event.scope || (event.scope.writes && !previous.preparedByBarrier))
    case TransitionBeforeMismatch => event.Transition? && previous.scope != event.before
    case _ => false
  }

  /** Applies one access or transition, or reports the first tracked access it may not follow. */
  method ApplyEvent(accesses: seq<Tracked>, event: Event, owner: nat, ancestors: set<nat>)
    returns (r: Result<seq<Tracked>, ValidationError>)
    ensures r.Ok? <==> Accepts(accesses, event, owner, ancestors)
    ensures r.Ok? ==> r.value == After(accesses, event, owner)
    ensures r.Err? ==> EventFails(accesses, event, owner, ancestors, r.error)
  {
    var overlapping := false;
    for i := 0 to |accesses|
      invariant overlapping <==> exists j :: 0 <= j < i && FootprintsOverlap(event.footprint, accesses[j].footprint)
      invariant forall j :: 0 <= j < i && FootprintsOverlap(event.footprint, accesses[j].footprint) ==>
                  MayFollow(accesses[j], event, owner, ancestors)
    {
      if FootprintsOverlap(event.footprint, accesses[i].footprint) {
        overlapping := true;
        if !Ordered(accesses[i], owner, ancestors) {
          return Err(UnorderedAccess);
        }
        if !MayFollow(accesses[i], event, owner, ancestors) {
          return Err(if event.Access? then MissingBarrier else TransitionBeforeMismatch);
        }
      }
    }
    if event.Transition? && !overlapping {
      return Err(UnknownTransitionState);
    }
    var kept := Retain(accesses, event.footprint);
    return Ok(kept + [Record(event, owner)]);
  }

  // ---- predecessors -------------------------------------------------------------------------

  /** The predecessors of a submission together with what is already known to precede them. */
  ghost function Gather(ancestors: map<nat, set<nat>>, predecessors: seq<nat>): set<nat> {
    (set p | p in predecessors) + set p, x | p in predecessors && p in ancestors && x in ancestors[p] :: x
  }

  method GatherAncestors(ancestors: map<nat, set<nat>>, predecessors: seq<nat>) returns (gathered: set<nat>)
    ensures gathered == Gather(ancestors, predecessors)
  {
    gathered := {};
    for k := 0 to |predecessors|
      invariant gathered == Gather(ancestors, predecessors[..k])
    {
      var p := predecessors[k];
      assert predecessors[..k + 1] == predecessors[..k] + [p];
      gathered := gathered + {p};
      if p in ancestors {
        gathered := gathered + ancestors[p];
      }
    }
    assert predecessors[..|predecessors|] == predecessors;
  }

  /** The latest submission with this identity before entry `i` of a history. */
  ghost function Latest(history: seq<Submission>, i: nat, id: nat): Option<nat>
    requires i <= |history|
  {
    if i == 0 then None
    else if history[i - 1].id == id then Some(i - 1)
    else Latest(history, i - 1, id)
  }

  lemma {:induction false} LatestIsEarlier(history: seq<Submission>, i: nat, id: nat)
    requires i <= |history| && Latest(history, i, id).Some?
    ensures Latest(history, i, id).value < i && history[Latest(history, i, id).value].id == id
  {
    if history[i - 1].id != id {
      LatestIsEarlier(history, i - 1, id);
    }
  }

  /** The ancestor table after the first `i` accepted submissions. */
  ghost function AncestorTable(history: seq<Submission>, i: nat): map<nat, set<nat>>
    requires i <= |history|
    decreases i, 0
  {
    if i == 0 then map[]
    else AncestorTable(history, i - 1)[history[i - 1].id := AncestorsAt(history, i - 1)]
  }

  ghost function AncestorsAt(history: seq<Submission>, i: nat): set<nat>
    requires i < |history|
    decreases i, 1
  {
    Gather(AncestorTable(history, i), history[i].predecessors)
  }

  lemma {:induction false} TableHoldsLatest(history: seq<Submission>, i: nat, id: nat)
    requires i <= |history|
    ensures id in AncestorTable(history, i) <==> Latest(history, i, id).Some?
    ensures id in AncestorTable(history, i) ==>
              Latest(history, i, id).value < i && AncestorTable(history, i)[id] == AncestorsAt(history, Latest(history, i, id).value)
  {
    if i > 0 {
      TableHoldsLatest(history, i - 1, id);
    }
  }

  /** A chain of submissions, each naming the next as a predecessor, that ends by naming `x`. */
  ghost predicate IsChain(history: seq<Submission>, chain: seq<nat>, x: nat) {
    && |chain| > 0
    && (forall k :: 0 <= k < |chain| ==> chain[k] < |history|)
    && (forall k :: 0 < k < |chain| ==> Follows(history, chain[k - 1], chain[k]))
    && x in history[chain[|chain| - 1]].predecessors
  }

  /** Entry `j` is the latest submission before `i` that `i` names as a predecessor. */
  ghost predicate Follows(history: seq<Submission>, i: nat, j: nat)
    requires i < |history| && j < |history|
  {
    history[j].id in history[i].predecessors && Latest(history, i, history[j].id) == Some(j)
  }

  ghost predicate Precedes(history: seq<Submission>, x: nat, i: nat) {
    exists chain :: IsChain(history, chain, x) && chain[0] == i
  }

  lemma {:induction false} AncestorHasChain(history: seq<Submission>, i: nat, x: nat) returns (chain: seq<nat>)
    requires i < |history| && x in AncestorsAt(history, i)
    ensures IsChain(history, chain, x) && chain[0] == i
    decreases i
  {
    if x in history[i].predecessors {
      chain := [i];
    } else {
      var p :| p in history[i].predecessors && p in AncestorTable(history, i) && x in AncestorTable(history, i)[p];
      TableHoldsLatest(history, i, p);
      LatestIsEarlier(history, i, p);
      var j := Latest(history, i, p).value;
      var rest := AncestorHasChain(history, j, x);
      chain := [i] + rest;
      ChainExtends(history, i, rest, x);
    }
  }

  lemma ChainExtends(history: seq<Submission>, i: nat, rest: seq<nat>, x: nat)
    requires i < |history| && IsChain(history, rest, x) && Follows(history, i, rest[0])
    ensures IsChain(history, [i] + rest, x)
  {
    var chain := [i] + rest;
    forall k | 0 < k < |chain|
      ensures Follows(history, chain[k - 1], chain[k])
    {
      if k > 1 {
        assert Follows(history, rest[k - 2], rest[k - 1]);
      }
    }
  }

  lemma {:induction false} ChainIsAncestor(history: seq<Submission>, chain: seq<nat>, x: nat)
    requires IsChain(history, chain, x)
    ensures x in AncestorsAt(history, chain[0])
    decreases |chain|
  {
    var i := chain[0];
    if |chain| > 1 {
      var j := chain[1];
      assert Follows(history, i, j);
      ChainShrinks(history, chain, x);
      ChainIsAncestor(history, chain[1..], x);
      TableHoldsLatest(history, i, history[j].id);
    }
  }

  lemma ChainShrinks(history: seq<Submission>, chain: seq<nat>, x: nat)
    requires IsChain(history, chain, x) && |chain| > 1
    ensures IsChain(history, chain[1..], x)
  {
    forall k | 0 < k < |chain[1..]|
      ensures Follows(history, chain[1..][k - 1], chain[1..][k])
    {
      assert Follows(history, chain[k], chain[k + 1]);
    }
  }

  /** The computed ancestors are exactly the transitive predecessors. */
  lemma AncestorsAreTransitive(history: seq<Submission>, i: nat, x: nat)
    requires i < |history|
    ensures x in AncestorsAt(history, i) <==> Precedes(history, x, i)
  {
    if x in AncestorsAt(history, i) {
      var chain := AncestorHasChain(history, i, x);
    }
    if chain :| IsChain(history, chain, x) && chain[0] == i {
      ChainIsAncestor(history, chain, x);
    }
  }

  // ---- pass and query brackets --------------------------------------------------------------

  /** The active pass and queries after one command, or nothing when the command is out of order. */
  function OrderStep(pass: Option<nat>, queries: set<(nat, nat)>, command: Command): Option<(Option<nat>, set<(nat, nat)>)> {
    match command
    case BeginPass(p) => if pass.Some? then None else Some((Some(p), queries))
    case EndPass(p) => if pass != Some(p) then None else Some((None, queries))
    case Draw(p) => if pass != Some(p) then None else Some((pass, queries))
    case BeginQuery(pool, query) => if (pool, query) in queries then None else Some((pass, queries + {(pool, query)}))
    case EndQuery(pool, query) => if (pool, query) !in queries then None else Some((pass, queries - {(pool, query)}))
    case ResetQueries(pool, first, count) =>
      if exists q :: q in queries && q.0 == pool && first <= q.1 < first + count then None else Some((pass, queries))
    case OtherCommand => Some((pass, queries))
  }

  ghost function OrderRun(pass: Option<nat>, queries: set<(nat, nat)>, operations: seq<Operation>): Option<(Option<nat>, set<(nat, nat)>)> {
    if operations == [] then Some((pass, queries))
    else match OrderRun(pass, queries, operations[..|operations| - 1])
      case None => None
      case Some(state) => OrderStep(state.0, state.1, operations[|operations| - 1].command)
  }

  /** The pass left open by the last pass command, given the one open before. */
  ghost function OpenPass(pass: Option<nat>, operations: seq<Operation>): Option<nat> {
    if operations == [] then pass
    else match operations[|operations| - 1].command
      case BeginPass(p) => Some(p)
      case EndPass(_) => None
      case _ => OpenPass(pass, operations[..|operations| - 1])
  }

  /** Whether the last begin or end of a query was a begin. */
  ghost predicate QueryOpen(queries: set<(nat, nat)>, operations: seq<Operation>, q: (nat, nat)) {
    if operations == [] then q in queries
    else match operations[|operations| - 1].command
      case BeginQuery(pool, query) => (pool, query) == q || QueryOpen(queries, operations[..|operations| - 1], q)
      case EndQuery(pool, query) => (pool, query) != q && QueryOpen(queries, operations[..|operations| - 1], q)
      case _ => QueryOpen(queries, operations[..|operations| - 1], q)
  }

  lemma {:induction false} OrderStateMeaning(pass: Option<nat>, queries: set<(nat, nat)>, operations: seq<Operation>, q: (nat, nat))
    requires OrderRun(pass, queries, operations).Some?
    ensures OrderRun(pass, queries, operations).value.0 == OpenPass(pass, operations)
    ensures q in OrderRun(pass, queries, operations).value.1 <==> QueryOpen(queries, operations, q)
  {
    if operations != [] {
      OrderStateMeaning(pass, queries, operations[..|operations| - 1], q);
    }
  }

  ghost predicate NoneOpen(queries: set<(nat, nat)>, before: seq<Operation>, pool: nat, first: nat, count: nat) {
    forall query :: first <= query < first + count ==> !QueryOpen(queries, before, (pool, query))
  }

  /** What the operations before a command must have left open for it to be in order. */
  ghost predicate InPlace(pass: Option<nat>, queries: set<(nat, nat)>, before: seq<Operation>, command: Command) {
    match command
    case BeginPass(_) => OpenPass(pass, before).None?
    case EndPass(p) => OpenPass(pass, before) == Some(p)
    case Draw(p) => OpenPass(pass, before) == Some(p)
    case BeginQuery(pool, query) => !QueryOpen(queries, before, (pool, query))
    case EndQuery(pool, query) => QueryOpen(queries, before, (pool, query))
    case ResetQueries(pool, first, count) => NoneOpen(queries, before, pool, first, count)
    case OtherCommand => true
  }

  ghost predicate InPlaceAt(pass: Option<nat>, queries: set<(nat, nat)>, operations: seq<Operation>, k: nat)
    requires k < |operations|
  {
    InPlace(pass, queries, operations[..k], operations[k].command)
  }

  ghost predicate AllInPlace(pass: Option<nat>, queries: set<(nat, nat)>, operations: seq<Operation>) {
    forall k :: 0 <= k < |operations| ==> InPlaceAt(pass, queries, operations, k)
  }

  /** A command is accepted after others exactly when they left open what it needs. */
  lemma StepAcceptedInPlace(pass: Option<nat>, queries: set<(nat, nat)>, before: seq<Operation>, command: Command)
    requires OrderRun(pass, queries, before).Some?
    ensures var state := OrderRun(pass, queries, before).value;
            OrderStep(state.0, state.1, command).Some? <==> InPlace(pass, queries, before, command)
  {
    var state := OrderRun(pass, queries, before).value;
    forall q
      ensures q in state.1 <==> QueryOpen(queries, before, q)
      ensures state.0 == OpenPass(pass, before)
    {
      OrderStateMeaning(pass, queries, before, q);
    }
    OrderStateMeaning(pass, queries, before, (0, 0));
    if command.ResetQueries? && !InPlace(pass, queries, before, command) {
      var query :| command.first <= query < command.first + command.count && QueryOpen(queries, before, (command.pool, query));
      assert (command.pool, query) in state.1;
    }
  }

  /** Commands are accepted exactly when each is in place after those before it. */
  lemma {:induction false} AcceptedBrackets(pass: Option<nat>, queries: set<(nat, nat)>, operations: seq<Operation>)
    ensures OrderRun(pass, queries, operations).Some? <==> AllInPlace(pass, queries, operations)
  {
    if operations != [] {
      var n := |operations| - 1;
      var before := operations[..n];
      AcceptedBrackets(pass, queries, before);
      AllInPlaceOneMore(pass, queries, operations);
      if OrderRun(pass, queries, before).Some? {
        StepAcceptedInPlace(pass, queries, before, operations[n].command);
      }
    }
  }

  lemma AllInPlaceOneMore(pass: Option<nat>, queries: set<(nat, nat)>, operations: seq<Operation>)
    requires operations != []
    ensures var n := |operations| - 1;
            AllInPlace(pass, queries, operations) <==>
              AllInPlace(pass, queries, operations[..n]) && InPlace(pass, queries, operations[..n], operations[n].command)
  {
    var n := |operations| - 1;
    var before := operations[..n];
    forall k | 0 <= k < n
      ensures InPlaceAt(pass, queries, before, k) <==> InPlaceAt(pass, queries, operations, k)
    {
      assert before[..k] == operations[..k];
    }
    assert InPlaceAt(pass, queries, operations, n) <==> InPlace(pass, queries, before, operations[n].command);
  }

  // ---- whole submissions --------------------------------------------------------------------

  ghost function AfterAll(accesses: seq<Tracked>, events: seq<Event>, owner: nat): seq<Tracked> {
    if events == [] then accesses
    else After(AfterAll(accesses, events[..|events| - 1], owner), events[|events| - 1], owner)
  }

  ghost predicate AcceptsAll(accesses: seq<Tracked>, events: seq<Event>, owner: nat, ancestors: set<nat>) {
    forall k :: 0 <= k < |events| ==> Accepts(AfterAll(accesses, events[..k], owner), events[k], owner, ancestors)
  }

  ghost function Events(operations: seq<Operation>): seq<Event> {
    if operations == [] then []
    else Events(operations[..|operations| - 1]) + operations[|operations| - 1].events
  }

  ghost predicate SoundSubmission(submission: Submission) {
    forall k :: 0 <= k < |Events(submission.operations)| ==> SoundFootprint(Events(submission.operations)[k].footprint)
  }

  lemma {:induction false} EventsKeepSeparate(accesses: seq<Tracked>, events: seq<Event>, owner: nat)
    requires Separate(accesses) && forall k :: 0 <= k < |events| ==> SoundFootprint(events[k].footprint)
    ensures Separate(AfterAll(accesses, events, owner))
  {
    if events != [] {
      EventsKeepSeparate(accesses, events[..|events| - 1], owner);
      EventKeepsSeparate(AfterAll(accesses, events[..|events| - 1], owner), events[|events| - 1], owner);
    }
  }

  lemma AcceptsOneMore(accesses: seq<Tracked>, events: seq<Event>, event: Event, owner: nat, ancestors: set<nat>)
    ensures AfterAll(accesses, events + [event], owner) == After(AfterAll(accesses, events, owner), event, owner)
    ensures AcceptsAll(accesses, events + [event], owner, ancestors) <==>
              AcceptsAll(accesses, events, owner, ancestors)
              && Accepts(AfterAll(accesses, events, owner), event, owner, ancestors)
  {
    var more := events + [event];
    assert more[..|events|] == events;
    assert forall k :: 0 <= k < |events| ==> more[k] == events[k] && more[..k] == events[..k];
    if AcceptsAll(accesses, more, owner, ancestors) {
      assert Accepts(AfterAll(accesses, more[..|events|], owner), more[|events|], owner, ancestors);
    }
  }

  lemma RejectsLonger(accesses: seq<Tracked>, prefix: seq<Event>, whole: seq<Event>, owner: nat, ancestors: set<nat>)
    requires prefix <= whole && !AcceptsAll(accesses, prefix, owner, ancestors)
    ensures !AcceptsAll(accesses, whole, owner, ancestors)
  {
    var k :| 0 <= k < |prefix| && !Accepts(AfterAll(accesses, prefix[..k], owner), prefix[k], owner, ancestors);
    assert whole[..k] == prefix[..k] && whole[k] == prefix[k];
  }

  /** `accesses` is what accepting `events`, one after another, has made of `initial`. */
  ghost predicate Reached(initial: seq<Tracked>, events: seq<Event>, accesses: seq<Tracked>, owner: nat, ancestors: set<nat>) {
    AcceptsAll(initial, events, owner, ancestors) && accesses == AfterAll(initial, events, owner)
  }

  method ApplyNext(ghost initial: seq<Tracked>, ghost done: seq<Event>, accesses: seq<Tracked>, event: Event, owner: nat, ancestors: set<nat>)
    returns (r: Result<seq<Tracked>, ValidationError>)
    requires Reached(initial, done, accesses, owner, ancestors)
    ensures r.Ok? ==> Reached(initial, done + [event], r.value, owner, ancestors)
    ensures r.Err? ==> !AcceptsAll(initial, done + [event], owner, ancestors) && r.error != OrderViolation
  {
    AcceptsOneMore(initial, done, event, owner, ancestors);
    r := ApplyEvent(accesses, event, owner, ancestors);
  }

  /** Applies the accesses or transitions of one operation after those in `done`. */
  method ApplyEvents(ghost initial: seq<Tracked>, ghost done: seq<Event>, current: seq<Tracked>, events: seq<Event>, owner: nat, ancestors: set<nat>)
    returns (r: Result<seq<Tracked>, ValidationError>)
    requires Reached(initial, done, current, owner, ancestors)
    ensures r.Ok? ==> Reached(initial, done + events, r.value, owner, ancestors)
    ensures r.Err? ==> !AcceptsAll(initial, done + events, owner, ancestors) && r.error != OrderViolation
  {
    var accesses := current;
    assert done + events[..0] == done;
    for k := 0 to |events|
      invariant Reached(initial, done + events[..k], accesses, owner, ancestors)
    {
      NextPrefix(done, events, k);
      var next := ApplyNext(initial, done + events[..k], accesses, events[k], owner, ancestors);
      if next.Err? {
        RejectsLonger(initial, done + events[..k + 1], done + events, owner, ancestors);
        return next;
      }
      accesses := next.value;
    }
    assert events[..|events|] == events;
    return Ok(accesses);
  }

  lemma NextPrefix(done: seq<Event>, events: seq<Event>, k: nat)
    requires k < |events|
    ensures done + events[..k] + [events[k]] == done + events[..k + 1] <= done + events
  {
  }

  // ---- validating a submission --------------------------------------------------------------

  ghost predicate SubmissionAccepted(state: Validation, submission: Submission) {
    && OrderRun(state.activePass, state.activeQueries, submission.operations).Some?
    && AcceptsAll(state.accesses, Events(submission.operations), submission.id, Gather(state.ancestors, submission.predecessors))
  }

  ghost function Validated(state: Validation, submission: Submission): Validation
    requires SubmissionAccepted(state, submission)
  {
    var order := OrderRun(state.activePass, state.activeQueries, submission.operations).value;
    Validation(
      AfterAll(state.accesses, Events(submission.operations), submission.id),
      state.ancestors[submission.id := Gather(state.ancestors, submission.predecessors)],
      order.0,
      order.1)
  }

  lemma OrderOneMore(pass: Option<nat>, queries: set<(nat, nat)>, operations: seq<Operation>, k: nat)
    requires k < |operations| && OrderRun(pass, queries, operations[..k]).Some?
    ensures var state := OrderRun(pass, queries, operations[..k]).value;
            OrderRun(pass, queries, operations[..k + 1]) == OrderStep(state.0, state.1, operations[k].command)
    ensures Events(operations[..k + 1]) == Events(operations[..k]) + operations[k].events
  {
    assert operations[..k + 1][..k] == operations[..k];
  }

  lemma {:induction false} OrderRejectsLonger(pass: Option<nat>, queries: set<(nat, nat)>, operations: seq<Operation>, k: nat)
    requires k <= |operations| && OrderRun(pass, queries, operations[..k]).None?
    ensures OrderRun(pass, queries, operations).None?
    decreases |operations|
  {
    if k < |operations| {
      assert operations[..|operations| - 1][..k] == operations[..k];
      OrderRejectsLonger(pass, queries, operations[..|operations| - 1], k);
    } else {
      assert operations[..k] == operations;
    }
  }

  lemma {:induction false} EventsGrow(operations: seq<Operation>, k: nat)
    requires k <= |operations|
    ensures Events(operations[..k]) <= Events(operations)
  {
    if k < |operations| {
      EventsGrow(operations[..|operations| - 1], k);
      assert operations[..|operations| - 1][..k] == operations[..k];
    } else {
      assert operations[..k] == operations;
    }
  }

  /** What validating the first `k` operations has established. */
  ghost predicate ValidatedUpTo(state: Validation, submission: Submission, k: nat, accesses: seq<Tracked>,
                                pass: Option<nat>, queries: set<(nat, nat)>, ancestors: set<nat>)
    requires k <= |submission.operations|
  {
    && OrderRun(state.activePass, state.activeQueries, submission.operations[..k]) == Some((pass, queries))
    && Reached(state.accesses, Events(submission.operations[..k]), accesses, submission.id, ancestors)
  }

  /** The error says whether the brackets or the accesses are at fault. */
  ghost predicate SubmissionFails(state: Validation, submission: Submission, why: ValidationError) {
    if why == OrderViolation then OrderRun(state.activePass, state.activeQueries, submission.operations).None?
    else !AcceptsAll(state.accesses, Events(submission.operations), submission.id, Gather(state.ancestors, submission.predecessors))
  }

  method ValidateOperation(ghost state: Validation, submission: Submission, k: nat, accesses: seq<Tracked>,
                           pass: Option<nat>, queries: set<(nat, nat)>, ancestors: set<nat>)
    returns (r: Result<(seq<Tracked>, Option<nat>, set<(nat, nat)>), ValidationError>)
    requires k < |submission.operations| && ValidatedUpTo(state, submission, k, accesses, pass, queries, ancestors)
    requires ancestors == Gather(state.ancestors, submission.predecessors)
    ensures r.Ok? ==> ValidatedUpTo(state, submission, k + 1, r.value.0, r.value.1, r.value.2, ancestors)
    ensures r.Err? ==> SubmissionFails(state, submission, r.error)
  {
    var operation := submission.operations[k];
    OrderOneMore(state.activePass, state.activeQueries, submission.operations, k);
    var order := OrderStep(pass, queries, operation.command);
    if order.None? {
      OrderRejectsLonger(state.activePass, state.activeQueries, submission.operations, k + 1);
      return Err(OrderViolation);
    }
    var applied := ApplyEvents(state.accesses, Events(submission.operations[..k]), accesses, operation.events, submission.id, ancestors);
    if applied.Err? {
      EventsGrow(submission.operations, k + 1);
      RejectsLonger(state.accesses, Events(submission.operations[..k + 1]), Events(submission.operations), submission.id, ancestors);
      return Err(applied.error);
    }
    return Ok((applied.value, order.value.0, order.value.1));
  }

  /** Validates a submission against a state, leaving that state alone. */
  method ValidateSubmission(state: Validation, submission: Submission) returns (r: Result<Validation, ValidationError>)
    ensures r.Ok? <==> SubmissionAccepted(state, submission)
    ensures r.Ok? ==> r.value == Validated(state, submission)
    ensures r.Err? ==> SubmissionFails(state, submission, r.error)
  {
    var ancestors := GatherAncestors(state.ancestors, submission.predecessors);
    var accesses, pass, queries := state.accesses, state.activePass, state.activeQueries;
    for k := 0 to |submission.operations|
      invariant ValidatedUpTo(state, submission, k, accesses, pass, queries, ancestors)
    {
      var next := ValidateOperation(state, submission, k, accesses, pass, queries, ancestors);
      if next.Err? {
        return Err(next.error);
      }
      accesses, pass, queries := next.value.0, next.value.1, next.value.2;
    }
    assert submission.operations[..|submission.operations|] == submission.operations;
    return Ok(Validation(accesses, state.ancestors[submission.id := ancestors], pass, queries));
  }

  // ---- accepted accesses follow the tracked ones they meet ----------------------------------

  lemma {:induction false} TablePrefix(history: seq<Submission>, more: seq<Submission>, i: nat)
    requires i <= |history|
    ensures AncestorTable(history + more, i) == AncestorTable(history, i)
  {
    if i > 0 {
      TablePrefix(history, more, i - 1);
    }
  }

  lemma TableGrows(history: seq<Submission>, submission: Submission)
    ensures AncestorTable(history + [submission], |history| + 1)
         == AncestorTable(history, |history|)[submission.id := Gather(AncestorTable(history, |history|), submission.predecessors)]
  {
    TablePrefix(history, [submission], |history|);
  }

  /**
   Every tracked access that an accepted submission shares a cell with was made by itself or by a
   submission that precedes it through a chain of declared predecessors.
   */
  lemma {:induction false} AcceptedIsOrdered(history: seq<Submission>, state: Validation, submission: Submission, k: nat, t: Tracked)
    requires Separate(state.accesses) && SoundSubmission(submission)
    requires state.ancestors == AncestorTable(history, |history|) && SubmissionAccepted(state, submission)
    requires k < |Events(submission.operations)|
    requires t in AfterAll(state.accesses, Events(submission.operations)[..k], submission.id)
    requires Share(Events(submission.operations)[k].footprint, t.footprint)
    ensures t.owner == submission.id || Precedes(history + [submission], t.owner, |history|)
  {
    var events := Events(submission.operations);
    var accesses := AfterAll(state.accesses, events[..k], submission.id);
    EventsKeepSeparate(state.accesses, events[..k], submission.id);
    OverlapMeansSharing(events[k].footprint, t.footprint);
    assert Accepts(accesses, events[k], submission.id, Gather(state.ancestors, submission.predecessors));
    var i :| 0 <= i < |accesses| && accesses[i] == t;
    assert MayFollow(accesses[i], events[k], submission.id, Gather(state.ancestors, submission.predecessors));
    TablePrefix(history, [submission], |history|);
    AncestorsAreTransitive(history + [submission], |history|, t.owner);
  }
}
