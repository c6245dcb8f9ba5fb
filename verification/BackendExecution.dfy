/** The resumable execution that cuts a plan into host segments at canonical-write boundaries. */
module BackendExecution {
  import opened Primitives
  import opened RenderPasses
  import opened ExecutionModel

  datatype ExecutionError = EmptySubmission | TooManySegments

  datatype Segment = Segment(
    number: nat,
    final: bool,
    creations: seq<nat>,
    invalidations: seq<nat>,
    ops: seq<Operation>)

  // ---- counting segments up front -----------------------------------------------------------

  /** Counts the segments a plan will be cut into. */
  method CountSegments(steps: seq<Step>) returns (r: Result<nat, ExecutionError>)
    ensures r.Ok? <==> SegmentsFrom(steps, 0, false) < U32_SIZE
    ensures r.Ok? ==> r.value == SegmentsFrom(steps, 0, false)
    ensures r.Err? ==> r.error == TooManySegments
  {
    var count := 0;
    var pending := false;
    for k := 0 to |steps|
      invariant count + SegmentsFrom(steps, k, pending) == SegmentsFrom(steps, 0, false)
    {
      if IsCanonicalWrite(steps[k]) && pending {
        count := count + 1;
        pending := false;
      }
      pending := pending || EmitsOperation(steps[k]);
    }
    if pending {
      count := count + 1;
    }
    if count >= U32_SIZE {
      return Err(TooManySegments);
    }
    return Ok(count);
  }

  lemma {:induction false} EmittersMakeSegments(steps: seq<Step>, k: nat, pending: bool, i: nat)
    requires k <= i < |steps| && EmitsOperation(steps[i])
    ensures SegmentsFrom(steps, k, pending) > 0
    decreases |steps| - k
  {
    if k < i {
      EmittersMakeSegments(steps, k + 1, (pending || EmitsOperation(steps[k])) && !(IsCanonicalWrite(steps[k]) && pending), i);
    } else if k + 1 < |steps| {
      PendingMakesSegment(steps, k + 1);
    }
  }

  lemma {:induction false} PendingMakesSegment(steps: seq<Step>, k: nat)
    requires k <= |steps|
    ensures SegmentsFrom(steps, k, true) > 0
    decreases |steps| - k
  {
    if k < |steps| && !IsCanonicalWrite(steps[k]) {
      PendingMakesSegment(steps, k + 1);
    }
  }

  // ---- what a stretch of steps gathers ------------------------------------------------------

  /** Once operations are gathered, no canonical write is passed. */
  ghost predicate CutBeforeWrites(steps: seq<Step>) {
    forall i, j :: 0 <= i < j < |steps| && EmitsOperation(steps[i]) ==> !IsCanonicalWrite(steps[j])
  }

  /** Operations, resources and writes in hand after a stretch of steps. */
  datatype Hand = Hand(batch: Batch, creations: seq<nat>, invalidations: seq<nat>, pre: seq<ByteWrite>)

  const NOTHING_GATHERED := Hand(Batch([], None), [], [], [])

  /** `hand` and `memory` are what performing `steps` in order, from `memory0`, leaves in hand. */
  ghost predicate Gathered(steps: seq<Step>, memory0: Memory, memory: Memory, hand: Hand) {
    && hand.batch == AppendAll(Items(steps))
    && hand.creations == Creations(steps)
    && hand.invalidations == Invalidations(steps)
    && Apply(memory, hand.pre) == PerformSteps(memory0, steps)
    && (Items(steps) != [] ==> hand.pre == [])
    && CutBeforeWrites(steps)
  }

  function Staged(hand: Hand, memory: Memory, step: Step): Hand
    requires IsCanonicalWrite(step)
  {
    hand.(pre := hand.pre + if step.InlineWrite? then step.writes else DmaWrites(Apply(memory, hand.pre), step))
  }

  function Emitted(hand: Hand, step: Step): Hand
    requires EmitsOperation(step)
  {
    match step
    case BackendOperation(op) => Hand(Batch(hand.batch.ops + [op], None), hand.creations, hand.invalidations, [])
    case ThreeD(creations, invalidations, ops) =>
      Hand(AppendBatchable(hand.batch, ops), hand.creations + creations, hand.invalidations + invalidations, [])
  }

  lemma {:induction false} EmitterHasItem(steps: seq<Step>, i: nat)
    requires i < |steps| && EmitsOperation(steps[i])
    ensures Items(steps) != []
  {
    if i < |steps| - 1 {
      EmitterHasItem(steps[..|steps| - 1], i);
    }
  }

  lemma {:induction false} ItemHasEmitter(steps: seq<Step>) returns (i: nat)
    requires Items(steps) != []
    ensures i < |steps| && EmitsOperation(steps[i])
  {
    if EmitsOperation(steps[|steps| - 1]) {
      i := |steps| - 1;
    } else {
      i := ItemHasEmitter(steps[..|steps| - 1]);
    }
  }

  lemma StageStep(steps: seq<Step>, memory0: Memory, memory: Memory, hand: Hand, step: Step)
    requires Gathered(steps, memory0, memory, hand) && IsCanonicalWrite(step) && Items(steps) == []
    ensures Gathered(steps + [step], memory0, memory, Staged(hand, memory, step))
  {
    StepsGrow(steps, step, memory0);
    var staged := if step.InlineWrite? then step.writes else DmaWrites(Apply(memory, hand.pre), step);
    ApplyConcat(memory, hand.pre, staged);
    forall i | 0 <= i < |steps|
      ensures !EmitsOperation(steps[i])
    {
      if EmitsOperation(steps[i]) {
        EmitterHasItem(steps, i);
      }
    }
  }

  lemma CutGrows(steps: seq<Step>, step: Step)
    requires CutBeforeWrites(steps) && !IsCanonicalWrite(step)
    ensures CutBeforeWrites(steps + [step])
  {
  }

  lemma EmitBatch(steps: seq<Step>, hand: Hand, step: Step)
    requires EmitsOperation(step) && hand.batch == AppendAll(Items(steps))
    ensures Emitted(hand, step).batch == AppendAll(Items(steps) + StepItems(step))
  {
    AppendOneMore(Items(steps), StepItems(step)[0]);
  }

  lemma EmitStep(steps: seq<Step>, memory0: Memory, memory: Memory, hand: Hand, step: Step)
    requires Gathered(steps, memory0, memory, hand) && EmitsOperation(step)
    ensures Gathered(steps + [step], memory0, Apply(memory, hand.pre), Emitted(hand, step))
    ensures Items(steps + [step]) != []
  {
    StepsGrow(steps, step, memory0);
    EmitBatch(steps, hand, step);
    CutGrows(steps, step);
  }

  lemma PostStep(steps: seq<Step>, memory0: Memory, memory: Memory, hand: Hand, step: Step)
    requires Gathered(steps, memory0, memory, hand) && step.PostCompletionWrite?
    ensures Gathered(steps + [step], memory0, memory, hand)
  {
    StepsGrow(steps, step, memory0);
    assert Items(steps) + [] == Items(steps);
    CutGrows(steps, step);
  }

  lemma BatchEmptyOnlyWithoutItems(steps: seq<Step>)
    requires SoundSteps(steps)
    ensures AppendAll(Items(steps)).ops == [] <==> Items(steps) == []
  {
    ItemsHoldOperations(steps);
    if Items(steps) != [] {
      BatchHoldsOperations(Items(steps));
    }
  }

  // ---- one call advances the command-order run ----------------------------------------------

  ghost predicate WriteComesFirst(steps: seq<Step>, a: nat, k: nat)
    requires a <= k < |steps|
  {
    IsCanonicalWrite(steps[k]) ==> Items(steps[a..k]) == []
  }

  /** Within `steps[a..b]`, every canonical write comes before any operation. */
  ghost predicate WritesComeFirst(steps: seq<Step>, a: nat, b: nat)
    requires a <= b <= |steps|
  {
    forall k :: a <= k < b ==> WriteComesFirst(steps, a, k)
  }

  lemma CutMeansWritesFirst(steps: seq<Step>, a: nat, b: nat)
    requires a <= b <= |steps| && CutBeforeWrites(steps[a..b])
    ensures WritesComeFirst(steps, a, b)
  {
    forall k | a <= k < b
      ensures WriteComesFirst(steps, a, k)
    {
      if IsCanonicalWrite(steps[k]) {
        NoItemsBefore(steps, a, b, k);
      }
    }
  }

  lemma NoItemsBefore(steps: seq<Step>, a: nat, b: nat, k: nat)
    requires a <= k < b <= |steps| && CutBeforeWrites(steps[a..b]) && IsCanonicalWrite(steps[k])
    ensures Items(steps[a..k]) == []
  {
    assert steps[a..b][k - a] == steps[k];
    forall i | 0 <= i < k - a
      ensures !EmitsOperation(steps[a..k][i])
    {
      assert steps[a..b][i] == steps[a..k][i];
    }
    if Items(steps[a..k]) != [] {
      var i := ItemHasEmitter(steps[a..k]);
    }
  }

  lemma OneLonger(steps: seq<Step>, a: nat, k: nat)
    requires a <= k < |steps|
    ensures steps[a..k + 1] == steps[a..k] + [steps[k]]
  {
  }

  lemma SliceGrows(steps: seq<Step>, a: nat, k: nat, memory: Memory)
    requires a <= k < |steps|
    ensures Items(steps[a..k + 1]) == Items(steps[a..k]) + StepItems(steps[k])
    ensures PerformSteps(memory, steps[a..k + 1]) == PerformStep(PerformSteps(memory, steps[a..k]), steps[k])
  {
    OneLonger(steps, a, k);
    StepsGrow(steps[a..k], steps[k], memory);
  }

  /** The command-order run resumed at `k`, with the stretch from `a` already gathered. */
  ghost function Resumed(steps: seq<Step>, a: nat, k: nat, memory: Memory, host: (seq<Operation>, Memory) -> Memory): Memory
    requires a <= k <= |steps|
  {
    InOrder(steps, k, Items(steps[a..k]), PerformSteps(memory, steps[a..k]), host)
  }

  lemma ResumedStep(steps: seq<Step>, a: nat, k: nat, memory: Memory, host: (seq<Operation>, Memory) -> Memory)
    requires a <= k < |steps| && WriteComesFirst(steps, a, k)
    ensures Resumed(steps, a, k, memory, host) == Resumed(steps, a, k + 1, memory, host)
  {
    SliceGrows(steps, a, k, memory);
    InOrderStep(steps, k, Items(steps[a..k]), PerformSteps(memory, steps[a..k]), host);
  }

  lemma {:induction false} ResumedAnywhere(steps: seq<Step>, a: nat, b: nat, memory: Memory, host: (seq<Operation>, Memory) -> Memory)
    requires a <= b <= |steps| && WritesComeFirst(steps, a, b)
    ensures Resumed(steps, a, a, memory, host) == Resumed(steps, a, b, memory, host)
    decreases b
  {
    if a < b {
      ResumedAnywhere(steps, a, b - 1, memory, host);
      assert WriteComesFirst(steps, a, b - 1);
      ResumedStep(steps, a, b - 1, memory, host);
    }
  }

  lemma InOrderAdvances(steps: seq<Step>, a: nat, b: nat, memory: Memory, host: (seq<Operation>, Memory) -> Memory)
    requires a <= b <= |steps| && WritesComeFirst(steps, a, b)
    ensures InOrder(steps, a, [], memory, host) == Resumed(steps, a, b, memory, host)
  {
    assert steps[a..a] == [];
    ResumedAnywhere(steps, a, b, memory, host);
  }

  lemma InOrderFlushes(steps: seq<Step>, k: nat, pending: seq<Item>, memory: Memory, host: (seq<Operation>, Memory) -> Memory)
    requires k <= |steps| && pending != [] && (k == |steps| || IsCanonicalWrite(steps[k]))
    ensures InOrder(steps, k, pending, memory, host) == InOrder(steps, k, [], host(AppendAll(pending).ops, memory), host)
  {
  }

  // ---- the execution ------------------------------------------------------------------------

  /** What holds of the segment counter when the steps from `k` on are still to be cut. */
  ghost predicate Numbering(steps: seq<Step>, k: nat, pending: bool, count: nat, next: nat, submitted: bool)
    requires k <= |steps|
  {
    var rest := SegmentsFrom(steps, k, pending);
    && rest <= count == SegmentsFrom(steps, 0, false)
    && 0 < count < U32_SIZE
    && next == (if rest == 0 then count - 1 else count - rest)
    && (submitted <==> rest < count)
  }

  /** The segment cut from `steps[a..b]`, numbered by how many segments come after it. */
  ghost predicate IsSegment(segment: Segment, steps: seq<Step>, a: nat, b: nat)
    requires a <= b <= |steps|
  {
    && segment.ops == AppendAll(Items(steps[a..b])).ops
    && segment.creations == Creations(steps[a..b])
    && segment.invalidations == Invalidations(steps[a..b])
    && segment.number + 1 + SegmentsFrom(steps, b, false) == SegmentsFrom(steps, 0, false)
    && (segment.final <==> SegmentsFrom(steps, b, false) == 0)
  }

  /** A stretch ends just before a canonical write, or at the end of the plan. */
  ghost predicate IsCut(steps: seq<Step>, a: nat, b: nat)
    requires a <= b <= |steps|
  {
    && Items(steps[a..b]) != []
    && CutBeforeWrites(steps[a..b])
    && (b == |steps| || IsCanonicalWrite(steps[b]))
  }

  /** What a call that returns a segment has done: cut the stretch and committed the writes before its operations. */
  ghost predicate Advanced(steps: seq<Step>, a: nat, b: nat, segment: Segment, memory0: Memory, memory: Memory) {
    && a <= b <= |steps|
    && IsCut(steps, a, b)
    && IsSegment(segment, steps, a, b)
    && memory == PerformSteps(memory0, steps[a..b])
    && SegmentsFrom(steps, b, false) + 1 == SegmentsFrom(steps, a, false)
  }

  /** What the last call has done: no operation was left, so the post-completion writes are committed. */
  ghost predicate Drained(steps: seq<Step>, a: nat, memory0: Memory, memory: Memory) {
    && a <= |steps|
    && Items(steps[a..]) == []
    && SegmentsFrom(steps, a, false) == 0
    && memory == Apply(PerformSteps(memory0, steps[a..]), PostWrites(steps))
  }

  /** How far a call has come: the stretch from `from` to `k` is gathered and nothing else changed. */
  ghost predicate Progress(steps: seq<Step>, from: nat, k: nat, memory0: Memory, memory: Memory, hand: Hand, post: seq<ByteWrite>) {
    && from <= k <= |steps|
    && Gathered(steps[from..k], memory0, memory, hand)
    && post == PostWrites(steps[..k])
    && SegmentsFrom(steps, k, Items(steps[from..k]) != []) == SegmentsFrom(steps, from, false)
  }

  lemma ProgressStarts(steps: seq<Step>, from: nat, memory: Memory)
    requires from <= |steps|
    ensures Progress(steps, from, from, memory, memory, NOTHING_GATHERED, PostWrites(steps[..from]))
  {
    assert steps[from..from] == [];
  }

  /** One step taken by the gathering loop: emitters first commit the staged writes. */
  function NextHand(hand: Hand, memory: Memory, step: Step): Hand {
    if IsCanonicalWrite(step) then Staged(hand, memory, step)
    else if EmitsOperation(step) then Emitted(hand, step)
    else hand
  }

  function NextMemory(hand: Hand, memory: Memory, step: Step): Memory {
    if EmitsOperation(step) then Apply(memory, hand.pre) else memory
  }

  lemma GatherStep(run: seq<Step>, memory0: Memory, memory: Memory, hand: Hand, step: Step)
    requires Gathered(run, memory0, memory, hand)
    requires IsCanonicalWrite(step) ==> Items(run) == []
    ensures Gathered(run + [step], memory0, NextMemory(hand, memory, step), NextHand(hand, memory, step))
    ensures Items(run + [step]) != [] <==> Items(run) != [] || EmitsOperation(step)
  {
    StepsGrow(run, step, memory0);
    if IsCanonicalWrite(step) {
      StageStep(run, memory0, memory, hand, step);
    } else if EmitsOperation(step) {
      EmitStep(run, memory0, memory, hand, step);
    } else {
      PostStep(run, memory0, memory, hand, step);
    }
  }

  lemma GatherNext(run: seq<Step>, next: seq<Step>, memory0: Memory, memory: Memory, hand: Hand, step: Step)
    requires next == run + [step] && Gathered(run, memory0, memory, hand)
    requires IsCanonicalWrite(step) ==> Items(run) == []
    ensures Gathered(next, memory0, NextMemory(hand, memory, step), NextHand(hand, memory, step))
    ensures Items(next) != [] <==> Items(run) != [] || EmitsOperation(step)
  {
    GatherStep(run, memory0, memory, hand, step);
  }

  function NextPost(post: seq<ByteWrite>, step: Step): seq<ByteWrite> {
    post + if step.PostCompletionWrite? then step.writes else []
  }

  lemma SegmentsStep(steps: seq<Step>, k: nat, pending: bool)
    requires k < |steps| && (IsCanonicalWrite(steps[k]) ==> !pending)
    ensures SegmentsFrom(steps, k, pending) == SegmentsFrom(steps, k + 1, pending || EmitsOperation(steps[k]))
  {
  }

  lemma PostGrows(steps: seq<Step>, k: nat)
    requires k < |steps|
    ensures PostWrites(steps[..k + 1]) == NextPost(PostWrites(steps[..k]), steps[k])
  {
    assert steps[..k + 1] == steps[..k] + [steps[k]];
    StepsGrow(steps[..k], steps[k], map[]);
  }

  lemma ProgressContinues(steps: seq<Step>, from: nat, k: nat, pending: bool, memory0: Memory, memory': Memory, hand': Hand)
    requires from <= k < |steps| && (IsCanonicalWrite(steps[k]) ==> !pending)
    requires SegmentsFrom(steps, k, pending) == SegmentsFrom(steps, from, false)
    requires Gathered(steps[from..k + 1], memory0, memory', hand')
    requires Items(steps[from..k + 1]) != [] <==> pending || EmitsOperation(steps[k])
    ensures Progress(steps, from, k + 1, memory0, memory', hand', NextPost(PostWrites(steps[..k]), steps[k]))
  {
    SegmentsStep(steps, k, pending);
    PostGrows(steps, k);
  }

  lemma GatherSlice(steps: seq<Step>, from: nat, k: nat, memory0: Memory, memory: Memory, hand: Hand)
    requires from <= k < |steps| && Gathered(steps[from..k], memory0, memory, hand)
    requires IsCanonicalWrite(steps[k]) ==> Items(steps[from..k]) == []
    ensures Gathered(steps[from..k + 1], memory0, NextMemory(hand, memory, steps[k]), NextHand(hand, memory, steps[k]))
    ensures Items(steps[from..k + 1]) != [] <==> Items(steps[from..k]) != [] || EmitsOperation(steps[k])
  {
    assert steps[from..k + 1] == steps[from..k] + [steps[k]];
    GatherNext(steps[from..k], steps[from..k + 1], memory0, memory, hand, steps[k]);
  }

  lemma ProgressStep(steps: seq<Step>, from: nat, k: nat, memory0: Memory, memory: Memory, hand: Hand, post: seq<ByteWrite>)
    requires Progress(steps, from, k, memory0, memory, hand, post) && k < |steps|
    requires IsCanonicalWrite(steps[k]) ==> Items(steps[from..k]) == []
    ensures Progress(steps, from, k + 1, memory0, NextMemory(hand, memory, steps[k]), NextHand(hand, memory, steps[k]), NextPost(post, steps[k]))
  {
    GatherSlice(steps, from, k, memory0, memory, hand);
    ProgressContinues(steps, from, k, Items(steps[from..k]) != [], memory0, NextMemory(hand, memory, steps[k]), NextHand(hand, memory, steps[k]));
  }

  /** Where the gathering loop stops: before a canonical write with operations in hand, or at the end. */
  ghost predicate Stops(steps: seq<Step>, from: nat, k: nat)
    requires from <= k <= |steps|
  {
    k == |steps| || (IsCanonicalWrite(steps[k]) && Items(steps[from..k]) != [])
  }

  lemma SoundSlice(steps: seq<Step>, a: nat, b: nat)
    requires SoundSteps(steps) && a <= b <= |steps|
    ensures SoundSteps(steps[a..b])
  {
  }

  lemma HandEmptyOnlyWithoutItems(steps: seq<Step>, from: nat, k: nat, memory0: Memory, memory: Memory, hand: Hand, post: seq<ByteWrite>)
    requires SoundSteps(steps) && Progress(steps, from, k, memory0, memory, hand, post)
    ensures hand.batch.ops == [] <==> Items(steps[from..k]) == []
  {
    SoundSlice(steps, from, k);
    BatchEmptyOnlyWithoutItems(steps[from..k]);
  }

  /** Takes step `k`, unless a segment must be cut before it. */
  method TakeStep(steps: seq<Step>, ghost from: nat, k: nat, ghost memory0: Memory, memory: Memory, hand: Hand, post: seq<ByteWrite>)
    returns (cut: bool, memory': Memory, hand': Hand, post': seq<ByteWrite>)
    requires SoundSteps(steps) && k < |steps| && Progress(steps, from, k, memory0, memory, hand, post)
    ensures cut ==> Stops(steps, from, k) && memory' == memory && hand' == hand && post' == post
    ensures !cut ==> Progress(steps, from, k + 1, memory0, memory', hand', post')
  {
    HandEmptyOnlyWithoutItems(steps, from, k, memory0, memory, hand, post);
    if IsCanonicalWrite(steps[k]) && hand.batch.ops != [] {
      return true, memory, hand, post;
    }
    ProgressStep(steps, from, k, memory0, memory, hand, post);
    return false, NextMemory(hand, memory, steps[k]), NextHand(hand, memory, steps[k]), NextPost(post, steps[k]);
  }

  /** Walks the steps until a segment must be cut. */
  method GatherStretch(steps: seq<Step>, from: nat, memory0: Memory, posted: seq<ByteWrite>)
    returns (k: nat, memory: Memory, hand: Hand, post: seq<ByteWrite>)
    requires SoundSteps(steps) && from <= |steps| && posted == PostWrites(steps[..from])
    ensures Progress(steps, from, k, memory0, memory, hand, post)
    ensures Stops(steps, from, k)
  {
    k, memory, hand, post := from, memory0, NOTHING_GATHERED, posted;
    ProgressStarts(steps, from, memory0);
    var cut := false;
    while k < |steps| && !cut
      invariant Progress(steps, from, k, memory0, memory, hand, post)
      invariant cut ==> Stops(steps, from, k)
      decreases |steps| - k, !cut
    {
      cut, memory, hand, post := TakeStep(steps, from, k, memory0, memory, hand, post);
      k := if cut then k else k + 1;
    }
  }

  /** Memory and hand at a stop with operations gathered. */
  lemma StopWithItems(steps: seq<Step>, from: nat, k: nat, memory0: Memory, memory: Memory, hand: Hand, post: seq<ByteWrite>)
    requires Progress(steps, from, k, memory0, memory, hand, post) && Stops(steps, from, k) && Items(steps[from..k]) != []
    ensures IsCut(steps, from, k) && hand.pre == []
    ensures Apply(memory, hand.pre) == PerformSteps(memory0, steps[from..k])
    ensures SegmentsFrom(steps, k, true) == SegmentsFrom(steps, from, false)
    ensures SegmentsFrom(steps, k, false) + 1 == SegmentsFrom(steps, from, false)
    ensures hand.batch == AppendAll(Items(steps[from..k]))
    ensures hand.creations == Creations(steps[from..k]) && hand.invalidations == Invalidations(steps[from..k])
    ensures post == PostWrites(steps[..k])
  {
  }

  lemma StopAtEnd(steps: seq<Step>, from: nat, k: nat, memory0: Memory, memory: Memory, hand: Hand, post: seq<ByteWrite>)
    requires Progress(steps, from, k, memory0, memory, hand, post) && Stops(steps, from, k) && Items(steps[from..k]) == []
    ensures k == |steps| && post == PostWrites(steps)
    ensures Apply(memory, hand.pre) == PerformSteps(memory0, steps[from..])
    ensures Items(steps[from..]) == [] && SegmentsFrom(steps, from, false) == 0
  {
    assert steps[from..] == steps[from..k] && steps[..k] == steps;
  }

  class MaxwellBackendExecution {
    const steps: seq<Step>
    var nextStep: nat
    var hand: Hand
    var postWrites: seq<ByteWrite>
    const count: nat
    var nextSegment: nat
    var awaitingCompletion: bool
    var submittedAny: bool
    var finished: bool

    ghost predicate Valid()
      reads this
    {
      && SoundSteps(steps)
      && nextStep <= |steps|
      && hand == NOTHING_GATHERED
      && (finished ==> nextStep == |steps| && postWrites == [])
      && (!finished ==> postWrites == PostWrites(steps[..nextStep]))
      && Numbering(steps, nextStep, false, count, nextSegment, submittedAny)
    }

    constructor (steps: seq<Step>, count: nat)
      requires SoundSteps(steps)
      requires count == SegmentsFrom(steps, 0, false) && 0 < count < U32_SIZE
      ensures Valid() && !awaitingCompletion && !finished
      ensures this.steps == steps && nextStep == 0
    {
      this.steps := steps;
      this.count := count;
      nextStep := 0;
      hand := NOTHING_GATHERED;
      postWrites := [];
      nextSegment := 0;
      awaitingCompletion := false;
      submittedAny := false;
      finished := false;
    }

    /** A plan without backend work, or with more segments than can be numbered, is refused. */
    static method New(steps: seq<Step>) returns (r: Result<MaxwellBackendExecution, ExecutionError>)
      requires SoundSteps(steps)
      ensures r.Ok? <==> (exists i :: 0 <= i < |steps| && EmitsOperation(steps[i])) && SegmentsFrom(steps, 0, false) < U32_SIZE
      ensures r.Ok? ==> fresh(r.value) && r.value.Valid() && !r.value.awaitingCompletion && !r.value.finished
      ensures r.Ok? ==> r.value.steps == steps && r.value.nextStep == 0
      ensures r.Err? ==> r.error == if exists i :: 0 <= i < |steps| && EmitsOperation(steps[i]) then TooManySegments else EmptySubmission
    {
      if !(exists i :: 0 <= i < |steps| && EmitsOperation(steps[i])) {
        return Err(EmptySubmission);
      }
      ghost var i :| 0 <= i < |steps| && EmitsOperation(steps[i]);
      var counted := CountSegments(steps);
      if counted.Err? {
        return Err(counted.error);
      }
      EmittersMakeSegments(steps, 0, false, i);
      var execution := new MaxwellBackendExecution(steps, counted.value);
      return Ok(execution);
    }

    method CompleteSegment()
      requires Valid() && awaitingCompletion
      modifies this`awaitingCompletion
      ensures Valid() && !awaitingCompletion
    {
      awaitingCompletion := false;
    }

    /** Hands out the gathered operations as the next numbered segment. */
    method TakeSegment(ghost from: nat) returns (segment: Segment)
      requires from <= nextStep <= |steps| && SoundSteps(steps) && !finished
      requires IsCut(steps, from, nextStep)
      requires hand.batch == AppendAll(Items(steps[from..nextStep])) && hand.pre == []
      requires hand.creations == Creations(steps[from..nextStep])
      requires hand.invalidations == Invalidations(steps[from..nextStep])
      requires postWrites == PostWrites(steps[..nextStep])
      requires Numbering(steps, nextStep, true, count, nextSegment, submittedAny)
      modifies this
      ensures Valid() && awaitingCompletion && !finished
      ensures nextStep == old(nextStep)
      ensures IsSegment(segment, steps, from, nextStep)
    {
      var completed := nextSegment + 1;
      assert completed <= count;
      segment := Segment(nextSegment, completed == count, hand.creations, hand.invalidations, hand.batch.ops);
      if completed != count {
        nextSegment := nextSegment + 1;
      }
      hand := NOTHING_GATHERED;
      awaitingCompletion := true;
      submittedAny := true;
    }

    /**
     Advances to the next host segment. A returned segment covers the steps up to the next canonical
     write that follows an operation; memory holds exactly the canonical writes before that point.
     When no operation is left the post-completion writes are committed and the execution finishes.
     */
    method NextSegment(memory0: Memory) returns (r: Option<Segment>, memory: Memory)
      requires Valid() && !awaitingCompletion
      modifies this
      ensures Valid()
      ensures r.Some? ==> !finished && awaitingCompletion && Advanced(steps, old(nextStep), nextStep, r.value, memory0, memory)
      ensures r.None? ==> finished && !awaitingCompletion && nextStep == |steps|
      ensures r.None? && !old(finished) ==> Drained(steps, old(nextStep), memory0, memory)
      ensures old(finished) ==> r.None? && memory == memory0
    {
      if finished {
        return None, memory0;
      }
      var from := nextStep;
      var k, staged, gathered, post := GatherStretch(steps, from, memory0, postWrites);
      HandEmptyOnlyWithoutItems(steps, from, k, memory0, staged, gathered, post);
      memory := Apply(staged, gathered.pre);
      if gathered.batch.ops != [] {
        StopWithItems(steps, from, k, memory0, staged, gathered, post);
        nextStep, hand, postWrites := k, gathered, post;
        var segment := TakeSegment(from);
        return Some(segment), memory;
      }
      StopAtEnd(steps, from, k, memory0, staged, gathered, post);
      memory := Apply(memory, post);
      Finish();
      return None, memory;
    }

    method Finish()
      requires Valid() && SegmentsFrom(steps, nextStep, false) == 0
      modifies this
      ensures Valid() && finished && nextStep == |steps| && awaitingCompletion == old(awaitingCompletion)
    {
      nextStep := |steps|;
      postWrites := [];
      finished := true;
    }
  }

  // ---- whole runs ---------------------------------------------------------------------------

  lemma SegmentAdvances(steps: seq<Step>, a: nat, b: nat, memory: Memory, ops: seq<Operation>, host: (seq<Operation>, Memory) -> Memory)
    requires a <= b <= |steps| && IsCut(steps, a, b) && ops == AppendAll(Items(steps[a..b])).ops
    ensures InOrder(steps, a, [], memory, host)
         == InOrder(steps, b, [], host(ops, PerformSteps(memory, steps[a..b])), host)
  {
    CutMeansWritesFirst(steps, a, b);
    InOrderAdvances(steps, a, b, memory, host);
    InOrderFlushes(steps, b, Items(steps[a..b]), PerformSteps(memory, steps[a..b]), host);
  }

  lemma ItemsWithin(steps: seq<Step>, a: nat, k: nat)
    requires a <= k <= |steps|
    ensures Items(steps[a..k]) != [] ==> Items(steps[a..]) != []
  {
    if Items(steps[a..k]) != [] {
      var i := ItemHasEmitter(steps[a..k]);
      assert steps[a..][i] == steps[a..k][i];
      EmitterHasItem(steps[a..], i);
    }
  }

  lemma TailOnlyWrites(steps: seq<Step>, a: nat, memory: Memory, host: (seq<Operation>, Memory) -> Memory)
    requires a <= |steps| && Items(steps[a..]) == []
    ensures InOrder(steps, a, [], memory, host) == PerformSteps(memory, steps[a..])
  {
    assert steps[a..|steps|] == steps[a..];
    forall k | a <= k < |steps|
      ensures WriteComesFirst(steps, a, k)
    {
      ItemsWithin(steps, a, k);
    }
    InOrderAdvances(steps, a, |steps|, memory, host);
  }

  ghost predicate NumberedInOrder(segments: seq<Segment>, total: nat) {
    forall i :: 0 <= i < |segments| ==> segments[i].number == i && (segments[i].final <==> i + 1 == total)
  }

  /** Where a run stands when the steps from `k` on are left and `segments` have been completed. */
  ghost predicate RunReached(steps: seq<Step>, k: nat, segments: seq<Segment>, memory0: Memory, memory: Memory, host: (seq<Operation>, Memory) -> Memory) {
    && k <= |steps|
    && |segments| + SegmentsFrom(steps, k, false) == SegmentsFrom(steps, 0, false)
    && NumberedInOrder(segments, SegmentsFrom(steps, 0, false))
    && InOrder(steps, k, [], memory, host) == InOrder(steps, 0, [], memory0, host)
  }

  lemma RunTakesSegment(steps: seq<Step>, a: nat, b: nat, segments: seq<Segment>, segment: Segment,
                        memory0: Memory, memory: Memory, prepared: Memory, host: (seq<Operation>, Memory) -> Memory)
    requires RunReached(steps, a, segments, memory0, memory, host)
    requires Advanced(steps, a, b, segment, memory, prepared)
    ensures RunReached(steps, b, segments + [segment], memory0, host(segment.ops, prepared), host)
  {
    SegmentAdvances(steps, a, b, memory, segment.ops, host);
  }

  lemma RunFinishes(steps: seq<Step>, k: nat, segments: seq<Segment>, memory0: Memory, memory: Memory, final: Memory, host: (seq<Operation>, Memory) -> Memory)
    requires RunReached(steps, k, segments, memory0, memory, host)
    requires Drained(steps, k, memory, final)
    ensures RunEnded(steps, segments, memory0, final, host)
  {
    TailOnlyWrites(steps, k, memory, host);
  }

  ghost predicate RunEnded(steps: seq<Step>, segments: seq<Segment>, memory0: Memory, memory: Memory, host: (seq<Operation>, Memory) -> Memory) {
    && |segments| == SegmentsFrom(steps, 0, false)
    && NumberedInOrder(segments, |segments|)
    && memory == Apply(InOrder(steps, 0, [], memory0, host), PostWrites(steps))
  }

  /** Asks for the next segment and lets the host complete it. */
  method HostStep(execution: MaxwellBackendExecution, segments: seq<Segment>, ghost memory0: Memory, memory: Memory, host: (seq<Operation>, Memory) -> Memory)
    returns (done: bool, segments': seq<Segment>, memory': Memory)
    requires execution.Valid() && !execution.awaitingCompletion && !execution.finished
    requires RunReached(execution.steps, execution.nextStep, segments, memory0, memory, host)
    modifies execution
    ensures execution.Valid() && !execution.awaitingCompletion && (done <==> execution.finished)
    ensures !done ==> RunReached(execution.steps, execution.nextStep, segments', memory0, memory', host)
    ensures !done ==> |segments'| == |segments| + 1
    ensures done ==> RunEnded(execution.steps, segments', memory0, memory', host)
  {
    ghost var steps, from := execution.steps, execution.nextStep;
    var next, prepared := execution.NextSegment(memory);
    if next.None? {
      RunFinishes(steps, from, segments, memory0, memory, prepared, host);
      return true, segments, prepared;
    }
    RunTakesSegment(steps, from, execution.nextStep, segments, next.value, memory0, memory, prepared, host);
    execution.CompleteSegment();
    return false, segments + [next.value], host(next.value.ops, prepared);
  }

  /**
   Drives an execution to its end, the host completing each segment before the next is asked for.
   The segments are as many as were counted up front, numbered in order with only the last final,
   and memory ends as running the plan in command order, then the post-completion writes, leaves it.
   */
  method RunToCompletion(execution: MaxwellBackendExecution, memory0: Memory, host: (seq<Operation>, Memory) -> Memory)
    returns (segments: seq<Segment>, memory: Memory)
    requires execution.Valid() && execution.nextStep == 0 && !execution.awaitingCompletion && !execution.finished
    modifies execution
    ensures execution.Valid() && execution.finished
    ensures |segments| == SegmentsFrom(execution.steps, 0, false) && NumberedInOrder(segments, |segments|)
    ensures memory == Apply(InOrder(execution.steps, 0, [], memory0, host), PostWrites(execution.steps))
  {
    segments, memory := [], memory0;
    var done := false;
    while !done
      invariant execution.Valid() && !execution.awaitingCompletion && (done <==> execution.finished)
      invariant !done ==> RunReached(execution.steps, execution.nextStep, segments, memory0, memory, host)
      invariant done ==> RunEnded(execution.steps, segments, memory0, memory, host)
      decreases !done, SegmentsFrom(execution.steps, 0, false) - |segments|
    {
      done, segments, memory := HostStep(execution, segments, memory0, memory, host);
    }
  }
}
