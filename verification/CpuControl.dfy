/**
 The control word between a CPU execution and the threads that interrupt it, as a state machine in
 which every atomic operation of the protocol is one step. Any number of threads may be part-way
 through a request or a take at the same time.
 */
module CpuControl {
  import opened Primitives

  datatype Request = Preempt | CodeInvalidation

  const SYNCHRONIZATION_INTERVAL: nat := 4000

  /** The shared atomics. */
  datatype Control = Control(requests: set<Request>, counter: nat, epoch: nat, acknowledged: nat)

  const INITIAL := Control({}, SYNCHRONIZATION_INTERVAL, 0, 0)

  /** Where one thread stands between two atomic operations. */
  datatype Thread =
    | Idle
    | Raised(epoch: nat)                                  // epoch raised, bit not yet set
    | Flagged                                             // bit set, counter not yet zeroed
    | Swapped(requests: set<Request>)                     // requests taken, epoch not yet loaded
    | Holding(requests: set<Request>, epoch: nat)         // snapshot complete, not yet acknowledged

  /** `requested` records the epochs whose request has set its bit. */
  datatype System = System(control: Control, threads: map<nat, Thread>, requested: set<nat>) {
    function At(t: nat): Thread {
      if t in threads then threads[t] else Idle
    }

    function Move(t: nat, thread: Thread): System {
      this.(threads := threads[t := thread])
    }
  }

  datatype Step =
    | RaiseEpoch(t: nat, epoch: nat)
    | SetInvalidationBit(t: nat)
    | SetPreemptBit(t: nat)
    | ZeroCounter(t: nat)
    | SwapRequests(t: nat)
    | LoadEpoch(t: nat)
    | AcknowledgeSnapshot(t: nat)
    | AcknowledgeEpoch(epoch: nat)
    | CountDown(counter: nat)

  predicate Enabled(s: System, step: Step) {
    match step
    case RaiseEpoch(t, _) => s.At(t).Idle?
    case SetInvalidationBit(t) => s.At(t).Raised?
    case SetPreemptBit(t) => s.At(t).Idle?
    case ZeroCounter(t) => s.At(t).Flagged?
    case SwapRequests(t) => s.At(t).Idle?
    case LoadEpoch(t) => s.At(t).Swapped?
    case AcknowledgeSnapshot(t) => s.At(t).Holding?
    case AcknowledgeEpoch(_) => true
    case CountDown(counter) => counter <= SYNCHRONIZATION_INTERVAL
  }

  /** The state after one atomic operation. */
  function Perform(s: System, step: Step): System
    requires Enabled(s, step)
  {
    var c := s.control;
    match step
    case RaiseEpoch(t, epoch) =>
      s.Move(t, Raised(epoch)).(control := c.(epoch := Max(c.epoch, epoch)))
    case SetInvalidationBit(t) =>
      s.Move(t, Flagged).(control := c.(requests := c.requests + {CodeInvalidation}), requested := s.requested + {s.At(t).epoch})
    case SetPreemptBit(t) =>
      s.Move(t, Flagged).(control := c.(requests := c.requests + {Preempt}))
    case ZeroCounter(t) =>
      s.Move(t, Idle).(control := c.(counter := 0))
    case SwapRequests(t) =>
      s.Move(t, if c.requests == {} then Idle else Swapped(c.requests)).(control := c.(requests := {}))
    case LoadEpoch(t) =>
      s.Move(t, Holding(s.At(t).requests, c.epoch))
    case AcknowledgeSnapshot(t) =>
      var taken := s.At(t);
      var acknowledged := if CodeInvalidation in taken.requests then Max(c.acknowledged, taken.epoch) else c.acknowledged;
      s.Move(t, Idle).(control := c.(acknowledged := acknowledged))
    case AcknowledgeEpoch(epoch) =>
      s.(control := c.(acknowledged := Max(c.acknowledged, epoch)))
    case CountDown(counter) =>
      s.(control := c.(counter := counter))
  }

  ghost predicate Next(s: System, s': System) {
    exists step :: Enabled(s, step) && s' == Perform(s, step)
  }

  /** A run: any interleaving of the atomic operations of any threads, from the initial control word. */
  ghost predicate IsRun(run: seq<System>) {
    && |run| > 0
    && run[0] == System(INITIAL, map[], {})
    && forall i :: 0 < i < |run| ==> Next(run[i - 1], run[i])
  }

  // ---- no invalidation is lost --------------------------------------------------------------

  /** Thread `t` has taken an invalidation request and carries, or is about to load, an epoch of at least `e`. */
  ghost predicate Carries(s: System, t: nat, e: nat) {
    match s.At(t)
    case Swapped(requests) => CodeInvalidation in requests && s.control.epoch >= e
    case Holding(requests, epoch) => CodeInvalidation in requests && epoch >= e
    case _ => false
  }

  /** The invalidation of epoch `e` is pending, in flight or acknowledged. */
  ghost predicate Covered(s: System, e: nat) {
    || CodeInvalidation in s.control.requests
    || (exists t :: Carries(s, t, e))
    || s.control.acknowledged >= e
  }

  /** No thread is ahead of the raised epoch, and a take in flight has taken something. */
  ghost predicate SoundThread(s: System, t: nat) {
    match s.At(t)
    case Raised(epoch) => epoch <= s.control.epoch
    case Holding(_, epoch) => epoch <= s.control.epoch
    case Swapped(requests) => requests != {}
    case _ => true
  }

  ghost predicate Inv(s: System) {
    && (forall e :: e in s.requested ==> Covered(s, e) && s.control.epoch >= e)
    && (forall t :: SoundThread(s, t))
  }

  /** A carrier stays a carrier unless the step is its own acknowledgement, which covers the epoch. */
  lemma CarrierKept(s: System, step: Step, t: nat, e: nat)
    requires Enabled(s, step) && Carries(s, t, e)
    ensures Covered(Perform(s, step), e)
  {
    var s' := Perform(s, step);
    if step != AcknowledgeSnapshot(t) {
      assert Carries(s', t, e);
    }
  }

  lemma PendingKept(s: System, step: Step, e: nat)
    requires Enabled(s, step) && CodeInvalidation in s.control.requests && s.control.epoch >= e
    ensures Covered(Perform(s, step), e)
  {
    if step.SwapRequests? {
      assert Carries(Perform(s, step), step.t, e);
    }
  }

  lemma CoveredKept(s: System, step: Step, e: nat)
    requires Enabled(s, step) && Covered(s, e) && s.control.epoch >= e
    ensures Covered(Perform(s, step), e)
  {
    if CodeInvalidation in s.control.requests {
      PendingKept(s, step, e);
    } else if t :| Carries(s, t, e) {
      CarrierKept(s, step, t, e);
    }
  }

  lemma ControlOnlyRises(s: System, step: Step)
    requires Enabled(s, step)
    ensures Perform(s, step).control.acknowledged >= s.control.acknowledged
    ensures Perform(s, step).control.epoch >= s.control.epoch
    ensures Perform(s, step).requested >= s.requested
  {
  }

  lemma InvKept(s: System, step: Step)
    requires Inv(s) && Enabled(s, step)
    ensures Inv(Perform(s, step))
  {
    var s' := Perform(s, step);
    ControlOnlyRises(s, step);
    forall e | e in s'.requested
      ensures Covered(s', e) && s'.control.epoch >= e
    {
      if e in s.requested {
        CoveredKept(s, step, e);
      } else {
        assert SoundThread(s, step.t);
      }
    }
    forall t
      ensures SoundThread(s', t)
    {
      assert SoundThread(s, t);
    }
  }

  /** In every state of every run, every requested invalidation is pending, in flight or acknowledged. */
  lemma {:induction false} NoInvalidationLost(run: seq<System>, i: nat)
    requires IsRun(run) && i < |run|
    ensures Inv(run[i])
  {
    if i > 0 {
      NoInvalidationLost(run, i - 1);
      assert Next(run[i - 1], run[i]);
      var step :| Enabled(run[i - 1], step) && run[i] == Perform(run[i - 1], step);
      InvKept(run[i - 1], step);
    }
  }

  /** Along a run, acknowledged and raised epochs never decrease and requests stay recorded. */
  lemma {:induction false} EpochsOnlyRise(run: seq<System>, i: nat, j: nat)
    requires IsRun(run) && i <= j < |run|
    ensures run[i].control.acknowledged <= run[j].control.acknowledged
    ensures run[i].control.epoch <= run[j].control.epoch
    ensures run[i].requested <= run[j].requested
    decreases j
  {
    if i < j {
      EpochsOnlyRise(run, i, j - 1);
      assert Next(run[j - 1], run[j]);
      var step :| Enabled(run[j - 1], step) && run[j] == Perform(run[j - 1], step);
      ControlOnlyRises(run[j - 1], step);
    }
  }

  /**
   Once a request's bit was set at moment `i`, any later moment with no bit pending and no take in
   flight has its epoch acknowledged.
   */
  lemma QuietMeansAcknowledged(run: seq<System>, i: nat, j: nat, e: nat)
    requires IsRun(run) && i <= j < |run| && e in run[i].requested
    requires CodeInvalidation !in run[j].control.requests
    requires forall t :: !run[j].At(t).Swapped? && !run[j].At(t).Holding?
    ensures run[j].control.acknowledged >= e
  {
    EpochsOnlyRise(run, i, j);
    NoInvalidationLost(run, j);
    assert Covered(run[j], e);
    forall t
      ensures !Carries(run[j], t, e)
    {
    }
  }

  /**
   A take that swaps at moment `i`, loads at moment `j` and acknowledges at moment `k` acknowledges
   every invalidation requested before the swap and still pending then, whatever runs in between.
   */
  lemma TakeAcknowledges(run: seq<System>, t: nat, i: nat, j: nat, k: nat, e: nat)
    requires IsRun(run) && i + 1 <= j < k && k + 1 < |run|
    requires e in run[i].requested && CodeInvalidation in run[i].control.requests
    requires Enabled(run[i], SwapRequests(t)) && run[i + 1] == Perform(run[i], SwapRequests(t))
    requires forall m :: i + 1 <= m <= j ==> run[m].At(t) == run[i + 1].At(t)
    requires Enabled(run[j], LoadEpoch(t)) && run[j + 1] == Perform(run[j], LoadEpoch(t))
    requires forall m :: j + 1 <= m <= k ==> run[m].At(t) == run[j + 1].At(t)
    requires Enabled(run[k], AcknowledgeSnapshot(t)) && run[k + 1] == Perform(run[k], AcknowledgeSnapshot(t))
    ensures run[k + 1].control.acknowledged >= e
  {
    NoInvalidationLost(run, i);
    EpochsOnlyRise(run, i, j);
    assert run[j].At(t) == Swapped(run[i].control.requests);
    assert run[k].At(t) == Holding(run[i].control.requests, run[j].control.epoch);
  }
}
