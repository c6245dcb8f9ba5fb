/**
 What the control word holds after any run, told from the steps taken alone: the pending requests,
 the raised epoch, the counter, what a take carries, and which epochs are acknowledged.
 */
module ControlHistory {
  import opened Primitives
  import opened CpuControl

  /** The states a list of steps goes through, each step enabled where it is taken. */
  ghost predicate Goes(run: seq<System>, steps: seq<Step>) {
    && |run| == |steps| + 1
    && run[0] == System(INITIAL, map[], {})
    && forall i :: 0 <= i < |steps| ==> TakenAt(run, steps, i)
  }

  ghost predicate TakenAt(run: seq<System>, steps: seq<Step>, i: nat)
    requires i < |steps| && |run| == |steps| + 1
  {
    Enabled(run[i], steps[i]) && run[i + 1] == Perform(run[i], steps[i])
  }

  /** Every run goes through some list of steps. */
  lemma {:induction false} RunHasSteps(run: seq<System>) returns (steps: seq<Step>)
    requires IsRun(run)
    ensures Goes(run, steps)
  {
    if |run| == 1 {
      steps := [];
    } else {
      var n := |run| - 1;
      var before := RunHasSteps(run[..n]);
      assert Next(run[n - 1], run[n]);
      var step :| Enabled(run[n - 1], step) && run[n] == Perform(run[n - 1], step);
      steps := before + [step];
      forall i | 0 <= i < |steps|
        ensures TakenAt(run, steps, i)
      {
        assert i < n - 1 ==> TakenAt(run[..n], before, i);
      }
    }
  }

  lemma StepsMakeRun(run: seq<System>, steps: seq<Step>)
    requires Goes(run, steps)
    ensures IsRun(run)
  {
    forall i | 0 < i < |run|
      ensures Next(run[i - 1], run[i])
    {
      assert TakenAt(run, steps, i - 1);
    }
  }

  // ---- pending requests ---------------------------------------------------------------------

  predicate Sets(step: Step, r: Request) {
    match r
    case Preempt => step.SetPreemptBit?
    case CodeInvalidation => step.SetInvalidationBit?
  }

  /** Step `j` set the bit and nothing has swapped the requests out since. */
  ghost predicate SetSince(steps: seq<Step>, i: nat, r: Request, j: nat) {
    && j < i <= |steps| && Sets(steps[j], r)
    && forall k :: j < k < i ==> !steps[k].SwapRequests?
  }

  /** A request is pending exactly when its bit was set and not swapped out since. */
  lemma {:induction false} PendingExactly(run: seq<System>, steps: seq<Step>, i: nat, r: Request)
    requires Goes(run, steps) && i <= |steps|
    ensures r in run[i].control.requests <==> exists j: nat :: SetSince(steps, i, r, j)
  {
    if i > 0 {
      var last := i - 1;
      PendingExactly(run, steps, last, r);
      assert TakenAt(run, steps, last);
      if r in run[i].control.requests {
        if Sets(steps[last], r) {
          assert SetSince(steps, i, r, last);
        } else {
          var j: nat :| SetSince(steps, last, r, j);
          assert SetSince(steps, i, r, j);
        }
      }
      if j: nat :| SetSince(steps, i, r, j) {
        if j < last {
          assert SetSince(steps, last, r, j);
        }
      }
    }
  }

  /** The epochs requested are those of the threads that set the invalidation bit. */
  ghost predicate RequestedAt(run: seq<System>, steps: seq<Step>, i: nat, e: nat, j: nat)
    requires |run| == |steps| + 1
  {
    j < i <= |steps| && steps[j].SetInvalidationBit? && run[j].At(steps[j].t) == Raised(e)
  }

  lemma {:induction false} RequestedExactly(run: seq<System>, steps: seq<Step>, i: nat, e: nat)
    requires Goes(run, steps) && i <= |steps|
    ensures e in run[i].requested <==> exists j: nat :: RequestedAt(run, steps, i, e, j)
  {
    if i > 0 {
      var last := i - 1;
      RequestedExactly(run, steps, last, e);
      assert TakenAt(run, steps, last);
      if e in run[i].requested {
        if e in run[last].requested {
          var j: nat :| RequestedAt(run, steps, last, e, j);
          assert RequestedAt(run, steps, i, e, j);
        } else {
          assert RequestedAt(run, steps, i, e, last);
        }
      }
      if j: nat :| RequestedAt(run, steps, i, e, j) {
        if j < last {
          assert RequestedAt(run, steps, last, e, j);
        }
      }
    }
  }

  // ---- the raised epoch and the counter -----------------------------------------------------

  ghost predicate RaisedBefore(steps: seq<Step>, i: nat, e: nat) {
    exists j :: 0 <= j < i <= |steps| && steps[j].RaiseEpoch? && steps[j].epoch == e
  }

  /** The epoch is the greatest one raised, or zero. */
  lemma {:induction false} EpochExactly(run: seq<System>, steps: seq<Step>, i: nat)
    requires Goes(run, steps) && i <= |steps|
    ensures run[i].control.epoch == 0 || RaisedBefore(steps, i, run[i].control.epoch)
    ensures forall e: nat :: RaisedBefore(steps, i, e) ==> e <= run[i].control.epoch
  {
    if i > 0 {
      var last := i - 1;
      EpochExactly(run, steps, last);
      assert TakenAt(run, steps, last);
      forall e: nat
        ensures RaisedBefore(steps, i, e) <==> RaisedBefore(steps, last, e) || (steps[last].RaiseEpoch? && steps[last].epoch == e)
      {
        if RaisedBefore(steps, i, e) {
          var j :| 0 <= j < i && steps[j].RaiseEpoch? && steps[j].epoch == e;
          assert j < last ==> RaisedBefore(steps, last, e);
        }
      }
    }
  }

  /** What a step stores into the counter, if it does. */
  function StoredCounter(step: Step): Option<nat> {
    match step
    case ZeroCounter(_) => Some(0)
    case CountDown(counter) => Some(counter)
    case _ => None
  }

  ghost function LastCounter(steps: seq<Step>, i: nat): nat
    requires i <= |steps|
  {
    if i == 0 then 4000
    else if StoredCounter(steps[i - 1]).Some? then StoredCounter(steps[i - 1]).value
    else LastCounter(steps, i - 1)
  }

  /** The counter is what the last step to store one stored, or the whole interval. */
  lemma {:induction false} CounterExactly(run: seq<System>, steps: seq<Step>, i: nat)
    requires Goes(run, steps) && i <= |steps|
    ensures run[i].control.counter == LastCounter(steps, i)
  {
    if i > 0 {
      CounterExactly(run, steps, i - 1);
      assert TakenAt(run, steps, i - 1);
    }
  }

  // ---- what a take carries ------------------------------------------------------------------

  /** Thread `t` swapped out `requests` at step `a`. */
  ghost predicate SwappedAt(run: seq<System>, steps: seq<Step>, i: nat, t: nat, requests: set<Request>, a: nat)
    requires |run| == |steps| + 1
  {
    a < i <= |steps| && steps[a] == SwapRequests(t) && requests == run[a].control.requests
  }

  /** It then loaded `epoch` at step `b`. */
  ghost predicate LoadedAt(run: seq<System>, steps: seq<Step>, i: nat, t: nat, requests: set<Request>, epoch: nat, b: nat)
    requires |run| == |steps| + 1
  {
    && b < i <= |steps| && steps[b] == LoadEpoch(t) && epoch == run[b].control.epoch
    && exists a: nat :: SwappedAt(run, steps, b, t, requests, a)
  }

  ghost predicate TakeHasSource(run: seq<System>, steps: seq<Step>, i: nat, t: nat)
    requires |run| == |steps| + 1 && i < |run|
  {
    match run[i].At(t)
    case Swapped(requests) => exists a: nat :: SwappedAt(run, steps, i, t, requests, a)
    case Holding(requests, epoch) => exists b: nat :: LoadedAt(run, steps, i, t, requests, epoch, b)
    case _ => true
  }

  /** What a take in flight holds was pending when it swapped, and is the epoch when it loaded. */
  lemma {:induction false} TakeExactly(run: seq<System>, steps: seq<Step>, i: nat, t: nat)
    requires Goes(run, steps) && i <= |steps|
    ensures TakeHasSource(run, steps, i, t)
  {
    if i > 0 {
      var last := i - 1;
      TakeExactly(run, steps, last, t);
      assert TakenAt(run, steps, last);
      if run[i].At(t) == run[last].At(t) {
        TakeSourceStays(run, steps, last, t);
      } else if run[i].At(t).Swapped? {
        assert SwappedAt(run, steps, i, t, run[i].At(t).requests, last);
      } else if run[i].At(t).Holding? {
        assert LoadedAt(run, steps, i, t, run[i].At(t).requests, run[i].At(t).epoch, last);
      }
    }
  }

  lemma TakeSourceStays(run: seq<System>, steps: seq<Step>, last: nat, t: nat)
    requires |run| == |steps| + 1 && last < |steps| && TakeHasSource(run, steps, last, t) && run[last + 1].At(t) == run[last].At(t)
    ensures TakeHasSource(run, steps, last + 1, t)
  {
    match run[last].At(t) {
      case Swapped(requests) =>
        var a: nat :| SwappedAt(run, steps, last, t, requests, a);
        assert SwappedAt(run, steps, last + 1, t, requests, a);
      case Holding(requests, epoch) =>
        var b: nat :| LoadedAt(run, steps, last, t, requests, epoch, b);
        assert LoadedAt(run, steps, last + 1, t, requests, epoch, b);
      case _ =>
    }
  }

  // ---- acknowledged epochs ------------------------------------------------------------------

  /** Step `j` acknowledges `e`: outright, or with a take that found the invalidation bit. */
  ghost predicate Acknowledges(run: seq<System>, steps: seq<Step>, j: nat, e: nat)
    requires |run| == |steps| + 1 && j < |steps|
  {
    match steps[j]
    case AcknowledgeEpoch(epoch) => epoch == e
    case AcknowledgeSnapshot(t) =>
      run[j].At(t).Holding? && CodeInvalidation in run[j].At(t).requests && run[j].At(t).epoch == e
    case _ => false
  }

  ghost predicate AcknowledgedBefore(run: seq<System>, steps: seq<Step>, i: nat, e: nat)
    requires |run| == |steps| + 1 && i <= |steps|
  {
    exists j :: 0 <= j < i && Acknowledges(run, steps, j, e)
  }

  /** The acknowledged epoch is the greatest one that some step acknowledged, or zero. */
  lemma {:induction false} AcknowledgedExactly(run: seq<System>, steps: seq<Step>, i: nat)
    requires Goes(run, steps) && i <= |steps|
    ensures run[i].control.acknowledged == 0 || AcknowledgedBefore(run, steps, i, run[i].control.acknowledged)
    ensures forall e: nat :: AcknowledgedBefore(run, steps, i, e) ==> e <= run[i].control.acknowledged
  {
    if i > 0 {
      var last := i - 1;
      AcknowledgedExactly(run, steps, last);
      assert TakenAt(run, steps, last);
      forall e: nat
        ensures AcknowledgedBefore(run, steps, i, e) <==> AcknowledgedBefore(run, steps, last, e) || Acknowledges(run, steps, last, e)
      {
        if AcknowledgedBefore(run, steps, i, e) {
          var j :| 0 <= j < i && Acknowledges(run, steps, j, e);
          assert j < last ==> AcknowledgedBefore(run, steps, last, e);
        }
      }
      assert run[i].control.acknowledged != run[last].control.acknowledged ==> Acknowledges(run, steps, last, run[i].control.acknowledged);
    }
  }

  /** A take that carries the invalidation bit swapped it out after some thread had set it. */
  lemma CarriedWasRequested(run: seq<System>, steps: seq<Step>, j: nat, t: nat)
    requires Goes(run, steps) && j <= |steps| && run[j].At(t).Holding? && CodeInvalidation in run[j].At(t).requests
    ensures exists k :: 0 <= k < j && steps[k].SetInvalidationBit?
    ensures run[j].At(t).epoch == 0 || RaisedBefore(steps, j, run[j].At(t).epoch)
  {
    TakeExactly(run, steps, j, t);
    var requests, epoch := run[j].At(t).requests, run[j].At(t).epoch;
    var b: nat :| LoadedAt(run, steps, j, t, requests, epoch, b);
    var a: nat :| SwappedAt(run, steps, b, t, requests, a);
    PendingExactly(run, steps, a, CodeInvalidation);
    EpochExactly(run, steps, b);
  }

  lemma SetMeansRequested(run: seq<System>, steps: seq<Step>, i: nat, k: nat)
    requires Goes(run, steps) && k < i <= |steps| && steps[k].SetInvalidationBit?
    ensures run[i].requested != {}
  {
    assert TakenAt(run, steps, k);
    var e := run[k].At(steps[k].t).epoch;
    assert RequestedAt(run, steps, i, e, k);
    RequestedExactly(run, steps, i, e);
  }

  /**
   Unless epochs are acknowledged outright, nothing is acknowledged before an invalidation has been
   requested, and only epochs that were raised are.
   */
  lemma NothingAcknowledgedUnasked(run: seq<System>, steps: seq<Step>, i: nat)
    requires Goes(run, steps) && i <= |steps| && forall j :: 0 <= j < i ==> !steps[j].AcknowledgeEpoch?
    ensures run[i].requested == {} ==> run[i].control.acknowledged == 0
    ensures run[i].control.acknowledged == 0 || RaisedBefore(steps, i, run[i].control.acknowledged)
  {
    AcknowledgedExactly(run, steps, i);
    if run[i].control.acknowledged != 0 {
      var j :| 0 <= j < i && Acknowledges(run, steps, j, run[i].control.acknowledged);
      CarriedWasRequested(run, steps, j, steps[j].t);
      var k :| 0 <= k < j && steps[k].SetInvalidationBit?;
      SetMeansRequested(run, steps, i, k);
    }
  }

  // ---- the order of a thread's operations ---------------------------------------------------

  function ThreadOf(step: Step): Option<nat> {
    match step
    case AcknowledgeEpoch(_) => None
    case CountDown(_) => None
    case _ => Some(step.t)
  }

  /** The last step of thread `t` before moment `i`. */
  ghost function LastOf(steps: seq<Step>, i: nat, t: nat): Option<nat>
    requires i <= |steps|
  {
    if i == 0 then None
    else if ThreadOf(steps[i - 1]) == Some(t) then Some(i - 1)
    else LastOf(steps, i - 1, t)
  }

  /** A thread stands where its last step left it. */
  lemma {:induction false} ThreadFollowsLast(run: seq<System>, steps: seq<Step>, i: nat, t: nat)
    requires Goes(run, steps) && i <= |steps|
    ensures LastOf(steps, i, t).None? ==> run[i].At(t) == Idle
    ensures LastOf(steps, i, t).Some? ==>
              LastOf(steps, i, t).value < i && run[i].At(t) == run[LastOf(steps, i, t).value + 1].At(t)
  {
    if i > 0 {
      ThreadFollowsLast(run, steps, i - 1, t);
      assert TakenAt(run, steps, i - 1);
    }
  }

  /** `step` may come right after `before`, as the thread's next operation. */
  ghost predicate Succeeds(run: seq<System>, steps: seq<Step>, before: Option<nat>, step: Step)
    requires |run| == |steps| + 1 && (before.Some? ==> before.value < |steps|)
  {
    if before.None? then step.RaiseEpoch? || step.SetPreemptBit? || step.SwapRequests?
    else match steps[before.value]
      case RaiseEpoch(_, _) => step.SetInvalidationBit?
      case SetInvalidationBit(_) => step.ZeroCounter?
      case SetPreemptBit(_) => step.ZeroCounter?
      case SwapRequests(_) =>
        if run[before.value].control.requests != {} then step.LoadEpoch?
        else step.RaiseEpoch? || step.SetPreemptBit? || step.SwapRequests?
      case LoadEpoch(_) => step.AcknowledgeSnapshot?
      case _ => step.RaiseEpoch? || step.SetPreemptBit? || step.SwapRequests?
  }

  /** Every thread performs its requests and takes one operation after another, in program order. */
  lemma ProgramOrder(run: seq<System>, steps: seq<Step>, i: nat, t: nat)
    requires Goes(run, steps) && i < |steps| && ThreadOf(steps[i]) == Some(t)
    ensures LastOf(steps, i, t).Some? ==> LastOf(steps, i, t).value < i
    ensures Succeeds(run, steps, LastOf(steps, i, t), steps[i])
  {
    ThreadFollowsLast(run, steps, i, t);
    LastIsOfThread(steps, i, t);
    assert TakenAt(run, steps, i);
    if LastOf(steps, i, t).Some? {
      assert TakenAt(run, steps, LastOf(steps, i, t).value);
    }
  }

  lemma {:induction false} LastIsOfThread(steps: seq<Step>, i: nat, t: nat)
    requires i <= |steps|
    ensures LastOf(steps, i, t).Some? ==> LastOf(steps, i, t).value < i && ThreadOf(steps[LastOf(steps, i, t).value]) == Some(t)
  {
    if i > 0 {
      LastIsOfThread(steps, i - 1, t);
    }
  }

  // ---- whole operations with nothing in between ---------------------------------------------

  /** Nothing blocks an acknowledgement or the count: any run goes on with any epoch and any count up to the interval. */
  lemma NeverBlocked(run: seq<System>, epoch: nat, counter: nat)
    requires IsRun(run) && counter <= 4000
    ensures var s := run[|run| - 1];
            && IsRun(run + [s.(control := s.control.(acknowledged := Max(s.control.acknowledged, epoch)))])
            && IsRun(run + [s.(control := s.control.(counter := counter))])
  {
    var s := run[|run| - 1];
    assert Next(s, Perform(s, AcknowledgeEpoch(epoch)));
    assert Next(s, Perform(s, CountDown(counter)));
  }

  /** A request for an invalidation can be made at any time and leaves it pending with the counter at zero. */
  lemma InvalidationRequested(s: System, t: nat, epoch: nat) returns (s1: System, s2: System, s3: System)
    requires s.At(t) == Idle
    ensures Enabled(s, RaiseEpoch(t, epoch)) && s1 == Perform(s, RaiseEpoch(t, epoch))
    ensures Enabled(s1, SetInvalidationBit(t)) && s2 == Perform(s1, SetInvalidationBit(t))
    ensures Enabled(s2, ZeroCounter(t)) && s3 == Perform(s2, ZeroCounter(t))
    ensures s3.At(t) == Idle && s3.requested == s.requested + {epoch}
    ensures s3.control == Control(s.control.requests + {CodeInvalidation}, 0, Max(s.control.epoch, epoch), s.control.acknowledged)
  {
    s1 := Perform(s, RaiseEpoch(t, epoch));
    s2 := Perform(s1, SetInvalidationBit(t));
    s3 := Perform(s2, ZeroCounter(t));
  }

  lemma PreemptRequested(s: System, t: nat) returns (s1: System, s2: System)
    requires s.At(t) == Idle
    ensures Enabled(s, SetPreemptBit(t)) && s1 == Perform(s, SetPreemptBit(t))
    ensures Enabled(s1, ZeroCounter(t)) && s2 == Perform(s1, ZeroCounter(t))
    ensures s2.At(t) == Idle && s2.requested == s.requested
    ensures s2.control == Control(s.control.requests + {Preempt}, 0, s.control.epoch, s.control.acknowledged)
  {
    s1 := Perform(s, SetPreemptBit(t));
    s2 := Perform(s1, ZeroCounter(t));
  }

  /** A take clears what is pending and acknowledges the epoch if an invalidation was. */
  lemma PendingTaken(s: System, t: nat) returns (s1: System, s2: System, s3: System)
    requires s.At(t) == Idle && s.control.requests != {}
    ensures Enabled(s, SwapRequests(t)) && s1 == Perform(s, SwapRequests(t))
    ensures Enabled(s1, LoadEpoch(t)) && s2 == Perform(s1, LoadEpoch(t))
    ensures Enabled(s2, AcknowledgeSnapshot(t)) && s3 == Perform(s2, AcknowledgeSnapshot(t))
    ensures s3.At(t) == Idle && s3.requested == s.requested
    ensures s3.control.requests == {} && s3.control.epoch == s.control.epoch && s3.control.counter == s.control.counter
    ensures s3.control.acknowledged
         == if CodeInvalidation in s.control.requests then Max(s.control.acknowledged, s.control.epoch) else s.control.acknowledged
  {
    s1 := Perform(s, SwapRequests(t));
    s2 := Perform(s1, LoadEpoch(t));
    s3 := Perform(s2, AcknowledgeSnapshot(t));
  }
}
