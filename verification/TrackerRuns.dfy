/**
 The device-write tracker over any sequence of recordings and subtractions. A completed writeback
 subtracts the bytes that still carry its serial; an upload drops a range whatever its serials.
 */
module TrackerRuns {
  import opened Primitives
  import opened DeviceWrites

  datatype TrackerStep =
    | Recorded(range: TransferRange, serial: nat)
    | Completed(range: TransferRange, serial: nat)
    | Dropped(range: TransferRange)

  /** What one step does to the serial of byte `b`. */
  ghost function ByteAfter(v: Option<nat>, step: TrackerStep, b: nat): Option<nat> {
    match step
    case Recorded(range, serial) => if range.Covers(b) then Some(serial) else v
    case Completed(range, serial) => if range.Covers(b) && v == Some(serial) then None else v
    case Dropped(range) => if range.Covers(b) then None else v
  }

  /** The serial of byte `b` after a history of steps that took effect. */
  ghost function ByteHistory(steps: seq<TrackerStep>, b: nat): Option<nat> {
    if steps == [] then None
    else ByteAfter(ByteHistory(steps[..|steps| - 1], b), steps[|steps| - 1], b)
  }

  ghost function Subtractions(steps: seq<TrackerStep>): nat {
    if steps == [] then 0
    else Subtractions(steps[..|steps| - 1]) + if steps[|steps| - 1].Recorded? then 0 else 1
  }

  /** The tracker denotes the history; only subtractions can push it past the recording budget. */
  ghost predicate Tracks(ws: seq<DeviceWrite>, steps: seq<TrackerStep>) {
    && Sound(ws)
    && (forall b :: LastSerial(ws, b) == ByteHistory(steps, b))
    && |ws| <= MAX_DEVICE_WRITE_REGIONS + Subtractions(steps)
  }

  lemma HistoryGrows(steps: seq<TrackerStep>, step: TrackerStep, b: nat)
    ensures ByteHistory(steps + [step], b) == ByteAfter(ByteHistory(steps, b), step, b)
    ensures Subtractions(steps + [step]) == Subtractions(steps) + if step.Recorded? then 0 else 1
  {
    assert (steps + [step])[..|steps|] == steps;
  }

  lemma TracksOneMore(ws: seq<DeviceWrite>, steps: seq<TrackerStep>, step: TrackerStep, ws': seq<DeviceWrite>)
    requires Tracks(ws, steps) && Sound(ws')
    requires forall b :: LastSerial(ws', b) == ByteAfter(LastSerial(ws, b), step, b)
    requires |ws'| <= if step.Recorded? then MAX_DEVICE_WRITE_REGIONS else |ws| + 1
    ensures Tracks(ws', steps + [step])
  {
    HistoryGrows(steps, step, 0);
    forall b
      ensures LastSerial(ws', b) == ByteHistory(steps + [step], b)
    {
      HistoryGrows(steps, step, b);
    }
  }

  /** A recording past the end of the address range or past the region budget. */
  ghost predicate Refused(ws: seq<DeviceWrite>, step: TrackerStep) {
    && step.Recorded?
    && (step.range.End() >= U64_SIZE || 1 + Total(Pieces, ws, step.range, None) > MAX_DEVICE_WRITE_REGIONS)
  }

  /** Takes one step; a recording that would exceed the budget is refused and changes nothing. */
  method TakeStep(ws: seq<DeviceWrite>, ghost history: seq<TrackerStep>, step: TrackerStep)
    returns (ws': seq<DeviceWrite>, accepted: bool)
    requires Tracks(ws, history) && step.range.size > 0
    ensures accepted <==> !Refused(ws, step)
    ensures accepted ==> Tracks(ws', history + [step])
    ensures !accepted ==> ws' == ws
  {
    match step {
      case Recorded(range, serial) =>
        var recorded := RecordBufferDeviceWrite(ws, range, serial);
        if recorded.Err? {
          return ws, false;
        }
        ws' := recorded.value;
      case Completed(range, serial) =>
        ws' := SubtractBufferWriteRange(ws, range, Some(serial));
      case Dropped(range) =>
        ws' := SubtractBufferWriteRange(ws, range, None);
    }
    TracksOneMore(ws, history, step, ws');
    accepted := true;
  }

  /** The steps that were accepted, in order. */
  ghost function Effective(steps: seq<TrackerStep>, accepted: seq<bool>): seq<TrackerStep>
    requires |steps| == |accepted|
  {
    if steps == [] then []
    else
      var n := |steps| - 1;
      Effective(steps[..n], accepted[..n]) + if accepted[n] then [steps[n]] else []
  }

  lemma EffectiveGrows(steps: seq<TrackerStep>, accepted: seq<bool>, step: TrackerStep, taken: bool)
    requires |steps| == |accepted|
    ensures Effective(steps + [step], accepted + [taken]) == Effective(steps, accepted) + if taken then [step] else []
  {
    assert (steps + [step])[..|steps|] == steps && (accepted + [taken])[..|steps|] == accepted;
  }

  /** Step `i` was answered by the state it met: refusals change nothing, the rest takes effect. */
  ghost predicate Answered(steps: seq<TrackerStep>, accepted: seq<bool>, states: seq<seq<DeviceWrite>>, i: nat)
    requires i < |steps| && i < |accepted| && i + 1 < |states|
  {
    && (accepted[i] <==> !Refused(states[i], steps[i]))
    && (!accepted[i] ==> states[i + 1] == states[i])
  }

  /**
   Over any sequence of recordings, completions and uploads the tracker's regions stay non-empty and
   disjoint and denote, byte by byte, the history of the accepted steps; a step is accepted
   exactly when the state it meets does not refuse it.
   */
  method RunTracker(steps: seq<TrackerStep>) returns (ws: seq<DeviceWrite>, accepted: seq<bool>, ghost states: seq<seq<DeviceWrite>>)
    requires forall i :: 0 <= i < |steps| ==> steps[i].range.size > 0
    ensures |accepted| == |steps| && |states| == |steps| + 1
    ensures states[0] == [] && states[|steps|] == ws
    ensures forall i :: 0 <= i < |steps| ==> Answered(steps, accepted, states, i)
    ensures Tracks(ws, Effective(steps, accepted))
  {
    ws, accepted, states := [], [], [[]];
    for i := 0 to |steps|
      invariant |accepted| == i && |states| == i + 1
      invariant states[0] == [] && states[i] == ws
      invariant forall k :: 0 <= k < i ==> Answered(steps, accepted, states, k)
      invariant Tracks(ws, Effective(steps[..i], accepted))
    {
      var next, taken := TakeStep(ws, Effective(steps[..i], accepted), steps[i]);
      EffectiveGrows(steps[..i], accepted, steps[i], taken);
      assert steps[..i + 1] == steps[..i] + [steps[i]];
      assert Effective(steps[..i], accepted) + [] == Effective(steps[..i], accepted);
      ghost var accepted0, states0 := accepted, states;
      ws, accepted, states := next, accepted + [taken], states + [next];
      forall k | 0 <= k <= i
        ensures Answered(steps, accepted, states, k)
      {
        if k < i {
          assert Answered(steps, accepted0, states0, k);
        }
      }
    }
    assert steps[..|steps|] == steps;
  }

  /** `n` three-byte regions, four bytes apart. */
  function Comb(n: nat): seq<DeviceWrite> {
    seq(n, i requires 0 <= i < n => DeviceWrite(Buffer(TransferRange(4 * i, 3)), 0))
  }

  lemma CombIsSound(n: nat)
    ensures Sound(Comb(n)) && |Comb(n)| == n
    ensures forall i :: 0 <= i < n ==> !Struck(Comb(n)[i], TransferRange(4 * n, 3), None)
  {
  }

  /**
   Subtracting from a tracker within the budget leaves it over the budget exactly when it was full
   and the range cuts one of its regions in two.
   */
  method SubtractWithinBudget(ws: seq<DeviceWrite>, range: TransferRange, serial: Option<nat>) returns (ws': seq<DeviceWrite>)
    requires Sound(ws) && |ws| <= MAX_DEVICE_WRITE_REGIONS
    ensures Sound(ws')
    ensures |ws'| > MAX_DEVICE_WRITE_REGIONS <==>
              |ws| == MAX_DEVICE_WRITE_REGIONS && exists i: nat :: Splits(ws, i, range, serial)
  {
    ws' := SubtractBufferWriteRange(ws, range, serial);
  }

  /** Reached from an empty tracker: 256 recordings fill it, and completing one byte leaves 257 regions. */
  method CompletionExceedsBudget() returns (full: seq<DeviceWrite>, after: seq<DeviceWrite>)
    ensures full == Comb(MAX_DEVICE_WRITE_REGIONS)
    ensures |full| == MAX_DEVICE_WRITE_REGIONS && |after| == MAX_DEVICE_WRITE_REGIONS + 1
  {
    full := [];
    for n := 0 to MAX_DEVICE_WRITE_REGIONS
      invariant full == Comb(n)
    {
      CombIsSound(n);
      NoStrikes(full, TransferRange(4 * n, 3), None);
      var recorded := RecordBufferDeviceWrite(full, TransferRange(4 * n, 3), 0);
      full := recorded.value;
    }
    CombIsSound(MAX_DEVICE_WRITE_REGIONS);
    assert Splits(full, 0, TransferRange(1, 1), Some(0));
    after := SubtractBufferWriteRange(full, TransferRange(1, 1), Some(0));
  }
}
