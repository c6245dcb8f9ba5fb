/** Execution plans of a Maxwell submission: their steps, canonical writes and host segments. */
module ExecutionModel {
  import opened Primitives
  import opened RenderPasses

  /** Canonical memory by byte address; absent bytes are zero. */
  type Memory = map<nat, u8>

  datatype ByteWrite = ByteWrite(address: nat, value: u8)

  datatype Step =
    | BackendOperation(op: Operation)
    | InlineWrite(writes: seq<ByteWrite>)
    | DmaCopy(sources: seq<nat>, destinations: seq<nat>, transform: (seq<u8>, seq<u8>) -> seq<u8>)
    | PostCompletionWrite(writes: seq<ByteWrite>)
    | ThreeD(creations: seq<nat>, invalidations: seq<nat>, ops: seq<Operation>)

  predicate IsCanonicalWrite(step: Step) {
    step.InlineWrite? || step.DmaCopy?
  }

  predicate EmitsOperation(step: Step) {
    step.BackendOperation? || step.ThreeD?
  }

  // ---- canonical memory ---------------------------------------------------------------------

  function ReadByte(memory: Memory, address: nat): u8 {
    if address in memory then memory[address] else 0
  }

  function ReadBytes(memory: Memory, addresses: seq<nat>): seq<u8> {
    seq<u8>(|addresses|, i requires 0 <= i < |addresses| => ReadByte(memory, addresses[i]))
  }

  function Apply(memory: Memory, writes: seq<ByteWrite>): Memory {
    if writes == [] then memory
    else
      var last := writes[|writes| - 1];
      Apply(memory, writes[..|writes| - 1])[last.address := last.value]
  }

  lemma {:induction false} ApplyConcat(memory: Memory, a: seq<ByteWrite>, b: seq<ByteWrite>)
    ensures Apply(memory, a + b) == Apply(Apply(memory, a), b)
  {
    if b == [] {
      assert a + b == a;
    } else {
      ApplyConcat(memory, a, b[..|b| - 1]);
      assert (a + b)[..|a + b| - 1] == a + b[..|b| - 1];
    }
  }

  /** The bytes a copy stages, reading source and destination through `memory`. */
  function DmaWrites(memory: Memory, step: Step): seq<ByteWrite>
    requires step.DmaCopy?
  {
    var bytes := step.transform(ReadBytes(memory, step.sources), ReadBytes(memory, step.destinations));
    seq(Min(|bytes|, |step.destinations|), i requires 0 <= i < Min(|bytes|, |step.destinations|) =>
      ByteWrite(step.destinations[i], bytes[i]))
  }

  /** Memory after one step performed at once, in its place in the command order. */
  function PerformStep(memory: Memory, step: Step): Memory {
    match step
    case InlineWrite(writes) => Apply(memory, writes)
    case DmaCopy(_, _, _) => Apply(memory, DmaWrites(memory, step))
    case _ => memory
  }

  /** The last write to an address decides its byte; an address no write names keeps its own. */
  lemma {:induction false} LastWriteWins(memory: Memory, writes: seq<ByteWrite>, k: nat, address: nat)
    ensures k < |writes| && writes[k].address == address && (forall j :: k < j < |writes| ==> writes[j].address != address) ==>
              address in Apply(memory, writes) && Apply(memory, writes)[address] == writes[k].value
    ensures (forall j :: 0 <= j < |writes| ==> writes[j].address != address) ==>
              (address in Apply(memory, writes) <==> address in memory)
              && (address in memory ==> Apply(memory, writes)[address] == memory[address])
  {
    if writes != [] {
      LastWriteWins(memory, writes[..|writes| - 1], k, address);
    }
  }

  ghost predicate HoldsAt(memory: Memory, addresses: seq<nat>, bytes: seq<u8>) {
    |bytes| == |addresses| && forall i :: 0 <= i < |addresses| ==> addresses[i] in memory && memory[addresses[i]] == bytes[i]
  }

  lemma ReadsWhatIsHeld(memory: Memory, addresses: seq<nat>, bytes: seq<u8>)
    requires HoldsAt(memory, addresses, bytes)
    ensures ReadBytes(memory, addresses) == bytes
  {
  }

  /** A copy transforms the source bytes, with the bytes already there, onto distinct destinations and changes no others. */
  lemma CopyMeaning(memory: Memory, step: Step, from: seq<u8>, onto: seq<u8>, k: nat, address: nat)
    requires step.DmaCopy? && HoldsAt(memory, step.sources, from) && HoldsAt(memory, step.destinations, onto)
    requires forall i, j :: 0 <= i < j < |step.destinations| ==> step.destinations[i] != step.destinations[j]
    ensures var after, result := PerformStep(memory, step), step.transform(from, onto);
            && (k < |result| && k < |step.destinations| ==>
                  step.destinations[k] in after && after[step.destinations[k]] == result[k])
            && (address !in step.destinations ==>
                  (address in after <==> address in memory) && (address in memory ==> after[address] == memory[address]))
  {
    ReadsWhatIsHeld(memory, step.sources, from);
    ReadsWhatIsHeld(memory, step.destinations, onto);
    var writes := DmaWrites(memory, step);
    if k < |writes| {
      LastWriteWins(memory, writes, k, step.destinations[k]);
    }
    LastWriteWins(memory, writes, 0, address);
  }

  function PerformSteps(memory: Memory, steps: seq<Step>): Memory {
    if steps == [] then memory
    else PerformStep(PerformSteps(memory, steps[..|steps| - 1]), steps[|steps| - 1])
  }

  /** The post-completion writes of a plan, in order. */
  function PostWrites(steps: seq<Step>): seq<ByteWrite> {
    if steps == [] then []
    else
      var last := steps[|steps| - 1];
      PostWrites(steps[..|steps| - 1]) + if last.PostCompletionWrite? then last.writes else []
  }

  // ---- host work ----------------------------------------------------------------------------

  function StepItems(step: Step): seq<Item> {
    match step
    case BackendOperation(op) => [Single(op)]
    case ThreeD(_, _, ops) => [Work(ops)]
    case _ => []
  }

  function Items(steps: seq<Step>): seq<Item> {
    if steps == [] then []
    else Items(steps[..|steps| - 1]) + StepItems(steps[|steps| - 1])
  }

  function Creations(steps: seq<Step>): seq<nat> {
    if steps == [] then []
    else Creations(steps[..|steps| - 1]) + if steps[|steps| - 1].ThreeD? then steps[|steps| - 1].creations else []
  }

  function Invalidations(steps: seq<Step>): seq<nat> {
    if steps == [] then []
    else Invalidations(steps[..|steps| - 1]) + if steps[|steps| - 1].ThreeD? then steps[|steps| - 1].invalidations else []
  }

  /** Lowered 3D work always holds operations. */
  ghost predicate SoundSteps(steps: seq<Step>) {
    forall i :: 0 <= i < |steps| && steps[i].ThreeD? ==> steps[i].ops != []
  }

  lemma {:induction false} ItemsHoldOperations(steps: seq<Step>)
    requires SoundSteps(steps)
    ensures forall i :: 0 <= i < |Items(steps)| ==> ItemOps(Items(steps)[i]) != []
  {
    if steps != [] {
      ItemsHoldOperations(steps[..|steps| - 1]);
    }
  }

  lemma StepsGrow(steps: seq<Step>, step: Step, memory: Memory)
    ensures Items(steps + [step]) == Items(steps) + StepItems(step)
    ensures Creations(steps + [step]) == Creations(steps) + if step.ThreeD? then step.creations else []
    ensures Invalidations(steps + [step]) == Invalidations(steps) + if step.ThreeD? then step.invalidations else []
    ensures PostWrites(steps + [step]) == PostWrites(steps) + if step.PostCompletionWrite? then step.writes else []
    ensures PerformSteps(memory, steps + [step]) == PerformStep(PerformSteps(memory, steps), step)
  {
    assert (steps + [step])[..|steps|] == steps;
  }

  // ---- segments -----------------------------------------------------------------------------

  /** Segments still to come from step `k` on; `pending` tells whether operations are gathered. */
  ghost function SegmentsFrom(steps: seq<Step>, k: nat, pending: bool): nat
    requires k <= |steps|
    decreases |steps| - k
  {
    if k == |steps| then (if pending then 1 else 0)
    else if IsCanonicalWrite(steps[k]) && pending then 1 + SegmentsFrom(steps, k + 1, false)
    else SegmentsFrom(steps, k + 1, pending || EmitsOperation(steps[k]))
  }

  /**
   The plan run in command order against a host: writes take effect where they stand, and gathered
   operations reach the host before the next canonical write, or at the end.
   */
  ghost function InOrder(steps: seq<Step>, k: nat, pending: seq<Item>, memory: Memory, host: (seq<Operation>, Memory) -> Memory): Memory
    requires k <= |steps|
    decreases |steps| - k
  {
    if k == |steps| then Flushed(pending, memory, host)
    else if IsCanonicalWrite(steps[k]) then
      InOrder(steps, k + 1, [], PerformStep(Flushed(pending, memory, host), steps[k]), host)
    else InOrder(steps, k + 1, pending + StepItems(steps[k]), memory, host)
  }

  ghost function Flushed(pending: seq<Item>, memory: Memory, host: (seq<Operation>, Memory) -> Memory): Memory {
    if pending == [] then memory else host(AppendAll(pending).ops, memory)
  }

  lemma InOrderStep(steps: seq<Step>, k: nat, pending: seq<Item>, memory: Memory, host: (seq<Operation>, Memory) -> Memory)
    requires k < |steps| && (IsCanonicalWrite(steps[k]) ==> pending == [])
    ensures InOrder(steps, k, pending, memory, host)
         == InOrder(steps, k + 1, pending + StepItems(steps[k]), PerformStep(memory, steps[k]), host)
  {
    if IsCanonicalWrite(steps[k]) {
      assert pending + StepItems(steps[k]) == [];
    }
  }
}
