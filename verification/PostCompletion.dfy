/**
 Post-completion writes are held back to the end of the execution. When that is the same as
 performing them in their place among the steps.
 */
module PostCompletion {
  import opened Primitives
  import opened RenderPasses
  import opened ExecutionModel
  import opened StepByStep
  import opened BackendExecution

  type Host = (seq<Operation>, Memory) -> Memory

  /** One step on its own, a post-completion write taking effect at once. */
  ghost function AtOnce(memory: Memory, step: Step, host: Host): Memory {
    if step.PostCompletionWrite? then Apply(memory, step.writes) else Alone(memory, step, host)
  }

  ghost function AllAtOnce(steps: seq<Step>, k: nat, memory: Memory, host: Host): Memory
    requires k <= |steps|
    decreases |steps| - k
  {
    if k == |steps| then memory else AllAtOnce(steps, k + 1, AtOnce(memory, steps[k], host), host)
  }

  // ---- writes that do not meet --------------------------------------------------------------

  ghost predicate Writes(writes: seq<ByteWrite>, address: nat) {
    exists i :: 0 <= i < |writes| && writes[i].address == address
  }

  /** What the last write to an address stores. */
  ghost function LastValue(writes: seq<ByteWrite>, address: nat): Option<u8> {
    if writes == [] then None
    else if writes[|writes| - 1].address == address then Some(writes[|writes| - 1].value)
    else LastValue(writes[..|writes| - 1], address)
  }

  lemma {:induction false} LastValueExists(writes: seq<ByteWrite>, address: nat)
    ensures LastValue(writes, address).Some? <==> Writes(writes, address)
  {
    if writes != [] {
      var before := writes[..|writes| - 1];
      LastValueExists(before, address);
      if i :| 0 <= i < |before| && before[i].address == address {
        assert writes[i].address == address;
      }
    }
  }

  /** Memory after writes, byte by byte. */
  lemma {:induction false} AppliedByte(memory: Memory, writes: seq<ByteWrite>, address: nat)
    ensures address in Apply(memory, writes) <==> address in memory || LastValue(writes, address).Some?
    ensures address in Apply(memory, writes) ==>
              Apply(memory, writes)[address]
              == if LastValue(writes, address).Some? then LastValue(writes, address).value else memory[address]
  {
    if writes != [] {
      AppliedByte(memory, writes[..|writes| - 1], address);
    }
  }

  ghost predicate Apart(a: seq<ByteWrite>, b: seq<ByteWrite>) {
    forall address :: !(Writes(a, address) && Writes(b, address))
  }

  lemma ApartWritesCommute(memory: Memory, a: seq<ByteWrite>, b: seq<ByteWrite>)
    requires Apart(a, b)
    ensures Apply(Apply(memory, a), b) == Apply(Apply(memory, b), a)
  {
    var left, right := Apply(Apply(memory, a), b), Apply(Apply(memory, b), a);
    forall address
      ensures address in left <==> address in right
      ensures address in left ==> left[address] == right[address]
    {
      AppliedByte(memory, a, address);
      AppliedByte(memory, b, address);
      AppliedByte(Apply(memory, a), b, address);
      AppliedByte(Apply(memory, b), a, address);
      LastValueExists(a, address);
      LastValueExists(b, address);
    }
  }

  // ---- steps that leave writes alone --------------------------------------------------------

  ghost predicate Misses(addresses: seq<nat>, writes: seq<ByteWrite>) {
    forall i :: 0 <= i < |addresses| ==> !Writes(writes, addresses[i])
  }

  /** The host's work neither sees nor changes the written bytes. */
  ghost predicate HostMisses(host: Host, ops: seq<Operation>, writes: seq<ByteWrite>) {
    forall memory: Memory :: host(ops, Apply(memory, writes)) == Apply(host(ops, memory), writes)
  }

  /** A later step does not meet the bytes of a post-completion write. */
  ghost predicate Undisturbed(step: Step, writes: seq<ByteWrite>, host: Host) {
    match step
    case InlineWrite(others) => Apart(others, writes)
    case DmaCopy(sources, destinations, _) => Misses(sources, writes) && Misses(destinations, writes)
    case PostCompletionWrite(_) => true
    case _ => HostMisses(host, ItemOps(StepItems(step)[0]), writes)
  }

  lemma ReadsMiss(memory: Memory, addresses: seq<nat>, writes: seq<ByteWrite>)
    requires Misses(addresses, writes)
    ensures ReadBytes(Apply(memory, writes), addresses) == ReadBytes(memory, addresses)
  {
    forall i | 0 <= i < |addresses|
      ensures ReadByte(Apply(memory, writes), addresses[i]) == ReadByte(memory, addresses[i])
    {
      AppliedByte(memory, writes, addresses[i]);
      LastValueExists(writes, addresses[i]);
    }
  }

  lemma CopyMisses(memory: Memory, step: Step, writes: seq<ByteWrite>)
    requires step.DmaCopy? && Misses(step.sources, writes) && Misses(step.destinations, writes)
    ensures DmaWrites(Apply(memory, writes), step) == DmaWrites(memory, step)
    ensures Apart(DmaWrites(memory, step), writes)
  {
    ReadsMiss(memory, step.sources, writes);
    ReadsMiss(memory, step.destinations, writes);
    var staged := DmaWrites(memory, step);
    forall address | Writes(staged, address)
      ensures !Writes(writes, address)
    {
      var i :| 0 <= i < |staged| && staged[i].address == address;
      assert step.destinations[i] == address;
    }
  }

  lemma UndisturbedCommutes(memory: Memory, step: Step, writes: seq<ByteWrite>, host: Host)
    requires Undisturbed(step, writes, host)
    ensures Alone(Apply(memory, writes), step, host) == Apply(Alone(memory, step, host), writes)
  {
    match step {
      case InlineWrite(others) => ApartWritesCommute(memory, writes, others);
      case DmaCopy(_, _, _) =>
        CopyMisses(memory, step, writes);
        ApartWritesCommute(memory, writes, DmaWrites(memory, step));
      case _ =>
    }
  }

  ghost predicate UndisturbedFrom(steps: seq<Step>, k: nat, writes: seq<ByteWrite>, host: Host) {
    forall j :: k <= j < |steps| ==> Undisturbed(steps[j], writes, host)
  }

  lemma {:induction false} WritesCanWait(steps: seq<Step>, k: nat, memory: Memory, writes: seq<ByteWrite>, host: Host)
    requires k <= |steps| && UndisturbedFrom(steps, k, writes, host)
    ensures Singly(steps, k, Apply(memory, writes), host) == Apply(Singly(steps, k, memory, host), writes)
    decreases |steps| - k
  {
    if k < |steps| {
      UndisturbedCommutes(memory, steps[k], writes, host);
      WritesCanWait(steps, k + 1, Alone(memory, steps[k], host), writes, host);
    }
  }

  // ---- whole plans --------------------------------------------------------------------------

  /** The post-completion writes from step `k` on. */
  ghost function PostWritesFrom(steps: seq<Step>, k: nat): seq<ByteWrite>
    requires k <= |steps|
    decreases |steps| - k
  {
    if k == |steps| then []
    else (if steps[k].PostCompletionWrite? then steps[k].writes else []) + PostWritesFrom(steps, k + 1)
  }

  lemma {:induction false} PostWritesSplit(steps: seq<Step>, k: nat)
    requires k <= |steps|
    ensures PostWrites(steps) == PostWrites(steps[..k]) + PostWritesFrom(steps, k)
    decreases |steps| - k
  {
    if k == |steps| {
      assert steps[..k] == steps;
    } else {
      PostWritesSplit(steps, k + 1);
      PostWritesOneMore(steps, k);
      var here := if steps[k].PostCompletionWrite? then steps[k].writes else [];
      Regrouped(PostWrites(steps[..k]), here, PostWritesFrom(steps, k + 1));
    }
  }

  lemma PostWritesOneMore(steps: seq<Step>, k: nat)
    requires k < |steps|
    ensures PostWrites(steps[..k + 1]) == PostWrites(steps[..k]) + if steps[k].PostCompletionWrite? then steps[k].writes else []
  {
    assert steps[..k + 1][..k] == steps[..k];
  }

  lemma Regrouped(a: seq<ByteWrite>, b: seq<ByteWrite>, c: seq<ByteWrite>)
    ensures a + b + c == a + (b + c)
  {
  }

  /** No later step meets the bytes of a post-completion write. */
  ghost predicate AllUndisturbed(steps: seq<Step>, k: nat, host: Host) {
    forall i :: k <= i < |steps| && steps[i].PostCompletionWrite? ==> UndisturbedFrom(steps, i + 1, steps[i].writes, host)
  }

  lemma {:induction false} HeldBackFrom(steps: seq<Step>, k: nat, memory: Memory, host: Host)
    requires k <= |steps| && AllUndisturbed(steps, k, host)
    ensures Apply(Singly(steps, k, memory, host), PostWritesFrom(steps, k)) == AllAtOnce(steps, k, memory, host)
    decreases |steps| - k
  {
    if k < |steps| {
      HeldBackFrom(steps, k + 1, AtOnce(memory, steps[k], host), host);
      if steps[k].PostCompletionWrite? {
        var writes := steps[k].writes;
        WritesCanWait(steps, k + 1, memory, writes, host);
        ApplyConcat(Singly(steps, k + 1, memory, host), writes, PostWritesFrom(steps, k + 1));
      } else {
        assert [] + PostWritesFrom(steps, k + 1) == PostWritesFrom(steps, k + 1);
      }
    }
  }

  /** Holding post-completion writes back changes nothing when no later step meets their bytes. */
  lemma HeldBackAsInPlace(steps: seq<Step>, memory: Memory, host: Host)
    requires AllUndisturbed(steps, 0, host)
    ensures Apply(Singly(steps, 0, memory, host), PostWrites(steps)) == AllAtOnce(steps, 0, memory, host)
  {
    PostWritesSplit(steps, 0);
    assert steps[..0] == [];
    assert PostWrites([]) + PostWritesFrom(steps, 0) == PostWritesFrom(steps, 0);
    HeldBackFrom(steps, 0, memory, host);
  }

  /**
   A whole batched run, with its post-completion writes at the end, leaves what giving the host every
   step on its own and performing every write in its place leaves.
   */
  lemma RunPerformsInPlace(sem: Semantics, bridge: Bridge, steps: seq<Step>, memory: Memory)
    requires Faithful(bridge) && SafeFrom(steps, 0, []) && AllUndisturbed(steps, 0, HostOf(sem, bridge))
    ensures Apply(InOrder(steps, 0, [], memory, HostOf(sem, bridge)), PostWrites(steps))
         == AllAtOnce(steps, 0, memory, HostOf(sem, bridge))
  {
    RunsAsSingly(sem, bridge, steps, memory);
    HeldBackAsInPlace(steps, memory, HostOf(sem, bridge));
  }

  // ---- plans of writes: the exact condition -------------------------------------------------

  ghost predicate OnlyWrites(steps: seq<Step>) {
    forall i :: 0 <= i < |steps| ==> steps[i].InlineWrite? || steps[i].PostCompletionWrite?
  }

  /** The inline writes, and all writes, from step `k` on. */
  ghost function InlineFrom(steps: seq<Step>, k: nat): seq<ByteWrite>
    requires k <= |steps|
    decreases |steps| - k
  {
    if k == |steps| then []
    else (if steps[k].InlineWrite? then steps[k].writes else []) + InlineFrom(steps, k + 1)
  }

  ghost function WritesFrom(steps: seq<Step>, k: nat): seq<ByteWrite>
    requires k <= |steps|
    decreases |steps| - k
  {
    if k == |steps| then []
    else (if steps[k].InlineWrite? || steps[k].PostCompletionWrite? then steps[k].writes else []) + WritesFrom(steps, k + 1)
  }

  lemma {:induction false} InlineRun(steps: seq<Step>, k: nat, memory: Memory, host: Host)
    requires k <= |steps| && OnlyWrites(steps)
    ensures Singly(steps, k, memory, host) == Apply(memory, InlineFrom(steps, k))
    decreases |steps| - k
  {
    if k < |steps| {
      InlineRun(steps, k + 1, Alone(memory, steps[k], host), host);
      if steps[k].InlineWrite? {
        ApplyConcat(memory, steps[k].writes, InlineFrom(steps, k + 1));
      } else {
        assert [] + InlineFrom(steps, k + 1) == InlineFrom(steps, k + 1);
      }
    }
  }

  lemma {:induction false} AtOnceRun(steps: seq<Step>, k: nat, memory: Memory, host: Host)
    requires k <= |steps| && OnlyWrites(steps)
    ensures AllAtOnce(steps, k, memory, host) == Apply(memory, WritesFrom(steps, k))
    decreases |steps| - k
  {
    if k < |steps| {
      AtOnceRun(steps, k + 1, AtOnce(memory, steps[k], host), host);
      ApplyConcat(memory, steps[k].writes, WritesFrom(steps, k + 1));
    }
  }

  lemma {:induction false} LastValueConcat(a: seq<ByteWrite>, b: seq<ByteWrite>, address: nat)
    ensures LastValue(a + b, address) == if LastValue(b, address).Some? then LastValue(b, address) else LastValue(a, address)
    decreases |b|
  {
    if b == [] {
      assert a + b == a;
    } else {
      LastValueConcat(a, b[..|b| - 1], address);
      assert (a + b)[..|a + b| - 1] == a + b[..|b| - 1];
    }
  }

  /** The last write to every byte that a post-completion write reaches stores what the last of those stores. */
  ghost predicate LastWritesAgree(steps: seq<Step>) {
    forall address :: LastValue(PostWrites(steps), address).Some? ==>
      LastValue(PostWrites(steps), address) == LastValue(WritesFrom(steps, 0), address)
  }

  ghost predicate SameOnAll(steps: seq<Step>, host: Host) {
    forall memory: Memory :: Apply(Singly(steps, 0, memory, host), PostWrites(steps)) == AllAtOnce(steps, 0, memory, host)
  }

  /** A byte no post-completion write reaches is last written by the same inline write either way. */
  lemma {:induction false} InlineDecides(steps: seq<Step>, k: nat, address: nat)
    requires k <= |steps| && OnlyWrites(steps) && LastValue(PostWritesFrom(steps, k), address).None?
    ensures LastValue(InlineFrom(steps, k), address) == LastValue(WritesFrom(steps, k), address)
    decreases |steps| - k
  {
    if k < |steps| {
      var writes := steps[k].writes;
      LastValueConcat(if steps[k].PostCompletionWrite? then writes else [], PostWritesFrom(steps, k + 1), address);
      InlineDecides(steps, k + 1, address);
      LastValueConcat(if steps[k].InlineWrite? then writes else [], InlineFrom(steps, k + 1), address);
      LastValueConcat(writes, WritesFrom(steps, k + 1), address);
    }
  }

  lemma HeldBackByte(steps: seq<Step>, address: nat)
    requires OnlyWrites(steps)
    ensures LastValue(InlineFrom(steps, 0) + PostWrites(steps), address)
         == if LastValue(PostWrites(steps), address).Some? then LastValue(PostWrites(steps), address)
            else LastValue(WritesFrom(steps, 0), address)
  {
    LastValueConcat(InlineFrom(steps, 0), PostWrites(steps), address);
    PostWritesSplit(steps, 0);
    assert steps[..0] == [];
    assert PostWrites([]) + PostWritesFrom(steps, 0) == PostWritesFrom(steps, 0);
    if LastValue(PostWrites(steps), address).None? {
      InlineDecides(steps, 0, address);
    }
  }

  lemma AgreeingWrites(memory: Memory, a: seq<ByteWrite>, b: seq<ByteWrite>)
    requires forall address :: LastValue(a, address) == LastValue(b, address)
    ensures Apply(memory, a) == Apply(memory, b)
  {
    forall address
      ensures address in Apply(memory, a) <==> address in Apply(memory, b)
      ensures address in Apply(memory, a) ==> Apply(memory, a)[address] == Apply(memory, b)[address]
    {
      AppliedByte(memory, a, address);
      AppliedByte(memory, b, address);
    }
  }

  /**
   For plans of writes alone, holding the post-completion writes back is the same as performing them
   in place, from every memory, exactly when the last writes agree.
   */
  lemma HeldBackExactly(steps: seq<Step>, host: Host)
    requires OnlyWrites(steps)
    ensures SameOnAll(steps, host) <==> LastWritesAgree(steps)
  {
    var held := InlineFrom(steps, 0) + PostWrites(steps);
    forall memory: Memory
      ensures Apply(Singly(steps, 0, memory, host), PostWrites(steps)) == Apply(memory, held)
      ensures AllAtOnce(steps, 0, memory, host) == Apply(memory, WritesFrom(steps, 0))
    {
      InlineRun(steps, 0, memory, host);
      AtOnceRun(steps, 0, memory, host);
      ApplyConcat(memory, InlineFrom(steps, 0), PostWrites(steps));
    }
    forall address
      ensures LastValue(held, address) == if LastValue(PostWrites(steps), address).Some? then LastValue(PostWrites(steps), address)
                                          else LastValue(WritesFrom(steps, 0), address)
    {
      HeldBackByte(steps, address);
    }
    if LastWritesAgree(steps) {
      forall memory: Memory
        ensures Apply(memory, held) == Apply(memory, WritesFrom(steps, 0))
      {
        AgreeingWrites(memory, held, WritesFrom(steps, 0));
      }
    } else {
      var address :| LastValue(PostWrites(steps), address).Some?
                     && LastValue(PostWrites(steps), address) != LastValue(WritesFrom(steps, 0), address);
      var none: Memory := map[];
      AppliedByte(none, held, address);
      AppliedByte(none, WritesFrom(steps, 0), address);
      assert Apply(Singly(steps, 0, none, host), PostWrites(steps)) != AllAtOnce(steps, 0, none, host);
    }
  }

  // ---- a plan whose write comes too late ----------------------------------------------------

  /** Backend work, a post-completion write of 1 to byte 0, and then an inline write of 2 to it. */
  function LateWritePlan(): seq<Step> {
    [BackendOperation(Command(0)), PostCompletionWrite([ByteWrite(0, 1)]), InlineWrite([ByteWrite(0, 2)])]
  }

  function IdleHost(): Host {
    (ops, memory) => memory
  }

  lemma LateWriteOrders(memory: Memory)
    ensures Apply(InOrder(LateWritePlan(), 0, [], memory, IdleHost()), PostWrites(LateWritePlan())) == memory[0 := 1]
    ensures AllAtOnce(LateWritePlan(), 0, memory, IdleHost()) == memory[0 := 2]
  {
    var plan, host := LateWritePlan(), IdleHost();
    OneWrite(memory, 1);
    OneWrite(memory, 2);
    OneWrite(memory[0 := 1], 2);
    OneWrite(memory[0 := 2], 1);
    LatePostWrites();
    assert AllAtOnce(plan, 3, memory[0 := 2], host) == memory[0 := 2];
    assert AllAtOnce(plan, 2, memory[0 := 1], host) == memory[0 := 2];
    assert AllAtOnce(plan, 1, memory, host) == memory[0 := 2];
    var pending := [Single(Command(0))];
    assert [] + StepItems(plan[0]) == pending && pending + StepItems(plan[1]) == pending;
    assert InOrder(plan, 3, [], memory[0 := 2], host) == memory[0 := 2];
    assert InOrder(plan, 2, pending, memory, host) == memory[0 := 2];
    assert InOrder(plan, 1, pending, memory, host) == memory[0 := 2];
  }

  lemma OneWrite(memory: Memory, value: u8)
    ensures Apply(memory, [ByteWrite(0, value)]) == memory[0 := value]
  {
    assert [ByteWrite(0, value)][..0] == [];
  }

  lemma LatePostWrites()
    ensures PostWrites(LateWritePlan()) == [ByteWrite(0, 1)]
  {
    PostWritesSplit(LateWritePlan(), 0);
    assert LateWritePlan()[..0] == [];
    assert PostWritesFrom(LateWritePlan(), 2) == [];
    assert PostWritesFrom(LateWritePlan(), 1) == [ByteWrite(0, 1)];
  }

  /** The execution leaves byte 0 at 1, although the write of 2 comes after it in the plan. */
  method WriteComesTooLate() returns (memory: Memory)
    ensures ReadByte(memory, 0) == 1
    ensures ReadByte(AllAtOnce(LateWritePlan(), 0, map[], IdleHost()), 0) == 2
  {
    LateWriteOrders(map[]);
    LateSegments();
    assert EmitsOperation(LateWritePlan()[0]);
    var execution := MaxwellBackendExecution.New(LateWritePlan());
    var segments;
    segments, memory := RunToCompletion(execution.value, map[], IdleHost());
  }

  lemma LateSegments()
    ensures SegmentsFrom(LateWritePlan(), 0, false) == 1
  {
    var plan := LateWritePlan();
    assert SegmentsFrom(plan, 3, false) == 0;
    assert SegmentsFrom(plan, 2, true) == 1;
    assert SegmentsFrom(plan, 1, true) == 1;
  }
}
