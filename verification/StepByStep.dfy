/** Running a plan in batches against a GPU does what performing every step on its own does. */
module StepByStep {
  import opened Primitives
  import opened RenderPasses
  import opened MergeExactness
  import opened ExecutionModel

  /** How the images of the GPU lie in canonical memory. */
  datatype Bridge = Bridge(images: Memory -> Contents, store: (Memory, Contents) -> Memory)

  ghost predicate Faithful(bridge: Bridge) {
    && (forall memory, contents :: bridge.images(bridge.store(memory, contents)) == contents)
    && (forall memory, c, d :: bridge.store(bridge.store(memory, c), d) == bridge.store(memory, d))
  }

  ghost function Submit(sem: Semantics, bridge: Bridge, ops: seq<Operation>, memory: Memory): Memory {
    bridge.store(memory, PerformAll(sem, Gpu(bridge.images(memory), Outside), ops).images)
  }

  /** A host that performs the operations it is given on the images in memory. */
  ghost function HostOf(sem: Semantics, bridge: Bridge): (seq<Operation>, Memory) -> Memory {
    (ops, memory) => Submit(sem, bridge, ops, memory)
  }

  /** One step on its own: the host gets its operations alone, unmerged, at once. */
  ghost function Alone(memory: Memory, step: Step, host: (seq<Operation>, Memory) -> Memory): Memory {
    if EmitsOperation(step) then host(ItemOps(StepItems(step)[0]), memory) else PerformStep(memory, step)
  }

  ghost function Singly(steps: seq<Step>, k: nat, memory: Memory, host: (seq<Operation>, Memory) -> Memory): Memory
    requires k <= |steps|
    decreases |steps| - k
  {
    if k == |steps| then memory else Singly(steps, k + 1, Alone(memory, steps[k], host), host)
  }

  /** Every merge the plan leads to from step `k` on, with `pending` gathered, is safe. */
  ghost predicate SafeFrom(steps: seq<Step>, k: nat, pending: seq<Item>)
    requires k <= |steps|
    decreases |steps| - k
  {
    if k == |steps| then true
    else if IsCanonicalWrite(steps[k]) then SafeFrom(steps, k + 1, [])
    else if EmitsOperation(steps[k]) then
      var item := StepItems(steps[k])[0];
      BalancedItem(item) && SafeAppend(AppendAll(pending), item) && SafeFrom(steps, k + 1, pending + [item])
    else SafeFrom(steps, k + 1, pending)
  }

  lemma FirstItem(item: Item)
    requires BalancedItem(item)
    ensures AppendAll([item]).ops == ItemOps(item)
  {
    assert [item][..0] == [];
    assert [] + ItemOps(item) == ItemOps(item);
  }

  /** Submitting a batch with one more item is submitting the batch, then the item. */
  lemma SubmitOneMore(sem: Semantics, bridge: Bridge, batch: Batch, item: Item, memory: Memory)
    requires Faithful(bridge) && BalancedBatch(batch) && BalancedItem(item) && SafeAppend(batch, item)
    ensures Submit(sem, bridge, AppendItem(batch, item).ops, memory)
         == Submit(sem, bridge, ItemOps(item), Submit(sem, bridge, batch.ops, memory))
  {
    var start := Gpu(bridge.images(memory), Outside);
    SafeAppendMeaning(sem, start.images, batch, item);
    PerformConcat(sem, start, batch.ops, ItemOps(item));
    BracketedEndsOutside(sem, start, batch.ops);
    var g := PerformAll(sem, start, batch.ops);
    assert g == Gpu(g.images, Outside);
  }

  /** Submitting gathered items with one more is submitting the gathered ones, then the item. */
  lemma SubmitGathered(sem: Semantics, bridge: Bridge, pending: seq<Item>, item: Item, memory: Memory)
    requires Faithful(bridge) && SafeAppends(pending) && BalancedItem(item) && SafeAppend(AppendAll(pending), item)
    ensures Submit(sem, bridge, AppendAll(pending + [item]).ops, memory)
         == Submit(sem, bridge, ItemOps(item), Submit(sem, bridge, AppendAll(pending).ops, memory))
  {
    AppendOneMore(pending, item);
    SafeBatchMeaning(sem, bridge.images(memory), pending);
    SubmitOneMore(sem, bridge, AppendAll(pending), item, memory);
  }

  lemma FlushOneMore(sem: Semantics, bridge: Bridge, pending: seq<Item>, item: Item, memory: Memory)
    requires Faithful(bridge) && SafeAppends(pending) && BalancedItem(item) && SafeAppend(AppendAll(pending), item)
    ensures var host := HostOf(sem, bridge);
            Flushed(pending + [item], memory, host) == host(ItemOps(item), Flushed(pending, memory, host))
  {
    if pending == [] {
      assert pending + [item] == [item];
      FirstItem(item);
    } else {
      SubmitGathered(sem, bridge, pending, item, memory);
    }
  }

  lemma SafeOneMore(pending: seq<Item>, item: Item)
    requires SafeAppends(pending) && BalancedItem(item) && SafeAppend(AppendAll(pending), item)
    ensures SafeAppends(pending + [item])
  {
    var more := pending + [item];
    forall k | 0 <= k < |more|
      ensures BalancedItem(more[k]) && SafeAppend(AppendAll(more[..k]), more[k])
    {
      assert more[..k] == pending[..k];
      assert pending[..|pending|] == pending;
    }
  }

  lemma EmittedIsFlushed(sem: Semantics, bridge: Bridge, step: Step, pending: seq<Item>, memory: Memory)
    requires Faithful(bridge) && SafeAppends(pending) && EmitsOperation(step)
    requires BalancedItem(StepItems(step)[0]) && SafeAppend(AppendAll(pending), StepItems(step)[0])
    ensures StepItems(step) == [StepItems(step)[0]]
    ensures var host := HostOf(sem, bridge);
            Flushed(pending + [StepItems(step)[0]], memory, host) == Alone(Flushed(pending, memory, host), step, host)
  {
    FlushOneMore(sem, bridge, pending, StepItems(step)[0], memory);
  }

  lemma {:induction false} ResumesSingly(sem: Semantics, bridge: Bridge, steps: seq<Step>, k: nat, pending: seq<Item>, memory: Memory)
    requires Faithful(bridge) && k <= |steps| && SafeAppends(pending) && SafeFrom(steps, k, pending)
    ensures var host := HostOf(sem, bridge);
            InOrder(steps, k, pending, memory, host) == Singly(steps, k, Flushed(pending, memory, host), host)
    decreases |steps| - k
  {
    var host := HostOf(sem, bridge);
    if k < |steps| {
      if IsCanonicalWrite(steps[k]) {
        ResumesSingly(sem, bridge, steps, k + 1, [], PerformStep(Flushed(pending, memory, host), steps[k]));
      } else if EmitsOperation(steps[k]) {
        var item := StepItems(steps[k])[0];
        EmittedIsFlushed(sem, bridge, steps[k], pending, memory);
        SafeOneMore(pending, item);
        ResumesSingly(sem, bridge, steps, k + 1, pending + [item], memory);
      } else {
        assert pending + StepItems(steps[k]) == pending;
        ResumesSingly(sem, bridge, steps, k + 1, pending, memory);
      }
    }
  }

  /**
   Gathering operations, merging passes and holding them back to the next canonical write leaves
   memory and images as performing every step singly does, when every merge is safe.
   */
  lemma RunsAsSingly(sem: Semantics, bridge: Bridge, steps: seq<Step>, memory: Memory)
    requires Faithful(bridge) && SafeFrom(steps, 0, [])
    ensures InOrder(steps, 0, [], memory, HostOf(sem, bridge)) == Singly(steps, 0, memory, HostOf(sem, bridge))
  {
    ResumesSingly(sem, bridge, steps, 0, [], memory);
  }

  // ---- works of one pass --------------------------------------------------------------------

  /** Every work is sound: it nests no pass and ends the batchable pass it is. */
  ghost predicate SoundWorks(steps: seq<Step>) {
    forall i :: 0 <= i < |steps| && EmitsOperation(steps[i]) ==> SoundItem(StepItems(steps[i])[0])
  }

  lemma SoundIsSafe(batch: Batch, item: Item)
    requires SoundBatch(batch) && SoundItem(item)
    ensures BalancedItem(item) && SafeAppend(batch, item)
  {
    if item.Work? && Merges(batch, item.ops) {
      var b := batch.begin.value;
      RuleAllowsMerging(batch.ops[b].attachments, item.ops[0].attachments);
      assert LastPassAt(batch.ops, b);
    }
  }

  lemma SoundOneMore(pending: seq<Item>, item: Item)
    requires SoundItems(pending) && SoundItem(item)
    ensures SoundItems(pending + [item]) && BalancedItem(item) && SafeAppend(AppendAll(pending), item)
  {
    BatchIsSound(pending);
    SoundIsSafe(AppendAll(pending), item);
  }

  lemma {:induction false} SoundWorksAreSafe(steps: seq<Step>, k: nat, pending: seq<Item>)
    requires k <= |steps| && SoundWorks(steps) && SoundItems(pending)
    ensures SafeFrom(steps, k, pending)
    decreases |steps| - k
  {
    if k < |steps| {
      if IsCanonicalWrite(steps[k]) {
        SoundWorksAreSafe(steps, k + 1, []);
      } else if EmitsOperation(steps[k]) {
        var item := StepItems(steps[k])[0];
        SoundOneMore(pending, item);
        SoundWorksAreSafe(steps, k + 1, pending + [item]);
      } else {
        SoundWorksAreSafe(steps, k + 1, pending);
      }
    }
  }

  /** A plan of sound works runs as performing every step singly does. */
  lemma SoundRunsAsSingly(sem: Semantics, bridge: Bridge, steps: seq<Step>, memory: Memory)
    requires Faithful(bridge) && SoundWorks(steps)
    ensures InOrder(steps, 0, [], memory, HostOf(sem, bridge)) == Singly(steps, 0, memory, HostOf(sem, bridge))
  {
    SoundWorksAreSafe(steps, 0, []);
    RunsAsSingly(sem, bridge, steps, memory);
  }

  // ---- memory can hold the images -----------------------------------------------------------

  function Pair(a: nat, b: nat): nat {
    if a == 0 then 2 * b + 1 else 2 * Pair(a - 1, b)
  }

  lemma {:induction false} PairInjective(a: nat, b: nat, c: nat, d: nat)
    requires Pair(a, b) == Pair(c, d)
    ensures a == c && b == d
  {
    if a > 0 && c > 0 {
      PairInjective(a - 1, b, c - 1, d);
    }
  }

  function Code(c: Cell, value: nat): nat {
    Pair(c.0, Pair(c.1, value))
  }

  /** A byte of memory for every cell and its value. */
  function Encode(contents: Contents): Memory {
    map c | c in contents :: Code(c, contents[c]) := 0
  }

  lemma EncodedCell(contents: Contents, others: Contents, c: Cell)
    requires Encode(contents) == Encode(others) && c in contents
    ensures c in others && others[c] == contents[c]
  {
    var k := Code(c, contents[c]);
    assert k in Encode(contents);
    assert k in Encode(others);
    var d :| d in others && Code(d, others[d]) == k;
    PairInjective(c.0, Pair(c.1, contents[c]), d.0, Pair(d.1, others[d]));
    PairInjective(c.1, contents[c], d.1, others[d]);
  }

  lemma EncodeInjective(contents: Contents, others: Contents)
    requires Encode(contents) == Encode(others)
    ensures contents == others
  {
    forall c | c in contents
      ensures c in others && others[c] == contents[c]
    {
      EncodedCell(contents, others, c);
    }
    forall c | c in others
      ensures c in contents
    {
      EncodedCell(others, contents, c);
    }
  }

  ghost function Decode(memory: Memory): Contents {
    if exists contents :: Encode(contents) == memory then (var contents :| Encode(contents) == memory; contents) else map[]
  }

  lemma FaithfulBridgeExists()
    ensures exists bridge :: Faithful(bridge)
  {
    var bridge := Bridge(memory => Decode(memory), (memory, contents) => Encode(contents));
    forall memory, contents
      ensures bridge.images(bridge.store(memory, contents)) == contents
    {
      EncodeInjective(Decode(Encode(contents)), contents);
    }
    assert Faithful(bridge);
  }
}
