/**
 Exactly when merging a work into a batch keeps its meaning.

 The rule compares the new pass with the pass at the remembered begin, but what it removes is the end
 of the batch's last pass. When a work holds several passes the two differ. The results here say what
 the last pass must be like for every semantics to agree, and that the rule alone does not ensure it.
 */
module MergeExactness {
  import opened Primitives
  import opened RenderPasses

  // ---- the last pass of a batch -------------------------------------------------------------

  /** Finds the begin of the last pass, or shows that the list continues a pass opened before it. */
  lemma {:induction false} FindLastPass(ops: seq<Operation>, open: bool) returns (l: Option<nat>)
    requires ops != [] && Bracketed(ops, open) && ops[|ops| - 1].End?
    ensures l.None? ==> open && NoPassCommands(ops[..|ops| - 1])
    ensures l.Some? ==> l.value + 1 < |ops| && Bracketed(ops[..l.value], open) && ops[l.value].Begin?
                        && NoPassCommands(ops[l.value + 1..|ops| - 1])
    decreases |ops|
  {
    if |ops| == 1 {
      l := None;
    } else {
      var rest := ops[1..];
      var next := FindLastPass(rest, if ops[0].Command? then open else ops[0].Begin?);
      if next.Some? {
        l := Some(next.value + 1);
        SlicesShift(ops, next.value);
      } else if ops[0].Begin? {
        l := Some(0);
        SlicesShift(ops, 0);
      } else {
        l := None;
        NoPassCommandsPrepend(ops);
      }
    }
  }

  lemma SlicesShift(ops: seq<Operation>, k: nat)
    requires k < |ops| - 1
    ensures ops[..k + 1][1..] == ops[1..][..k]
    ensures k + 1 < |ops| - 1 ==> ops[k + 2..|ops| - 1] == ops[1..][k + 1..|ops| - 2]
    ensures ops[1..|ops| - 1] == ops[1..][..|ops| - 2]
  {
    if k + 1 < |ops| - 1 {
      var left, right := ops[k + 2..|ops| - 1], ops[1..][k + 1..|ops| - 2];
      forall i | 0 <= i < |left|
        ensures left[i] == right[i]
      {
        assert left[i] == ops[k + 2 + i] && right[i] == ops[1..][k + 1 + i];
      }
    }
  }

  lemma NoPassCommandsPrepend(ops: seq<Operation>)
    requires |ops| > 1 && ops[0].Command? && NoPassCommands(ops[1..][..|ops| - 2])
    ensures NoPassCommands(ops[..|ops| - 1])
  {
    forall i | 0 <= i < |ops| - 1
      ensures ops[i].Command?
    {
      if i > 0 {
        assert ops[i] == ops[1..][..|ops| - 2][i - 1];
      }
    }
  }

  /** A balanced list that ends by ending a pass has a last pass. */
  lemma LastPassExists(ops: seq<Operation>) returns (l: nat)
    requires ops != [] && Bracketed(ops, false) && ops[|ops| - 1].End?
    ensures LastPassAt(ops, l)
  {
    var found := FindLastPass(ops, false);
    l := found.value;
  }

  // ---- what the two lists leave -------------------------------------------------------------

  /**
   Merging is safe after a pass over `left`: it renders to the same cells as the new pass and stores
   them all, or nothing depends on it because it stores nothing and the new pass renders to nothing.
   */
  ghost predicate MergeIsSafe(left: seq<Attachment>, right: seq<Attachment>) {
    || (Cells(left) == Cells(right) && KeepsAll(left))
    || (Cells(right) == {} && forall c :: c in Cells(left) ==> !Keeps(left, c))
  }

  /** The list without the dropped pair, and the list with it, from inside the last pass. */
  ghost function Dropped(sem: Semantics, g: Gpu, end: nat, body: seq<Operation>): Gpu {
    PerformAll(sem, g, body + [End(end)])
  }

  ghost function Kept(sem: Semantics, g: Gpu, last: nat, begin: nat, end: nat, right: seq<Attachment>, body: seq<Operation>): Gpu {
    PerformAll(sem, Perform(sem, g, End(last)), [Begin(begin, right)] + (body + [End(end)]))
  }

  ghost predicate InsidePass(g: Gpu) {
    g.pass.Inside? && g.pass.working.Keys == Cells(g.pass.attachments)
  }

  /** A pass that renders to nothing leaves the images alone, whatever it draws. */
  lemma EmptyPassDoesNothing(sem: Semantics, images: Contents, begin: nat, end: nat, right: seq<Attachment>, body: seq<Operation>)
    requires Cells(right) == {} && NoPassCommands(body)
    ensures PerformAll(sem, Gpu(images, Outside), [Begin(begin, right)] + (body + [End(end)])) == Gpu(images, Outside)
  {
    var begun := Perform(sem, Gpu(images, Outside), Begin(begin, right));
    PerformFirst(sem, Gpu(images, Outside), Begin(begin, right), body + [End(end)]);
    DrawsStayInside(sem, begun, body);
    PerformLast(sem, begun, body, End(end));
    assert EndPass(images, right, PerformAll(sem, begun, body).pass.working) == images;
  }

  /** A pass that stores nothing ends the same way after any draws. */
  lemma DiscardingPassEnds(sem: Semantics, g: Gpu, last: nat, end: nat, body: seq<Operation>)
    requires InsidePass(g) && NoPassCommands(body)
    requires forall c :: c in Cells(g.pass.attachments) ==> !Keeps(g.pass.attachments, c)
    ensures Dropped(sem, g, end, body) == Perform(sem, g, End(last))
  {
    DrawsStayInside(sem, g, body);
    PerformLast(sem, g, body, End(end));
  }

  lemma SafeMergeAgrees(sem: Semantics, g: Gpu, last: nat, begin: nat, end: nat, right: seq<Attachment>, body: seq<Operation>)
    requires InsidePass(g) && NoPassCommands(body) && AllLoad(right) && KeepsAll(right)
    requires MergeIsSafe(g.pass.attachments, right)
    ensures Dropped(sem, g, end, body) == Kept(sem, g, last, begin, end, right, body)
  {
    if Cells(g.pass.attachments) == Cells(right) && KeepsAll(g.pass.attachments) {
      MergeMeaning(sem, g, last, begin, end, right, body);
    } else {
      DiscardingPassEnds(sem, g, last, end, body);
      EmptyPassDoesNothing(sem, Perform(sem, g, End(last)).images, begin, end, right, body);
    }
  }

  // ---- telling unsafe merges apart ----------------------------------------------------------

  /** Every draw adds the number of rendered cells to each of them; other commands do nothing. */
  function CountingSemantics(): Semantics {
    Semantics(
      (command: nat, working: Contents, rest: Contents) => map c | c in working :: working[c] + |working|,
      (command: nat, images: Contents) => images)
  }

  lemma CountingDraw(command: nat, images: Contents, attachments: seq<Attachment>, working: Contents, c: Cell)
    requires working.Keys == Cells(attachments) && c in working
    ensures var drawn := DrawPass(CountingSemantics(), command, images, attachments, working);
            c in drawn && drawn[c] == working[c] + |Cells(attachments)|
  {
    assert |working| == |working.Keys|;
  }

  /** What `n` draws add to each of `width` cells. */
  function Added(n: nat, width: nat): nat {
    if n == 0 then 0 else Added(n - 1, width) + width
  }

  lemma {:induction false} AddedGrows(n: nat, a: nat, b: nat)
    requires n > 0 && a < b
    ensures Added(n, a) < Added(n, b)
  {
    if n > 1 {
      AddedGrows(n - 1, a, b);
    }
  }

  lemma {:induction false} NothingAdded(n: nat)
    ensures Added(n, 0) == 0
  {
    if n > 0 {
      NothingAdded(n - 1);
    }
  }

  lemma {:induction false} CountingDraws(g: Gpu, body: seq<Operation>, c: Cell)
    requires InsidePass(g) && NoPassCommands(body) && c in g.pass.working
    ensures var h := PerformAll(CountingSemantics(), g, body);
            h.pass.Inside? && c in h.pass.working
            && h.pass.working[c] == g.pass.working[c] + Added(|body|, |Cells(g.pass.attachments)|)
  {
    var n := |body|;
    if n > 0 {
      var init := body[..n - 1];
      CountingDraws(g, init, c);
      DrawsStayInside(CountingSemantics(), g, init);
      var h := PerformAll(CountingSemantics(), g, init);
      CountingDraw(body[n - 1].command, h.images, h.pass.attachments, h.pass.working, c);
    }
  }

  /** The value of a cell when a pass over `attachments` ends. */
  lemma EndedCell(images: Contents, attachments: seq<Attachment>, working: Contents, c: Cell)
    requires working.Keys == Cells(attachments)
    ensures Get(EndPass(images, attachments, working), c)
         == if c !in Cells(attachments) then Get(images, c) else if Keeps(attachments, c) then working[c] else 0
  {
  }

  lemma DroppedImages(g: Gpu, end: nat, body: seq<Operation>)
    requires InsidePass(g) && NoPassCommands(body)
    ensures var h := PerformAll(CountingSemantics(), g, body);
            h.pass.Inside? && h.pass.working.Keys == Cells(g.pass.attachments)
            && Dropped(CountingSemantics(), g, end, body).images == EndPass(g.images, g.pass.attachments, h.pass.working)
  {
    DrawsStayInside(CountingSemantics(), g, body);
    PerformLast(CountingSemantics(), g, body, End(end));
  }

  lemma DroppedCell(g: Gpu, end: nat, body: seq<Operation>, c: Cell)
    requires InsidePass(g) && NoPassCommands(body)
    ensures Get(Dropped(CountingSemantics(), g, end, body).images, c)
         == if c !in Cells(g.pass.attachments) then Get(g.images, c)
            else if Keeps(g.pass.attachments, c) then g.pass.working[c] + Added(|body|, |Cells(g.pass.attachments)|)
            else 0
  {
    DroppedImages(g, end, body);
    var h := PerformAll(CountingSemantics(), g, body);
    EndedCell(g.images, g.pass.attachments, h.pass.working, c);
    if c in g.pass.working {
      CountingDraws(g, body, c);
    }
  }

  lemma NextPassCell(images: Contents, begin: nat, end: nat, right: seq<Attachment>, body: seq<Operation>, c: Cell)
    requires NoPassCommands(body) && AllLoad(right) && KeepsAll(right)
    ensures Get(PerformAll(CountingSemantics(), Gpu(images, Outside), [Begin(begin, right)] + (body + [End(end)])).images, c)
         == Get(images, c) + if c in Cells(right) then Added(|body|, |Cells(right)|) else 0
  {
    var sem := CountingSemantics();
    var begun := Perform(sem, Gpu(images, Outside), Begin(begin, right));
    PerformFirst(sem, Gpu(images, Outside), Begin(begin, right), body + [End(end)]);
    DroppedCell(begun, end, body, c);
    AllLoaded(right, images, c);
  }

  lemma KeptCell(g: Gpu, last: nat, begin: nat, end: nat, right: seq<Attachment>, body: seq<Operation>, c: Cell)
    requires InsidePass(g) && NoPassCommands(body) && AllLoad(right) && KeepsAll(right)
    ensures Get(Kept(CountingSemantics(), g, last, begin, end, right, body).images, c)
         == (if c !in Cells(g.pass.attachments) then Get(g.images, c)
             else if Keeps(g.pass.attachments, c) then g.pass.working[c] else 0)
            + (if c in Cells(right) then Added(|body|, |Cells(right)|) else 0)
  {
    var ended := Perform(CountingSemantics(), g, End(last));
    EndedCell(g.images, g.pass.attachments, g.pass.working, c);
    NextPassCell(ended.images, begin, end, right, body, c);
  }

  /** A cell the two lists leave different, when merging is not safe. */
  lemma TellingCell(left: seq<Attachment>, right: seq<Attachment>) returns (c: Cell)
    requires !MergeIsSafe(left, right)
    ensures || (c in Cells(right) && c !in Cells(left))
            || (c in Cells(left) && c !in Cells(right) && Keeps(left, c))
            || (c in Cells(left) && c in Cells(right) && !Keeps(left, c))
            || (c in Cells(left) && c in Cells(right) && Keeps(left, c) && |Cells(right)| < |Cells(left)|)
  {
    if missing :| missing in Cells(right) && missing !in Cells(left) {
      c := missing;
    } else if extra :| extra in Cells(left) && extra !in Cells(right) && Keeps(left, extra) {
      c := extra;
    } else if lost :| lost in Cells(left) && lost in Cells(right) && !Keeps(left, lost) {
      c := lost;
    } else {
      assert Cells(right) <= Cells(left);
      assert Cells(right) != {} && Cells(right) != Cells(left);
      assert Cells(left) == Cells(right) + (Cells(left) - Cells(right));
      c :| c in Cells(right);
    }
  }

  lemma UnsafeMergeDiffers(g: Gpu, last: nat, begin: nat, end: nat, right: seq<Attachment>, body: seq<Operation>)
    requires InsidePass(g) && NoPassCommands(body) && body != [] && AllLoad(right) && KeepsAll(right)
    requires !MergeIsSafe(g.pass.attachments, right)
    ensures Dropped(CountingSemantics(), g, end, body) != Kept(CountingSemantics(), g, last, begin, end, right, body)
  {
    var left, n := g.pass.attachments, |body|;
    var c := TellingCell(left, right);
    DroppedCell(g, end, body, c);
    KeptCell(g, last, begin, end, right, body, c);
    NothingAdded(n);
    if c in Cells(right) {
      AddedGrows(n, 0, |Cells(right)|);
    }
    if c in Cells(left) {
      AddedGrows(n, 0, |Cells(left)|);
    }
    if |Cells(right)| < |Cells(left)| {
      AddedGrows(n, |Cells(right)|, |Cells(left)|);
    }
  }

  // ---- one append ---------------------------------------------------------------------------

  /** What the rule compares: the new pass loads and stores everything it renders to. */
  lemma RuleChecksNewPass(batch: Batch, ops: seq<Operation>)
    requires Merges(batch, ops)
    ensures AllLoad(ops[0].attachments) && KeepsAll(ops[0].attachments)
  {
    var left, right := batch.ops[batch.begin.value].attachments, ops[0].attachments;
    assert forall i :: 0 <= i < |right| ==> AttachmentsMerge(left[i], right[i]);
    RuleAllowsMerging(left, right);
  }

  /** What follows the pass that the new work begins with. */
  ghost function Rest(next: seq<Operation>, e: nat): seq<Operation>
    requires e < |next|
  {
    next[e + 1..]
  }

  /** The new work begins with a pass that ends at `e`. */
  ghost predicate FirstPassEndsAt(next: seq<Operation>, e: nat) {
    0 < e < |next| && next[0].Begin? && next[e].End? && NoPassCommands(next[1..e])
  }

  /** The merged list, seen from inside the batch's last pass. */
  lemma MergedRun(sem: Semantics, images: Contents, ops: seq<Operation>, next: seq<Operation>, e: nat)
    requires ops != [] && FirstPassEndsAt(next, e)
    ensures var g := PerformAll(sem, Gpu(images, Outside), ops[..|ops| - 1]);
            PerformAll(sem, Gpu(images, Outside), ops[..|ops| - 1] + next[1..])
            == PerformAll(sem, Dropped(sem, g, next[e].pass, next[1..e]), Rest(next, e))
  {
    var init := ops[..|ops| - 1];
    var closed := next[1..e] + [next[e]];
    assert next[1..] == closed + Rest(next, e);
    PerformConcat(sem, Gpu(images, Outside), init, next[1..]);
    PerformConcat(sem, PerformAll(sem, Gpu(images, Outside), init), closed, Rest(next, e));
  }

  /** The unmerged list, seen from inside the batch's last pass. */
  lemma UnmergedRun(sem: Semantics, images: Contents, ops: seq<Operation>, next: seq<Operation>, e: nat)
    requires ops != [] && ops[|ops| - 1].End? && FirstPassEndsAt(next, e)
    ensures var g := PerformAll(sem, Gpu(images, Outside), ops[..|ops| - 1]);
            PerformAll(sem, Gpu(images, Outside), ops + next)
            == PerformAll(sem, Kept(sem, g, ops[|ops| - 1].pass, next[0].pass, next[e].pass, next[0].attachments, next[1..e]), Rest(next, e))
  {
    var init, last := ops[..|ops| - 1], ops[|ops| - 1];
    var first := [next[0]] + (next[1..e] + [next[e]]);
    assert ops == init + [last];
    assert next == first + Rest(next, e);
    PerformLast(sem, Gpu(images, Outside), init, last);
    PerformConcat(sem, Gpu(images, Outside), ops, next);
    PerformConcat(sem, PerformAll(sem, Gpu(images, Outside), ops), first, Rest(next, e));
  }

  /** A safe merge leaves what the unmerged list leaves, also when more passes follow in the new work. */
  lemma SafeRunAgrees(sem: Semantics, images: Contents, ops: seq<Operation>, next: seq<Operation>, l: nat, e: nat)
    requires LastPassAt(ops, l) && FirstPassEndsAt(next, e)
    requires AllLoad(next[0].attachments) && KeepsAll(next[0].attachments)
    requires MergeIsSafe(ops[l].attachments, next[0].attachments)
    ensures PerformAll(sem, Gpu(images, Outside), ops[..|ops| - 1] + next[1..]) == PerformAll(sem, Gpu(images, Outside), ops + next)
  {
    TailState(sem, images, ops, l);
    MergedRun(sem, images, ops, next, e);
    UnmergedRun(sem, images, ops, next, e);
    var g := PerformAll(sem, Gpu(images, Outside), ops[..|ops| - 1]);
    SafeMergeAgrees(sem, g, ops[|ops| - 1].pass, next[0].pass, next[e].pass, next[0].attachments, next[1..e]);
  }

  lemma UnsafeRunDiffers(images: Contents, ops: seq<Operation>, next: seq<Operation>, l: nat, e: nat)
    requires LastPassAt(ops, l) && FirstPassEndsAt(next, e) && 1 < e == |next| - 1
    requires AllLoad(next[0].attachments) && KeepsAll(next[0].attachments)
    requires !MergeIsSafe(ops[l].attachments, next[0].attachments)
    ensures PerformAll(CountingSemantics(), Gpu(images, Outside), ops[..|ops| - 1] + next[1..])
         != PerformAll(CountingSemantics(), Gpu(images, Outside), ops + next)
  {
    var sem := CountingSemantics();
    TailState(sem, images, ops, l);
    MergedRun(sem, images, ops, next, e);
    UnmergedRun(sem, images, ops, next, e);
    assert Rest(next, e) == [];
    var g := PerformAll(sem, Gpu(images, Outside), ops[..|ops| - 1]);
    UnsafeMergeDiffers(g, ops[|ops| - 1].pass, next[0].pass, next[e].pass, next[0].attachments, next[1..e]);
  }

  /** The merged and the unmerged list leave the same from these images. */
  ghost predicate AgreesFor(sem: Semantics, images: Contents, batch: Batch, ops: seq<Operation>) {
    PerformAll(sem, Gpu(images, Outside), AppendBatchable(batch, ops).ops) == PerformAll(sem, Gpu(images, Outside), batch.ops + ops)
  }

  ghost predicate AgreesAlways(batch: Batch, ops: seq<Operation>) {
    forall sem: Semantics, images: Contents :: AgreesFor(sem, images, batch, ops)
  }

  lemma {:induction false} SafeAgreesFor(sem: Semantics, images: Contents, batch: Batch, ops: seq<Operation>, l: nat)
    requires LastPassAt(batch.ops, l) && Merges(batch, ops) && NoPassCommands(ops[1..|ops| - 1])
    requires MergeIsSafe(batch.ops[l].attachments, ops[0].attachments)
    ensures AgreesFor(sem, images, batch, ops)
  {
    RuleChecksNewPass(batch, ops);
    SafeRunAgrees(sem, images, batch.ops, ops, l, |ops| - 1);
  }

  lemma {:induction false} UnsafeDisagrees(batch: Batch, ops: seq<Operation>, l: nat)
    requires LastPassAt(batch.ops, l) && Merges(batch, ops) && |ops| > 2 && NoPassCommands(ops[1..|ops| - 1])
    requires !MergeIsSafe(batch.ops[l].attachments, ops[0].attachments)
    ensures !AgreesFor(CountingSemantics(), map[], batch, ops)
  {
    RuleChecksNewPass(batch, ops);
    UnsafeRunDiffers(map[], batch.ops, ops, l, |ops| - 1);
  }

  lemma {:induction false} AgreesExactlyAfter(batch: Batch, ops: seq<Operation>, l: nat)
    requires LastPassAt(batch.ops, l) && Merges(batch, ops)
    requires |ops| > 2 && NoPassCommands(ops[1..|ops| - 1])
    ensures AgreesAlways(batch, ops) <==> MergeIsSafe(batch.ops[l].attachments, ops[0].attachments)
  {
    if MergeIsSafe(batch.ops[l].attachments, ops[0].attachments) {
      forall sem: Semantics, images: Contents
        ensures AgreesFor(sem, images, batch, ops)
      {
        SafeAgreesFor(sem, images, batch, ops, l);
      }
    } else {
      UnsafeDisagrees(batch, ops, l);
    }
  }

  /**
   Merging a work of one pass with at least one command into a balanced batch agrees with not
   merging, for every semantics and every image state, exactly when it is safe after the batch's
   last pass, which begins at `l`.
   */
  lemma MergeAgreesExactlyWhenSafe(batch: Batch, ops: seq<Operation>) returns (l: nat)
    requires BalancedBatch(batch) && Merges(batch, ops)
    requires |ops| > 2 && NoPassCommands(ops[1..|ops| - 1])
    ensures LastPassAt(batch.ops, l)
    ensures AgreesAlways(batch, ops) <==> MergeIsSafe(batch.ops[l].attachments, ops[0].attachments)
  {
    l := LastPassExists(batch.ops);
    AgreesExactlyAfter(batch, ops, l);
  }

  // ---- whole batches of any balanced works --------------------------------------------------

  ghost predicate BalancedItem(item: Item) {
    match item
    case Single(op) => op.Command?
    case Work(ops) => ops != [] && Bracketed(ops, false)
  }

  ghost predicate BalancedBatch(batch: Batch) {
    Bracketed(batch.ops, false) && (batch.begin.Some? ==> batch.ops != [] && batch.ops[|batch.ops| - 1].End?)
  }

  /** If the rule merges the item, it is safe after the batch's last pass. */
  ghost predicate SafeAppend(batch: Batch, item: Item) {
    item.Work? && Merges(batch, item.ops) ==>
      exists l: nat :: LastPassAt(batch.ops, l) && MergeIsSafe(batch.ops[l].attachments, item.ops[0].attachments)
  }

  ghost predicate SafeAppends(items: seq<Item>) {
    forall k :: 0 <= k < |items| ==> BalancedItem(items[k]) && SafeAppend(AppendAll(items[..k]), items[k])
  }

  /** Replacing the operation that ends the last pass by a list that ends it keeps the brackets balanced. */
  lemma {:induction false} ReplaceEnd(ops: seq<Operation>, tail: seq<Operation>, open: bool)
    requires ops != [] && Bracketed(ops, open) && ops[|ops| - 1].End? && Bracketed(tail, true)
    ensures Bracketed(ops[..|ops| - 1] + tail, open)
    decreases |ops|
  {
    var joined := ops[..|ops| - 1] + tail;
    if |ops| == 1 {
      assert joined == tail;
    } else {
      assert joined[1..] == ops[1..][..|ops| - 2] + tail;
      ReplaceEnd(ops[1..], tail, if ops[0].Command? then open else ops[0].Begin?);
    }
  }

  /** An open pass is closed by the first pass command of a balanced rest. */
  lemma {:induction false} FirstEnd(ops: seq<Operation>) returns (e: nat)
    requires Bracketed(ops, true)
    ensures e < |ops| && ops[e].End? && NoPassCommands(ops[..e])
  {
    if ops[0].End? {
      e := 0;
    } else {
      var later := FirstEnd(ops[1..]);
      e := later + 1;
      assert forall i :: 0 < i < e ==> ops[i] == ops[1..][..later][i - 1];
    }
  }

  lemma BatchableIsOpened(ops: seq<Operation>) returns (e: nat)
    requires Bracketed(ops, false) && BatchableRenderPass(ops).Some?
    ensures FirstPassEndsAt(ops, e) && Bracketed(ops[1..], true)
  {
    var end := FirstEnd(ops[1..]);
    e := end + 1;
    assert ops[1..e] == ops[1..][..end];
  }

  lemma MergedSafely(sem: Semantics, images: Contents, batch: Batch, ops: seq<Operation>)
    requires BalancedBatch(batch) && BalancedItem(Work(ops)) && SafeAppend(batch, Work(ops)) && Merges(batch, ops)
    ensures Bracketed(AppendBatchable(batch, ops).ops, false)
    ensures PerformAll(sem, Gpu(images, Outside), AppendBatchable(batch, ops).ops) == PerformAll(sem, Gpu(images, Outside), batch.ops + ops)
  {
    var l: nat :| LastPassAt(batch.ops, l) && MergeIsSafe(batch.ops[l].attachments, ops[0].attachments);
    RuleChecksNewPass(batch, ops);
    var e := BatchableIsOpened(ops);
    SafeRunAgrees(sem, images, batch.ops, ops, l, e);
    ReplaceEnd(batch.ops, ops[1..], false);
  }

  lemma SafeAppendMeaning(sem: Semantics, images: Contents, batch: Batch, item: Item)
    requires BalancedBatch(batch) && BalancedItem(item) && SafeAppend(batch, item)
    ensures BalancedBatch(AppendItem(batch, item))
    ensures PerformAll(sem, Gpu(images, Outside), AppendItem(batch, item).ops)
         == PerformAll(sem, Gpu(images, Outside), batch.ops + ItemOps(item))
  {
    if item.Work? && Merges(batch, item.ops) {
      MergedSafely(sem, images, batch, item.ops);
    } else {
      assert item.Single? ==> [item.op][1..] == [] && Bracketed([], false);
      BracketedConcat(batch.ops, ItemOps(item), false);
    }
  }

  /** Batching any balanced works by safe appends leaves every image as the unmerged operations would. */
  lemma {:induction false} SafeBatchMeaning(sem: Semantics, images: Contents, items: seq<Item>)
    requires SafeAppends(items)
    ensures BalancedBatch(AppendAll(items))
    ensures PerformAll(sem, Gpu(images, Outside), AppendAll(items).ops) == PerformAll(sem, Gpu(images, Outside), Unmerged(items))
  {
    if items != [] {
      var n, before := |items| - 1, items[..|items| - 1];
      assert forall k :: 0 <= k < n ==> before[..k] == items[..k];
      SafeBatchMeaning(sem, images, before);
      SafeAppendMeaning(sem, images, AppendAll(before), items[n]);
      PerformConcat(sem, Gpu(images, Outside), AppendAll(before).ops, ItemOps(items[n]));
      PerformConcat(sem, Gpu(images, Outside), Unmerged(before), ItemOps(items[n]));
    }
  }

  // ---- works of two passes ------------------------------------------------------------------

  function Target(image: nat): Attachment {
    Attachment(image, {0}, 0, 0, 1, Load, Store)
  }

  /**
   A work of two passes, the second over image `second`. The rule takes any works; the lowering of
   draws makes works of one pass only, which `StepByStep` covers.
   */
  function TwoPassWork(second: nat): seq<Operation> {
    [Begin(1, [Target(0)]), End(1), Begin(1, [Target(second)]), End(1)]
  }

  function LaterWork(): seq<Operation> {
    [Begin(1, [Target(0)]), Command(7), End(1)]
  }

  lemma OneCell(image: nat)
    ensures Cells([Target(image)]) == {(image, 0)}
  {
    assert [Target(image)][0].subresources == {0};
    assert (image, 0) in Cells([Target(image)]);
  }

  function EmptyPass(image: nat): seq<Operation> {
    [Begin(1, [Target(image)]), End(1)]
  }

  lemma EmptyPassIsBracketed(image: nat)
    ensures Bracketed(EmptyPass(image), false)
  {
    assert EmptyPass(image)[1..] == [End(1)];
    assert [End(1)][1..] == [];
    assert Bracketed([], false);
    assert Bracketed([End(1)], true);
  }

  lemma TwoPassBrackets(second: nat)
    ensures Bracketed(TwoPassWork(second), false) && LastPassAt(TwoPassWork(second), 2)
  {
    EmptyPassIsBracketed(0);
    EmptyPassIsBracketed(second);
    BracketedConcat(EmptyPass(0), EmptyPass(second), false);
    assert TwoPassWork(second) == EmptyPass(0) + EmptyPass(second);
    assert TwoPassWork(second)[..2] == EmptyPass(0);
  }

  lemma TwoPassBatch(second: nat)
    ensures AppendAll([Work(TwoPassWork(second))]) == Batch(TwoPassWork(second), Some(0))
    ensures Merges(Batch(TwoPassWork(second), Some(0)), LaterWork())
  {
    var ops := TwoPassWork(second);
    assert [Work(ops)][..0] == [] && [] + ops == ops;
    assert AppendAll([]) == Batch([], None);
    assert AttachmentsMerge(Target(0), Target(0));
  }

  /** The rule merges after a second pass over another image, and then draws into the wrong image. */
  lemma {:induction false} SecondPassBreaksMerging()
    ensures Bracketed(TwoPassWork(1), false) && Merges(AppendAll([Work(TwoPassWork(1))]), LaterWork())
    ensures !AgreesAlways(AppendAll([Work(TwoPassWork(1))]), LaterWork())
  {
    TwoPassBatch(1);
    TwoPassBrackets(1);
    OneCell(0);
    OneCell(1);
    assert (0, 0) in Cells([Target(0)]) && (0, 0) !in Cells([Target(1)]);
    AgreesExactlyAfter(AppendAll([Work(TwoPassWork(1))]), LaterWork(), 2);
  }

  /** After a second pass over the same image the merge is harmless. */
  lemma {:induction false} RepeatedPassMerges()
    ensures Merges(AppendAll([Work(TwoPassWork(0))]), LaterWork()) && AgreesAlways(AppendAll([Work(TwoPassWork(0))]), LaterWork())
  {
    TwoPassBatch(0);
    TwoPassBrackets(0);
    AllKept([Target(0)], (0, 0));
    OneCell(0);
    AgreesExactlyAfter(AppendAll([Work(TwoPassWork(0))]), LaterWork(), 2);
  }
}
