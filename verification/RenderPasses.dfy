/**
 Merging adjacent render passes while operations are batched into one host segment.

 Meaning is given by an interpreter over image cells. What draws and other commands compute is left
 open (`Semantics` is any pair of functions), so the results hold whatever the commands do, as long
 as a draw sees only its pass's working contents and the images outside its attachments.
 */
module RenderPasses {
  import opened Primitives

  /** One subresource of one image. */
  type Cell = (nat, nat)

  datatype AttachmentLoad = Load | Clear(value: nat) | DiscardContents

  datatype AttachmentStore = Store | Discard

  datatype Attachment = Attachment(
    image: nat,
    subresources: set<nat>,
    kind: nat,
    format: nat,
    samples: nat,
    load: AttachmentLoad,
    store: AttachmentStore)

  datatype Operation =
    | Begin(pass: nat, attachments: seq<Attachment>)
    | End(pass: nat)
    | Command(command: nat)

  // ---- what an operation list does ----------------------------------------------------------

  type Contents = map<Cell, nat>

  datatype Semantics = Semantics(
    draw: (nat, Contents, Contents) -> Contents,
    run: (nat, Contents) -> Contents)

  datatype Pass =
    | Outside
    | Inside(attachments: seq<Attachment>, working: Contents)

  datatype Gpu = Gpu(images: Contents, pass: Pass)

  ghost function Get(contents: Contents, c: Cell): nat {
    if c in contents then contents[c] else 0
  }

  ghost function Owns(attachment: Attachment, c: Cell): bool {
    c.0 == attachment.image && c.1 in attachment.subresources
  }

  ghost function Cells(attachments: seq<Attachment>): set<Cell> {
    set i, s | 0 <= i < |attachments| && s in attachments[i].subresources :: (attachments[i].image, s)
  }

  /** The value a cell starts the pass with; the last attachment that owns it decides. */
  ghost function Loaded(attachments: seq<Attachment>, images: Contents, c: Cell): nat {
    if attachments == [] then Get(images, c)
    else
      var last := attachments[|attachments| - 1];
      if !Owns(last, c) then Loaded(attachments[..|attachments| - 1], images, c)
      else match last.load
        case Load => Get(images, c)
        case Clear(value) => value
        case DiscardContents => 0
  }

  /** Whether the pass keeps the cell at its end; the last attachment that owns it decides. */
  ghost function Keeps(attachments: seq<Attachment>, c: Cell): bool {
    if attachments == [] then true
    else
      var last := attachments[|attachments| - 1];
      if !Owns(last, c) then Keeps(attachments[..|attachments| - 1], c) else last.store == Store
  }

  /** The last attachment with a cell's image and subresource decides what it loads and whether it is kept. */
  lemma {:induction false} LastAttachmentDecides(attachments: seq<Attachment>, images: Contents, c: Cell, i: nat)
    requires i < |attachments| && c.0 == attachments[i].image && c.1 in attachments[i].subresources
    requires forall j :: i < j < |attachments| ==> c.0 != attachments[j].image || c.1 !in attachments[j].subresources
    ensures attachments[i].load == Load && c in images ==> Loaded(attachments, images, c) == images[c]
    ensures forall value :: attachments[i].load == Clear(value) ==> Loaded(attachments, images, c) == value
    ensures attachments[i].load == DiscardContents ==> Loaded(attachments, images, c) == Loaded(attachments, map[], c)
    ensures Keeps(attachments, c) <==> attachments[i].store == Store
  {
    if i < |attachments| - 1 {
      LastAttachmentDecides(attachments[..|attachments| - 1], images, c, i);
    }
  }

  ghost function BeginPass(images: Contents, attachments: seq<Attachment>): Contents {
    map c | c in Cells(attachments) :: Loaded(attachments, images, c)
  }

  ghost function EndPass(images: Contents, attachments: seq<Attachment>, working: Contents): Contents {
    images + map c | c in Cells(attachments) :: if Keeps(attachments, c) then Get(working, c) else 0
  }

  /** A draw sees the working contents and every image cell the pass is not rendering to. */
  ghost function DrawPass(sem: Semantics, command: nat, images: Contents, attachments: seq<Attachment>, working: Contents): Contents {
    var drawn := sem.draw(command, working, images - Cells(attachments));
    map c | c in Cells(attachments) :: Get(drawn, c)
  }

  ghost function Perform(sem: Semantics, g: Gpu, op: Operation): Gpu {
    match op
    case Begin(_, attachments) =>
      if g.pass.Outside? then Gpu(g.images, Inside(attachments, BeginPass(g.images, attachments))) else g
    case End(_) =>
      if g.pass.Inside? then Gpu(EndPass(g.images, g.pass.attachments, g.pass.working), Outside) else g
    case Command(command) =>
      if g.pass.Inside? then
        g.(pass := g.pass.(working := DrawPass(sem, command, g.images, g.pass.attachments, g.pass.working)))
      else g.(images := sem.run(command, g.images))
  }

  ghost function PerformAll(sem: Semantics, g: Gpu, ops: seq<Operation>): Gpu
    decreases |ops|
  {
    if ops == [] then g
    else Perform(sem, PerformAll(sem, g, ops[..|ops| - 1]), ops[|ops| - 1])
  }

  lemma {:induction false} PerformConcat(sem: Semantics, g: Gpu, a: seq<Operation>, b: seq<Operation>)
    ensures PerformAll(sem, g, a + b) == PerformAll(sem, PerformAll(sem, g, a), b)
    decreases |b|
  {
    if b == [] {
      assert a + b == a;
    } else {
      PerformConcat(sem, g, a, b[..|b| - 1]);
      assert (a + b)[..|a + b| - 1] == a + b[..|b| - 1];
    }
  }

  lemma PerformOne(sem: Semantics, g: Gpu, op: Operation)
    ensures PerformAll(sem, g, [op]) == Perform(sem, g, op)
  {
    assert [op][..0] == [];
  }

  lemma PerformFirst(sem: Semantics, g: Gpu, op: Operation, rest: seq<Operation>)
    ensures PerformAll(sem, g, [op] + rest) == PerformAll(sem, Perform(sem, g, op), rest)
  {
    PerformConcat(sem, g, [op], rest);
    PerformOne(sem, g, op);
  }

  lemma PerformLast(sem: Semantics, g: Gpu, body: seq<Operation>, op: Operation)
    ensures PerformAll(sem, g, body + [op]) == Perform(sem, PerformAll(sem, g, body), op)
  {
    PerformConcat(sem, g, body, [op]);
    PerformOne(sem, PerformAll(sem, g, body), op);
  }

  // ---- brackets and commands ----------------------------------------------------------------

  ghost predicate NoPassCommands(ops: seq<Operation>) {
    forall i :: 0 <= i < |ops| ==> ops[i].Command?
  }

  /** Passes open and close alternately; `open` tells whether one is open before the list. */
  ghost predicate Bracketed(ops: seq<Operation>, open: bool)
    decreases |ops|
  {
    if ops == [] then !open
    else match ops[0]
      case Begin(_, _) => !open && Bracketed(ops[1..], true)
      case End(_) => open && Bracketed(ops[1..], false)
      case Command(_) => Bracketed(ops[1..], open)
  }

  /** The commands of a list, in order, without the pass brackets. */
  ghost function Commands(ops: seq<Operation>): seq<Operation>
    decreases |ops|
  {
    if ops == [] then []
    else Commands(ops[..|ops| - 1]) + if ops[|ops| - 1].Command? then [ops[|ops| - 1]] else []
  }

  lemma {:induction false} CommandsConcat(a: seq<Operation>, b: seq<Operation>)
    ensures Commands(a + b) == Commands(a) + Commands(b)
    decreases |b|
  {
    if b == [] {
      assert a + b == a;
    } else {
      CommandsConcat(a, b[..|b| - 1]);
      assert (a + b)[..|a + b| - 1] == a + b[..|b| - 1];
    }
  }

  // ---- the batching rule --------------------------------------------------------------------

  /** The pass a list of operations is, when it begins and ends with one pass's brackets. */
  function BatchableRenderPass(ops: seq<Operation>): (r: Option<(nat, seq<Attachment>)>)
    ensures r.Some? ==> |ops| >= 2 && ops[0] == Begin(r.value.0, r.value.1) && ops[|ops| - 1] == End(r.value.0)
  {
    if ops != [] && ops[0].Begin? && ops[|ops| - 1].End? && ops[0].pass == ops[|ops| - 1].pass then
      Some((ops[0].pass, ops[0].attachments))
    else None
  }

  /** Exactly the lists bracketed by the begin and the end of one pass are batchable, as that pass. */
  lemma BatchableShape(ops: seq<Operation>, pass: nat, attachments: seq<Attachment>)
    ensures BatchableRenderPass(ops) == Some((pass, attachments)) <==>
            exists body :: ops == [Begin(pass, attachments)] + body + [End(pass)]
  {
    if BatchableRenderPass(ops) == Some((pass, attachments)) {
      assert ops == [Begin(pass, attachments)] + ops[1..|ops| - 1] + [End(pass)];
    }
  }

  predicate AttachmentsMerge(left: Attachment, right: Attachment) {
    && left.image == right.image
    && left.subresources == right.subresources
    && left.kind == right.kind
    && left.format == right.format
    && left.samples == right.samples
    && left.store == Store
    && right.load == Load
    && right.store == Store
  }

  predicate RenderPassesCanMerge(left: Operation, pass: nat, right: seq<Attachment>) {
    && left.Begin?
    && left.pass == pass
    && |left.attachments| == |right|
    && forall i :: 0 <= i < |right| ==> AttachmentsMerge(left.attachments[i], right[i])
  }

  lemma {:induction false} AllLoaded(attachments: seq<Attachment>, images: Contents, c: Cell)
    requires forall i :: 0 <= i < |attachments| ==> attachments[i].load == Load
    ensures Loaded(attachments, images, c) == Get(images, c)
  {
    if attachments != [] {
      AllLoaded(attachments[..|attachments| - 1], images, c);
    }
  }

  lemma {:induction false} AllKept(attachments: seq<Attachment>, c: Cell)
    requires forall i :: 0 <= i < |attachments| ==> attachments[i].store == Store
    ensures Keeps(attachments, c)
  {
    if attachments != [] {
      AllKept(attachments[..|attachments| - 1], c);
    }
  }

  lemma MergedCells(left: seq<Attachment>, right: seq<Attachment>)
    requires |left| == |right| && forall i :: 0 <= i < |right| ==> AttachmentsMerge(left[i], right[i])
    ensures Cells(left) == Cells(right)
  {
    assert forall c :: c in Cells(left) ==> c in Cells(right);
    assert forall c :: c in Cells(right) ==> c in Cells(left);
  }

  // ---- why a removed End and Begin do not matter --------------------------------------------

  /** Two states inside passes over the same cells that differ at most in those cells' stored images. */
  ghost predicate SameSoFar(g: Gpu, h: Gpu) {
    && g.pass.Inside? && h.pass.Inside?
    && Cells(g.pass.attachments) == Cells(h.pass.attachments)
    && g.pass.working == h.pass.working
    && g.images - Cells(g.pass.attachments) == h.images - Cells(h.pass.attachments)
  }

  lemma {:induction false} DrawsKeepSame(sem: Semantics, g: Gpu, h: Gpu, body: seq<Operation>)
    requires SameSoFar(g, h) && NoPassCommands(body)
    ensures SameSoFar(PerformAll(sem, g, body), PerformAll(sem, h, body))
    ensures PerformAll(sem, g, body).pass.attachments == g.pass.attachments
    ensures PerformAll(sem, h, body).pass.attachments == h.pass.attachments
  {
    if body != [] {
      DrawsKeepSame(sem, g, h, body[..|body| - 1]);
    }
  }

  lemma EndsAgree(g: Gpu, h: Gpu)
    requires SameSoFar(g, h)
    requires forall c :: c in Cells(g.pass.attachments) ==> Keeps(g.pass.attachments, c) && Keeps(h.pass.attachments, c)
    ensures EndPass(g.images, g.pass.attachments, g.pass.working) == EndPass(h.images, h.pass.attachments, h.pass.working)
  {
    var cells := Cells(g.pass.attachments);
    var stored := map c | c in cells :: Get(g.pass.working, c);
    SplitUpdate(g.images, cells, stored);
    SplitUpdate(h.images, cells, stored);
    assert EndPass(g.images, g.pass.attachments, g.pass.working) == g.images + stored;
    assert EndPass(h.images, h.pass.attachments, h.pass.working) == h.images + stored;
  }

  lemma SplitUpdate(images: Contents, cells: set<Cell>, stored: Contents)
    requires stored.Keys == cells
    ensures images + stored == (images - cells) + stored
  {
  }

  ghost predicate AllLoad(attachments: seq<Attachment>) {
    forall i :: 0 <= i < |attachments| ==> attachments[i].load == Load
  }

  /** The pass stores every cell it renders to. */
  ghost predicate KeepsAll(attachments: seq<Attachment>) {
    forall c :: c in Cells(attachments) ==> Keeps(attachments, c)
  }

  /** Storing every cell and loading it again leaves the working contents as they were. */
  lemma StoreThenLoad(g: Gpu, right: seq<Attachment>)
    requires g.pass.Inside? && g.pass.working.Keys == Cells(g.pass.attachments)
    requires Cells(g.pass.attachments) == Cells(right) && KeepsAll(g.pass.attachments) && AllLoad(right)
    ensures var images := EndPass(g.images, g.pass.attachments, g.pass.working);
            SameSoFar(g, Gpu(images, Inside(right, BeginPass(images, right))))
  {
    var left := g.pass.attachments;
    var images := EndPass(g.images, left, g.pass.working);
    forall c | c in Cells(right)
      ensures Loaded(right, images, c) == g.pass.working[c]
    {
      AllLoaded(right, images, c);
    }
    assert BeginPass(images, right) == g.pass.working;
    assert images - Cells(left) == g.images - Cells(left);
  }

  // ---- batching a sequence of works ---------------------------------------------------------

  /** What one execution step contributes: a lone backend operation or the operations of lowered 3D work. */
  datatype Item = Single(op: Operation) | Work(ops: seq<Operation>)

  /** The operations gathered so far and where the last, still mergeable, pass begins. */
  datatype Batch = Batch(ops: seq<Operation>, begin: Option<nat>)

  predicate Merges(batch: Batch, ops: seq<Operation>) {
    var next := BatchableRenderPass(ops);
    next.Some? && batch.begin.Some? && batch.begin.value < |batch.ops|
    && RenderPassesCanMerge(batch.ops[batch.begin.value], next.value.0, next.value.1)
  }

  function AppendBatchable(batch: Batch, ops: seq<Operation>): Batch {
    if Merges(batch, ops) then Batch(batch.ops[..|batch.ops| - 1] + ops[1..], batch.begin)
    else Batch(batch.ops + ops, if BatchableRenderPass(ops).Some? then Some(|batch.ops|) else None)
  }

  function AppendItem(batch: Batch, item: Item): Batch {
    match item
    case Single(op) => Batch(batch.ops + [op], None)
    case Work(ops) => AppendBatchable(batch, ops)
  }

  function AppendAll(items: seq<Item>): Batch {
    if items == [] then Batch([], None)
    else AppendItem(AppendAll(items[..|items| - 1]), items[|items| - 1])
  }

  lemma AppendOneMore(items: seq<Item>, item: Item)
    ensures AppendAll(items + [item]) == AppendItem(AppendAll(items), item)
  {
    assert (items + [item])[..|items|] == items;
  }

  function ItemOps(item: Item): seq<Operation> {
    match item
    case Single(op) => [op]
    case Work(ops) => ops
  }

  lemma AppendHoldsOperations(batch: Batch, item: Item)
    requires ItemOps(item) != []
    ensures AppendItem(batch, item).ops != []
  {
    if item.Work? && Merges(batch, item.ops) {
      assert |AppendItem(batch, item).ops| == |batch.ops| - 1 + (|item.ops| - 1);
    }
  }

  /** Merging never empties a batch: the shorter of the two lists it joins still ends the pass. */
  lemma BatchHoldsOperations(items: seq<Item>)
    requires items != [] && ItemOps(items[|items| - 1]) != []
    ensures AppendAll(items).ops != []
  {
    AppendHoldsOperations(AppendAll(items[..|items| - 1]), items[|items| - 1]);
  }

  /** The operations without any merging. */
  function Unmerged(items: seq<Item>): seq<Operation> {
    if items == [] then []
    else Unmerged(items[..|items| - 1]) + ItemOps(items[|items| - 1])
  }

  /** Lowered work is not empty, closes the passes it opens and nests none inside a batchable pass. */
  ghost predicate SoundItem(item: Item) {
    match item
    case Single(op) => op.Command?
    case Work(ops) =>
      && ops != []
      && Bracketed(ops, false)
      && (BatchableRenderPass(ops).Some? ==> NoPassCommands(ops[1..|ops| - 1]))
  }

  ghost predicate SoundItems(items: seq<Item>) {
    forall i :: 0 <= i < |items| ==> SoundItem(items[i])
  }

  /** The last pass of the list begins at `l` and is closed by the last operation. */
  ghost predicate LastPassAt(ops: seq<Operation>, l: nat) {
    && l + 1 < |ops|
    && Bracketed(ops[..l], false)
    && ops[l].Begin?
    && ops[|ops| - 1].End?
    && NoPassCommands(ops[l + 1..|ops| - 1])
  }

  /** The last pass begins at `b` and is closed by its own end. */
  ghost predicate TailPass(ops: seq<Operation>, b: nat) {
    LastPassAt(ops, b) && ops[|ops| - 1] == End(ops[b].pass)
  }

  lemma {:induction false} BracketedConcat(a: seq<Operation>, c: seq<Operation>, open: bool)
    requires Bracketed(a, open) && Bracketed(c, false)
    ensures Bracketed(a + c, open)
  {
    if a == [] {
      assert a + c == c;
    } else {
      assert (a + c)[1..] == a[1..] + c;
      BracketedConcat(a[1..], c, if a[0].Command? then open else a[0].Begin?);
    }
  }

  lemma {:induction false} CommandsThenEnd(body: seq<Operation>, pass: nat)
    requires NoPassCommands(body)
    ensures Bracketed(body + [End(pass)], true)
  {
    if body != [] {
      assert (body + [End(pass)])[1..] == body[1..] + [End(pass)];
      CommandsThenEnd(body[1..], pass);
    }
  }

  lemma TailBracketed(ops: seq<Operation>, b: nat)
    requires TailPass(ops, b)
    ensures Bracketed(ops, false)
  {
    var body := ops[b + 1..|ops| - 1];
    var tail := [ops[b]] + (body + [End(ops[b].pass)]);
    CommandsThenEnd(body, ops[b].pass);
    assert tail[1..] == body + [End(ops[b].pass)];
    BracketedConcat(ops[..b], tail, false);
    assert ops == ops[..b] + tail;
  }

  lemma {:induction false} BracketedEndsOutside(sem: Semantics, g: Gpu, ops: seq<Operation>)
    requires Bracketed(ops, g.pass.Inside?)
    ensures PerformAll(sem, g, ops).pass.Outside?
    decreases |ops|
  {
    if ops != [] {
      assert ops == [ops[0]] + ops[1..];
      PerformFirst(sem, g, ops[0], ops[1..]);
      BracketedEndsOutside(sem, Perform(sem, g, ops[0]), ops[1..]);
    }
  }

  /** Inside a pass, commands keep its attachments and its set of working cells. */
  lemma {:induction false} DrawsStayInside(sem: Semantics, g: Gpu, body: seq<Operation>)
    requires g.pass.Inside? && g.pass.working.Keys == Cells(g.pass.attachments) && NoPassCommands(body)
    ensures var h := PerformAll(sem, g, body);
            && h.images == g.images && h.pass.Inside? && h.pass.attachments == g.pass.attachments
            && h.pass.working.Keys == Cells(g.pass.attachments)
  {
    if body != [] {
      DrawsStayInside(sem, g, body[..|body| - 1]);
    }
  }

  /** Before its last operation, such a list is inside that pass. */
  lemma TailState(sem: Semantics, images: Contents, ops: seq<Operation>, b: nat)
    requires LastPassAt(ops, b)
    ensures var g := PerformAll(sem, Gpu(images, Outside), ops[..|ops| - 1]);
            && g.pass.Inside? && g.pass.attachments == ops[b].attachments
            && g.pass.working.Keys == Cells(g.pass.attachments)
  {
    var start := Gpu(images, Outside);
    var before := PerformAll(sem, start, ops[..b]);
    BracketedEndsOutside(sem, start, ops[..b]);
    DrawsStayInside(sem, Perform(sem, before, ops[b]), ops[b + 1..|ops| - 1]);
    assert ops[..|ops| - 1] == ops[..b] + ([ops[b]] + ops[b + 1..|ops| - 1]);
    PerformConcat(sem, start, ops[..b], [ops[b]] + ops[b + 1..|ops| - 1]);
    PerformFirst(sem, before, ops[b], ops[b + 1..|ops| - 1]);
  }

  lemma SamePassesEnd(sem: Semantics, g: Gpu, h: Gpu, pass: nat, body: seq<Operation>)
    requires SameSoFar(g, h) && NoPassCommands(body)
    requires KeepsAll(g.pass.attachments) && KeepsAll(h.pass.attachments)
    ensures PerformAll(sem, g, body + [End(pass)]) == PerformAll(sem, h, body + [End(pass)])
  {
    PerformLast(sem, g, body, End(pass));
    PerformLast(sem, h, body, End(pass));
    DrawsKeepSame(sem, g, h, body);
    EndsAgree(PerformAll(sem, g, body), PerformAll(sem, h, body));
  }

  /** The heart of merging: dropping a storing End and a loading Begin over the same cells changes nothing. */
  lemma MergeMeaning(sem: Semantics, g: Gpu, last: nat, begin: nat, end: nat, right: seq<Attachment>, body: seq<Operation>)
    requires g.pass.Inside? && g.pass.working.Keys == Cells(g.pass.attachments) && NoPassCommands(body)
    requires Cells(g.pass.attachments) == Cells(right) && KeepsAll(g.pass.attachments)
    requires AllLoad(right) && KeepsAll(right)
    ensures PerformAll(sem, Perform(sem, g, End(last)), [Begin(begin, right)] + (body + [End(end)]))
         == PerformAll(sem, g, body + [End(end)])
  {
    var stored := Perform(sem, g, End(last));
    PerformFirst(sem, stored, Begin(begin, right), body + [End(end)]);
    StoreThenLoad(g, right);
    SamePassesEnd(sem, g, Perform(sem, stored, Begin(begin, right)), end, body);
  }

  /** What the merging rule compares guarantees the conditions of `MergeMeaning`. */
  lemma RuleAllowsMerging(left: seq<Attachment>, right: seq<Attachment>)
    requires |left| == |right| && forall i :: 0 <= i < |right| ==> AttachmentsMerge(left[i], right[i])
    ensures Cells(left) == Cells(right) && KeepsAll(left) && KeepsAll(right) && AllLoad(right)
  {
    MergedCells(left, right);
    forall c
      ensures Keeps(left, c) && Keeps(right, c)
    {
      AllKept(left, c);
      AllKept(right, c);
    }
  }

  // ---- the result for whole batches ---------------------------------------------------------

  ghost predicate SoundBatch(batch: Batch) {
    Bracketed(batch.ops, false) && (batch.begin.Some? ==> TailPass(batch.ops, batch.begin.value))
  }

  lemma JoinedMiddle(xs: seq<Operation>, b: nat, ys: seq<Operation>)
    requires b < |xs| && |ys| > 1
    ensures (xs[..|xs| - 1] + ys[1..])[b..|xs| + |ys| - 3] == xs[b..|xs| - 1] + ys[1..|ys| - 1]
  {
  }

  lemma NoPassCommandsConcat(a: seq<Operation>, c: seq<Operation>)
    requires NoPassCommands(a) && NoPassCommands(c)
    ensures NoPassCommands(a + c)
  {
  }

  lemma MergedTail(batch: Batch, ops: seq<Operation>)
    requires SoundBatch(batch) && SoundItem(Work(ops)) && Merges(batch, ops)
    ensures TailPass(AppendBatchable(batch, ops).ops, batch.begin.value)
  {
    var b := batch.begin.value;
    var merged := AppendBatchable(batch, ops).ops;
    assert merged[..b] == batch.ops[..b];
    JoinedMiddle(batch.ops, b + 1, ops);
    NoPassCommandsConcat(batch.ops[b + 1..|batch.ops| - 1], ops[1..|ops| - 1]);
  }

  lemma FreshTail(batch: Batch, ops: seq<Operation>)
    requires SoundBatch(batch) && SoundItem(Work(ops)) && BatchableRenderPass(ops).Some?
    ensures TailPass(batch.ops + ops, |batch.ops|)
  {
    var both := batch.ops + ops;
    assert both[..|batch.ops|] == batch.ops;
    assert both[|batch.ops| + 1..|both| - 1] == ops[1..|ops| - 1];
  }

  lemma AppendKeepsSound(batch: Batch, item: Item)
    requires SoundBatch(batch) && SoundItem(item)
    ensures SoundBatch(AppendItem(batch, item))
    ensures AppendItem(batch, item).ops != []
  {
    if item.Work? && Merges(batch, item.ops) {
      MergedTail(batch, item.ops);
      TailBracketed(AppendItem(batch, item).ops, batch.begin.value);
    } else {
      assert Bracketed([], false);
      assert item.Single? ==> [item.op][1..] == [];
      BracketedConcat(batch.ops, ItemOps(item), false);
      if item.Work? && BatchableRenderPass(item.ops).Some? {
        FreshTail(batch, item.ops);
      }
    }
  }

  lemma AppendMeaning(sem: Semantics, images: Contents, batch: Batch, item: Item)
    requires SoundBatch(batch) && SoundItem(item)
    ensures PerformAll(sem, Gpu(images, Outside), AppendItem(batch, item).ops)
         == PerformAll(sem, PerformAll(sem, Gpu(images, Outside), batch.ops), ItemOps(item))
  {
    var start := Gpu(images, Outside);
    if item.Work? && Merges(batch, item.ops) {
      MergedAppend(sem, images, batch, item.ops);
    } else {
      PerformConcat(sem, start, batch.ops, ItemOps(item));
    }
  }

  lemma MergedAppend(sem: Semantics, images: Contents, batch: Batch, ops: seq<Operation>)
    requires SoundBatch(batch) && SoundItem(Work(ops)) && Merges(batch, ops)
    ensures PerformAll(sem, Gpu(images, Outside), AppendBatchable(batch, ops).ops)
         == PerformAll(sem, PerformAll(sem, Gpu(images, Outside), batch.ops), ops)
  {
    var start := Gpu(images, Outside);
    var b, n := batch.begin.value, |batch.ops|;
    var body := ops[1..|ops| - 1];
    var pass, right := ops[0].pass, ops[0].attachments;
    TailState(sem, images, batch.ops, b);
    var g := PerformAll(sem, start, batch.ops[..n - 1]);
    assert batch.ops == batch.ops[..n - 1] + [End(pass)];
    PerformLast(sem, start, batch.ops[..n - 1], End(pass));
    assert ops == [Begin(pass, right)] + (body + [End(pass)]);
    RuleAllowsMerging(g.pass.attachments, right);
    MergeMeaning(sem, g, pass, pass, pass, right, body);
    assert ops[1..] == body + [End(pass)];
    PerformConcat(sem, start, batch.ops[..n - 1], body + [End(pass)]);
  }

  lemma AppendCommands(batch: Batch, item: Item)
    requires SoundBatch(batch) && SoundItem(item)
    ensures Commands(AppendItem(batch, item).ops) == Commands(batch.ops) + Commands(ItemOps(item))
  {
    if item.Work? && Merges(batch, item.ops) {
      var ops, n := item.ops, |batch.ops|;
      CommandsConcat(batch.ops[..n - 1], ops[1..]);
      assert ops == [ops[0]] + ops[1..];
      assert [ops[0]][..0] == [];
      CommandsConcat([ops[0]], ops[1..]);
      assert Commands([ops[0]]) == [];
    } else {
      CommandsConcat(batch.ops, ItemOps(item));
    }
  }

  /** Batching any sequence of works keeps the brackets balanced and every command in its order. */
  lemma {:induction false} BatchIsSound(items: seq<Item>)
    requires SoundItems(items)
    ensures SoundBatch(AppendAll(items))
    ensures Commands(AppendAll(items).ops) == Commands(Unmerged(items))
    ensures items != [] ==> AppendAll(items).ops != []
  {
    if items != [] {
      var before, last := items[..|items| - 1], items[|items| - 1];
      BatchIsSound(before);
      AppendKeepsSound(AppendAll(before), last);
      AppendCommands(AppendAll(before), last);
      CommandsConcat(Unmerged(before), ItemOps(last));
    }
  }

  /** Batching any sequence of works leaves every image as the unmerged operations would. */
  lemma {:induction false} BatchMeaning(sem: Semantics, images: Contents, items: seq<Item>)
    requires SoundItems(items)
    ensures PerformAll(sem, Gpu(images, Outside), AppendAll(items).ops)
         == PerformAll(sem, Gpu(images, Outside), Unmerged(items))
  {
    if items != [] {
      var before, last := items[..|items| - 1], items[|items| - 1];
      BatchMeaning(sem, images, before);
      BatchIsSound(before);
      AppendMeaning(sem, images, AppendAll(before), last);
      PerformConcat(sem, Gpu(images, Outside), Unmerged(before), ItemOps(last));
    }
  }
}
