/**
 Where batching joins two works, told from the two neighbouring works alone, and what the batched list
 then is: the works' own operations without the end and the begin between joined neighbours.
 */
module BatchBoundaries {
  import opened Primitives
  import opened RenderPasses

  /** The item begins with the begin of a render pass and ends with the end of the same pass. */
  ghost predicate OnePass(item: Item) {
    item.Work? && |item.ops| >= 2 && item.ops[0].Begin? && item.ops[|item.ops| - 1] == End(item.ops[0].pass)
  }

  /** The second attachment takes over, unchanged, what the first one stores. */
  ghost predicate TakesOver(left: Attachment, right: Attachment) {
    && (left.image, left.subresources) == (right.image, right.subresources)
    && (left.kind, left.format, left.samples) == (right.kind, right.format, right.samples)
    && left.store == Store
    && right.load == Load
    && right.store == Store
  }

  /** Two neighbours are one pass on the same attachments, stored by the first and loaded by the second. */
  ghost predicate Join(a: Item, b: Item) {
    && OnePass(a) && OnePass(b)
    && a.ops[0].pass == b.ops[0].pass
    && |a.ops[0].attachments| == |b.ops[0].attachments|
    && forall i :: 0 <= i < |a.ops[0].attachments| ==> TakesOver(a.ops[0].attachments[i], b.ops[0].attachments[i])
  }

  ghost predicate JoinsLast(items: seq<Item>) {
    |items| > 1 && Join(items[|items| - 2], items[|items| - 1])
  }

  /** The works one after another, without the end and the begin between neighbours that join. */
  ghost function Stitched(items: seq<Item>): seq<Operation> {
    if items == [] then []
    else
      var before, last := Stitched(items[..|items| - 1]), items[|items| - 1];
      if JoinsLast(items) && before != [] then before[..|before| - 1] + last.ops[1..]
      else before + ItemOps(last)
  }

  /** How many neighbours join. */
  ghost function Joints(items: seq<Item>): nat {
    if items == [] then 0 else Joints(items[..|items| - 1]) + if JoinsLast(items) then 1 else 0
  }

  /** Equal in everything but what is done on loading. */
  ghost predicate SameButLoad(left: seq<Attachment>, right: seq<Attachment>) {
    |left| == |right| && forall i :: 0 <= i < |left| ==> left[i].(load := right[i].load) == right[i]
  }

  /** The batch still remembers a pass exactly when the last item is one, and as that pass. */
  ghost predicate Remembers(batch: Batch, items: seq<Item>) {
    && (batch.begin.Some? <==> items != [] && OnePass(items[|items| - 1]))
    && (batch.begin.Some? ==>
          && batch.begin.value + 1 < |batch.ops|
          && batch.ops[batch.begin.value].Begin?
          && var last := items[|items| - 1].ops[0];
             && batch.ops[batch.begin.value].pass == last.pass
             && SameButLoad(batch.ops[batch.begin.value].attachments, last.attachments))
  }

  lemma BatchableIsOnePass(ops: seq<Operation>)
    ensures BatchableRenderPass(ops).Some? <==> OnePass(Work(ops))
    ensures OnePass(Work(ops)) ==> BatchableRenderPass(ops) == Some((ops[0].pass, ops[0].attachments))
  {
  }

  /** The rule against the remembered begin is the rule against the neighbour. */
  lemma MergesAreJoins(batch: Batch, items: seq<Item>, ops: seq<Operation>)
    requires Remembers(batch, items)
    ensures Merges(batch, ops) <==> JoinsLast(items + [Work(ops)])
  {
    BatchableIsOnePass(ops);
    if batch.begin.Some? && OnePass(Work(ops)) {
      var first, last, next := batch.ops[batch.begin.value].attachments, items[|items| - 1].ops[0].attachments, ops[0].attachments;
      forall i | 0 <= i < |first| && |first| == |next|
        ensures AttachmentsMerge(first[i], next[i]) <==> TakesOver(last[i], next[i])
      {
        assert first[i].(load := last[i].load) == last[i];
      }
    }
  }

  lemma MergedRemembers(batch: Batch, items: seq<Item>, ops: seq<Operation>)
    requires Remembers(batch, items) && Merges(batch, ops)
    ensures Remembers(AppendItem(batch, Work(ops)), items + [Work(ops)])
  {
    MergesAreJoins(batch, items, ops);
    var first, last, next := batch.ops[batch.begin.value].attachments, items[|items| - 1].ops[0].attachments, ops[0].attachments;
    forall i | 0 <= i < |first|
      ensures first[i].(load := next[i].load) == next[i]
    {
      assert TakesOver(last[i], next[i]);
      assert first[i].(load := last[i].load) == last[i];
    }
    BatchableIsOnePass(ops);
  }

  lemma AppendRemembers(batch: Batch, items: seq<Item>, item: Item)
    requires Remembers(batch, items)
    ensures Remembers(AppendItem(batch, item), items + [item])
  {
    if item.Work? {
      BatchableIsOnePass(item.ops);
      if Merges(batch, item.ops) {
        MergedRemembers(batch, items, item.ops);
      }
    }
  }

  lemma StitchOneMore(items: seq<Item>, item: Item)
    ensures Stitched(items + [item]) ==
              if JoinsLast(items + [item]) && Stitched(items) != []
              then Stitched(items)[..|Stitched(items)| - 1] + item.ops[1..]
              else Stitched(items) + ItemOps(item)
  {
    assert (items + [item])[..|items|] == items;
  }

  lemma AppendStitches(batch: Batch, items: seq<Item>, item: Item)
    requires Remembers(batch, items) && batch.ops == Stitched(items)
    ensures AppendItem(batch, item).ops == Stitched(items + [item])
  {
    StitchOneMore(items, item);
    if item.Work? {
      MergesAreJoins(batch, items, item.ops);
    }
  }

  /** The batched operations are the works stitched together at the neighbours that join, and only there. */
  lemma {:induction false} BatchIsStitched(items: seq<Item>)
    ensures AppendAll(items).ops == Stitched(items)
    ensures Remembers(AppendAll(items), items)
  {
    if items != [] {
      var before, last := items[..|items| - 1], items[|items| - 1];
      BatchIsStitched(before);
      assert items == before + [last];
      AppendRemembers(AppendAll(before), before, last);
      AppendStitches(AppendAll(before), before, last);
    }
  }

  /** Batching drops two operations for each joined pair of neighbours and nothing else. */
  lemma {:induction false} BatchLength(items: seq<Item>)
    ensures |AppendAll(items).ops| + 2 * Joints(items) == |Unmerged(items)|
  {
    if items != [] {
      var n := |items| - 1;
      BatchLength(items[..n]);
      BatchIsStitched(items[..n]);
      BatchIsStitched(items);
    }
  }

  lemma PairStitched(items: seq<Item>)
    requires |items| == 2 && OnePass(items[0]) && OnePass(items[1])
    ensures Stitched(items) ==
              if Join(items[0], items[1]) then items[0].ops[..|items[0].ops| - 1] + items[1].ops[1..]
              else items[0].ops + items[1].ops
  {
    OneStitched(items[0]);
    assert items[..1] == [items[0]];
    assert JoinsLast(items) <==> Join(items[0], items[1]);
  }

  lemma OneStitched(a: Item)
    ensures Stitched([a]) == ItemOps(a)
  {
    StitchOneMore([], a);
    assert [] + [a] == [a];
    assert [] + ItemOps(a) == ItemOps(a);
  }

  lemma JoinedOperations(pass: nat, left: seq<Attachment>, first: seq<Operation>, right: seq<Attachment>, second: seq<Operation>)
    ensures var a := [Begin(pass, left)] + first + [End(pass)];
            var b := [Begin(pass, right)] + second + [End(pass)];
            a[..|a| - 1] + b[1..] == [Begin(pass, left)] + first + second + [End(pass)]
  {
  }

  /** Two one-pass works become one pass exactly when they join; otherwise they stay as they are. */
  lemma TwoWorks(pass: nat, left: seq<Attachment>, first: seq<Operation>, other: nat, right: seq<Attachment>, second: seq<Operation>)
    ensures var a := [Begin(pass, left)] + first + [End(pass)];
            var b := [Begin(other, right)] + second + [End(other)];
            AppendAll([Work(a), Work(b)]).ops ==
              if pass == other && |left| == |right| && forall i :: 0 <= i < |left| ==> TakesOver(left[i], right[i])
              then [Begin(pass, left)] + first + second + [End(pass)]
              else a + b
  {
    var a := Work([Begin(pass, left)] + first + [End(pass)]);
    var b := Work([Begin(other, right)] + second + [End(other)]);
    BatchIsStitched([a, b]);
    PairStitched([a, b]);
    JoinedOperations(pass, left, first, right, second);
  }
}
