/** The two-part cache of compiled pipeline variants and the plain LRU cache it implements. */
module PipelineCache {
  import opened Primitives

  datatype Compiled = Compiled(pipeline: nat, serial: nat)

  datatype Cached = Cached(compiled: Compiled, lastUsed: nat)

  // ---- the reference ------------------------------------------------------------------------

  /** A plain LRU cache: its entries and their fingerprints from least to most recently used. */
  datatype Lru = Lru(entries: map<nat, Compiled>, order: seq<nat>)

  function Without(order: seq<nat>, k: nat): seq<nat> {
    if order == [] then []
    else if order[0] == k then order[1..]
    else [order[0]] + Without(order[1..], k)
  }

  function LruTouch(l: Lru, k: nat): Lru {
    if k in l.entries then l.(order := Without(l.order, k) + [k]) else l
  }

  function LruInsert(l: Lru, k: nat, compiled: Compiled, capacity: nat): Lru {
    if |l.order| == capacity && l.order != [] then
      Lru((l.entries - {l.order[0]})[k := compiled], l.order[1..] + [k])
    else Lru(l.entries[k := compiled], l.order + [k])
  }

  /** A lookup that compiles on a miss; a failed compilation leaves the cache alone. */
  function LruRequest(l: Lru, k: nat, compiled: Option<Compiled>, capacity: nat): Lru {
    if k in l.entries then LruTouch(l, k)
    else if compiled.Some? then LruInsert(l, k, compiled.value, capacity)
    else l
  }

  function LruRun(l: Lru, requests: seq<(nat, Option<Compiled>)>, capacity: nat): Lru {
    if requests == [] then l
    else
      var last := requests[|requests| - 1];
      LruRequest(LruRun(l, requests[..|requests| - 1], capacity), last.0, last.1, capacity)
  }

  // ---- recency order and use stamps ---------------------------------------------------------

  ghost predicate Distinct(order: seq<nat>) {
    forall i, j :: 0 <= i < j < |order| ==> order[i] != order[j]
  }

  /** `order` lists the keys of `m` by increasing use stamp. */
  ghost predicate ByUse(order: seq<nat>, m: map<nat, Cached>) {
    && (forall k :: k in order <==> k in m)
    && (forall i, j :: 0 <= i < j < |order| ==> m[order[i]].lastUsed < m[order[j]].lastUsed)
  }

  lemma {:induction false} WithoutContents(order: seq<nat>, k: nat)
    requires Distinct(order)
    ensures forall x :: x in Without(order, k) <==> x in order && x != k
    ensures |Without(order, k)| == if k in order then |order| - 1 else |order|
  {
    if order != [] && order[0] != k {
      WithoutContents(order[1..], k);
    }
  }

  lemma ByUseDistinct(order: seq<nat>, m: map<nat, Cached>)
    requires ByUse(order, m)
    ensures Distinct(order)
  {
  }

  /** Dropping a key keeps the others in their order. */
  lemma {:induction false} WithoutKeepsOrder(order: seq<nat>, m: map<nat, Cached>, k: nat, i: nat, j: nat)
    requires (forall x :: x in order ==> x in m) && i < j < |Without(order, k)|
    requires forall i, j :: 0 <= i < j < |order| ==> m[order[i]].lastUsed < m[order[j]].lastUsed
    ensures Without(order, k)[i] in m && Without(order, k)[j] in m
    ensures m[Without(order, k)[i]].lastUsed < m[Without(order, k)[j]].lastUsed
    decreases |order|
  {
    if order[0] != k {
      if i > 0 {
        WithoutKeepsOrder(order[1..], m, k, i - 1, j - 1);
      } else {
        WithoutIsSubset(order[1..], k, j - 1);
        LaterIsYounger(order, m, Without(order[1..], k)[j - 1]);
      }
    }
  }

  lemma LaterIsYounger(order: seq<nat>, m: map<nat, Cached>, x: nat)
    requires order != [] && (forall x :: x in order ==> x in m) && x in order[1..]
    requires forall i, j :: 0 <= i < j < |order| ==> m[order[i]].lastUsed < m[order[j]].lastUsed
    ensures x in m && m[order[0]].lastUsed < m[x].lastUsed
  {
    var n :| 0 <= n < |order[1..]| && order[1..][n] == x;
    assert order[n + 1] == x;
  }

  lemma {:induction false} WithoutIsSubset(order: seq<nat>, k: nat, i: nat)
    requires i < |Without(order, k)|
    ensures Without(order, k)[i] in order
  {
    if order[0] != k && i > 0 {
      WithoutIsSubset(order[1..], k, i - 1);
    }
  }

  /** Restamping a key with the newest use moves it to the end of the order. */
  lemma TouchKeepsByUse(order: seq<nat>, m: map<nat, Cached>, k: nat, stamped: Cached)
    requires ByUse(order, m) && k in m && forall x :: x in m ==> m[x].lastUsed < stamped.lastUsed
    ensures ByUse(Without(order, k) + [k], m[k := stamped])
    ensures |Without(order, k) + [k]| == |order|
  {
    var rest := Without(order, k);
    ByUseDistinct(order, m);
    WithoutContents(order, k);
    forall i, j | 0 <= i < j < |rest|
      ensures m[rest[i]].lastUsed < m[rest[j]].lastUsed
    {
      WithoutKeepsOrder(order, m, k, i, j);
    }
  }

  lemma InsertKeepsByUse(order: seq<nat>, m: map<nat, Cached>, k: nat, added: Cached)
    requires ByUse(order, m) && k !in m && forall x :: x in m ==> m[x].lastUsed < added.lastUsed
    ensures ByUse(order + [k], m[k := added])
  {
  }

  lemma EvictKeepsByUse(order: seq<nat>, m: map<nat, Cached>)
    requires ByUse(order, m) && order != []
    ensures ByUse(order[1..], m - {order[0]})
  {
    ByUseDistinct(order, m);
    assert forall x :: x in order <==> x == order[0] || x in order[1..];
  }

  lemma {:induction false} OrderCounts(order: seq<nat>, keys: set<nat>)
    requires Distinct(order) && forall k :: k in order <==> k in keys
    ensures |order| == |keys|
  {
    if order != [] {
      assert forall k :: k in order <==> k == order[0] || k in order[1..];
      OrderCounts(order[1..], keys - {order[0]});
    }
  }

  /** The plain LRU cache that stamped contents in use order stand for. */
  ghost function ViewOf(m: map<nat, Cached>, order: seq<nat>): Lru {
    Lru(map k | k in m :: m[k].compiled, order)
  }

  ghost predicate Stamped(m: map<nat, Cached>, now: nat) {
    forall k :: k in m ==> m[k].lastUsed < now
  }

  lemma TouchRefines(order: seq<nat>, m: map<nat, Cached>, k: nat, now: nat)
    requires ByUse(order, m) && k in m && Stamped(m, now)
    ensures var m' := m[k := m[k].(lastUsed := now)];
            var order' := Without(order, k) + [k];
            && ByUse(order', m') && |order'| == |order| && Stamped(m', now + 1)
            && ViewOf(m', order') == LruTouch(ViewOf(m, order), k)
  {
    TouchKeepsByUse(order, m, k, m[k].(lastUsed := now));
  }

  lemma InsertRefines(order: seq<nat>, m: map<nat, Cached>, k: nat, added: Cached, capacity: nat)
    requires ByUse(order, m) && k !in m && Stamped(m, added.lastUsed) && |order| < capacity
    ensures ByUse(order + [k], m[k := added]) && Stamped(m[k := added], added.lastUsed + 1)
    ensures ViewOf(m[k := added], order + [k]) == LruInsert(ViewOf(m, order), k, added.compiled, capacity)
  {
    InsertKeepsByUse(order, m, k, added);
  }

  lemma EvictRefines(order: seq<nat>, m: map<nat, Cached>, k: nat, added: Cached, capacity: nat)
    requires ByUse(order, m) && k !in m && Stamped(m, added.lastUsed) && |order| == capacity > 0
    ensures var m' := (m - {order[0]})[k := added];
            var order' := order[1..] + [k];
            && ByUse(order', m') && Stamped(m', added.lastUsed + 1)
            && ViewOf(m', order') == LruInsert(ViewOf(m, order), k, added.compiled, capacity)
  {
    EvictedByUse(order, m, k, added);
    EvictedView(order, m, k, added, capacity);
  }

  lemma EvictedView(order: seq<nat>, m: map<nat, Cached>, k: nat, added: Cached, capacity: nat)
    requires |order| == capacity > 0
    ensures ViewOf((m - {order[0]})[k := added], order[1..] + [k]) == LruInsert(ViewOf(m, order), k, added.compiled, capacity)
  {
  }

  lemma EvictedByUse(order: seq<nat>, m: map<nat, Cached>, k: nat, added: Cached)
    requires ByUse(order, m) && k !in m && Stamped(m, added.lastUsed) && order != []
    ensures ByUse(order[1..] + [k], (m - {order[0]})[k := added])
  {
    EvictKeepsByUse(order, m);
    InsertKeepsByUse(order[1..], m - {order[0]}, k, added);
  }

  lemma LeastIsFirst(order: seq<nat>, m: map<nat, Cached>, k: nat)
    requires ByUse(order, m) && k in m && forall x :: x in m ==> m[k].lastUsed <= m[x].lastUsed
    ensures order != [] && order[0] == k
  {
    var i :| 0 <= i < |order| && order[i] == k;
    assert order[0] in m;
  }

  lemma OrderIsAllKeys(order: seq<nat>, m: map<nat, Cached>)
    requires ByUse(order, m)
    ensures |order| == |m|
  {
    ByUseDistinct(order, m);
    OrderCounts(order, m.Keys);
    assert |m.Keys| == |m|;
  }

  // ---- the cache ----------------------------------------------------------------------------

  /** The key with the smallest use stamp. */
  method LeastRecent(records: map<nat, Cached>) returns (k: nat)
    requires records != map[]
    ensures k in records && forall x :: x in records ==> records[k].lastUsed <= records[x].lastUsed
  {
    k :| k in records;
    var left := records.Keys - {k};
    while left != {}
      invariant left <= records.Keys && k in records
      invariant forall x :: x in records && x !in left ==> records[k].lastUsed <= records[x].lastUsed
      decreases |left|
    {
      var x :| x in left;
      left := left - {x};
      if records[x].lastUsed < records[k].lastUsed {
        k := x;
      }
    }
  }

  class RenderPipelineCache {
    const capacity: nat
    var records: map<nat, Cached>
    var current: Option<(nat, Cached)>
    var nextUse: nat
    ghost var order: seq<nat>

    /** Both parts together. */
    ghost function Contents(): map<nat, Cached>
      reads this
    {
      if current.Some? then records[current.value.0 := current.value.1] else records
    }

    ghost predicate Valid()
      reads this
    {
      && capacity > 0
      && (current.Some? ==> current.value.0 !in records)
      && ByUse(order, Contents())
      && |order| <= capacity
      && Stamped(Contents(), nextUse)
    }

    /** The plain LRU cache this cache stands for. */
    ghost function View(): Lru
      reads this
    {
      ViewOf(Contents(), order)
    }

    constructor (capacity: nat)
      requires capacity > 0
      ensures Valid() && View() == Lru(map[], []) && this.capacity == capacity
    {
      this.capacity := capacity;
      records := map[];
      current := None;
      nextUse := 0;
      order := [];
    }

    /** Looks a fingerprint up and makes it current; a miss puts the current entry back. */
    method Touch(k: nat, now: nat) returns (r: Option<Compiled>)
      requires Valid() && now + 1 == nextUse && Stamped(Contents(), now)
      modifies this
      ensures Valid() && nextUse == old(nextUse)
      ensures View() == LruTouch(old(View()), k)
      ensures r.Some? <==> k in old(Contents())
      ensures r.Some? ==> r.value == old(Contents())[k].compiled
      ensures r.None? ==> current.None? && Contents() == old(Contents())
    {
      if current.Some? && current.value.0 == k {
        var compiled := RestampCurrent(now);
        return Some(compiled);
      }
      PutBack();
      if k !in records {
        return None;
      }
      var compiled := Promote(k, now);
      return Some(compiled);
    }

    method RestampCurrent(now: nat) returns (compiled: Compiled)
      requires Valid() && current.Some? && now + 1 == nextUse && Stamped(Contents(), now)
      modifies this`current, this`order
      ensures Valid() && View() == LruTouch(old(View()), old(current).value.0)
      ensures compiled == old(current).value.1.compiled
    {
      ghost var before, k := Contents(), current.value.0;
      TouchRefines(order, before, k, now);
      current := Some((current.value.0, current.value.1.(lastUsed := now)));
      order := Without(order, k) + [k];
      assert Contents() == before[k := before[k].(lastUsed := now)];
      compiled := current.value.1.compiled;
    }

    method Promote(k: nat, now: nat) returns (compiled: Compiled)
      requires Valid() && current.None? && k in records && now + 1 == nextUse && Stamped(Contents(), now)
      modifies this`records, this`current, this`order
      ensures Valid() && View() == LruTouch(old(View()), k)
      ensures compiled == old(records)[k].compiled
    {
      ghost var before := records;
      TouchRefines(order, before, k, now);
      current := Some((k, records[k].(lastUsed := now)));
      records := records - {k};
      order := Without(order, k) + [k];
      assert Contents() == before[k := before[k].(lastUsed := now)];
      compiled := current.value.1.compiled;
    }

    /** Moves the current entry, if any, into the side map. */
    method PutBack()
      requires Valid()
      modifies this`records, this`current
      ensures Valid() && current.None? && records == old(Contents())
    {
      if current.Some? {
        records := records[current.value.0 := current.value.1];
        current := None;
      }
    }

    method InsertFresh(k: nat, added: Cached)
      requires Valid() && current.None? && k !in records && |order| < capacity
      requires added.lastUsed + 1 == nextUse && Stamped(records, added.lastUsed)
      modifies this`current, this`order
      ensures Valid() && View() == LruInsert(old(View()), k, added.compiled, capacity)
    {
      InsertRefines(order, records, k, added, capacity);
      current := Some((k, added));
      order := order + [k];
    }

    method InsertOver(victim: nat, k: nat, added: Cached)
      requires Valid() && current.None? && k !in records && |order| == capacity && victim == order[0]
      requires added.lastUsed + 1 == nextUse && Stamped(records, added.lastUsed)
      modifies this`records, this`current, this`order
      ensures Valid() && View() == LruInsert(old(View()), k, added.compiled, capacity)
    {
      EvictRefines(order, records, k, added, capacity);
      records := records - {victim};
      current := Some((k, added));
      order := order[1..] + [k];
    }

    /** Adds a compiled variant after a miss, evicting the least recently used entry of the whole cache when full. */
    method Insert(k: nat, compiled: Compiled, now: nat) returns (evicted: Option<(nat, nat)>)
      requires Valid() && current.None? && k !in records
      requires now + 1 == nextUse && Stamped(Contents(), now)
      modifies this
      ensures Valid() && nextUse == old(nextUse)
      ensures View() == LruInsert(old(View()), k, compiled, capacity)
      ensures evicted.Some? <==> |old(order)| == capacity
      ensures evicted.Some? ==> evicted.value == (old(order)[0], old(Contents())[old(order)[0]].compiled.serial)
    {
      OrderIsAllKeys(order, records);
      if |records| == capacity {
        var victim := LeastRecent(records);
        LeastIsFirst(order, records, victim);
        evicted := Some((victim, records[victim].compiled.serial));
        InsertOver(victim, k, Cached(compiled, now));
      } else {
        InsertFresh(k, Cached(compiled, now));
        evicted := None;
      }
    }

    /** Serves a request: a hit returns the stored variant, a miss stores the one compiled for it, if that succeeds. */
    method Prepare(k: nat, compiled: Option<Compiled>) returns (r: Option<Compiled>)
      requires Valid()
      modifies this
      ensures Valid()
      ensures View() == LruRequest(old(View()), k, compiled, capacity)
      ensures r == if k in old(View()).entries then Some(old(View()).entries[k]) else compiled
      ensures |View().order| <= capacity
    {
      var now := nextUse;
      nextUse := nextUse + 1;
      var hit := Touch(k, now);
      if hit.Some? || compiled.None? {
        return hit;
      }
      var evicted := Insert(k, compiled.value, now);
      return compiled;
    }

    /** Any sequence of requests leaves exactly what the plain LRU cache would hold. */
    method PrepareAll(requests: seq<(nat, Option<Compiled>)>)
      requires Valid()
      modifies this
      ensures Valid()
      ensures View() == LruRun(old(View()), requests, capacity)
    {
      for i := 0 to |requests|
        invariant Valid()
        invariant View() == LruRun(old(View()), requests[..i], capacity)
      {
        assert requests[..i + 1][..i] == requests[..i];
        var prepared := Prepare(requests[i].0, requests[i].1);
      }
      assert requests[..|requests|] == requests;
    }
  }
}
