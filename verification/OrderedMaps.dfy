/**
 Ordered traversal of a map keyed by numbers.

 The source keeps reservations, mappings and native ranges in B-tree maps. A Dafny map has no
 order, so the two ordered queries the source relies on, in-order traversal and predecessor
 lookup, are provided here.
 */
module OrderedMaps {
  import opened Primitives

  ghost predicate Ascending(ks: seq<nat>) {
    forall i, j :: 0 <= i < j < |ks| ==> ks[i] < ks[j]
  }

  /** `ks` lists exactly the keys of `m`, in ascending order. */
  ghost predicate ListsKeys<V>(ks: seq<nat>, m: map<nat, V>) {
    Ascending(ks) && forall k :: k in ks <==> k in m
  }

  lemma LeastExists(keys: set<nat>) returns (least: nat)
    requires keys != {}
    ensures least in keys && forall k :: k in keys ==> least <= k
  {
    var k :| k in keys;
    if keys == {k} {
      least := k;
    } else {
      var rest := LeastExists(keys - {k});
      assert keys == (keys - {k}) + {k};
      least := if rest < k then rest else k;
    }
  }

  method OrderedKeys<V>(m: map<nat, V>) returns (ks: seq<nat>)
    ensures ListsKeys(ks, m)
  {
    ks := [];
    var left := m.Keys;
    while left != {}
      invariant Ascending(ks)
      invariant forall k :: k in m <==> k in ks || k in left
      invariant forall i, k :: 0 <= i < |ks| && k in left ==> ks[i] < k
      decreases |left|
    {
      ghost var least := LeastExists(left);
      var k :| k in left && forall j :: j in left ==> k <= j;
      ks := ks + [k];
      left := left - {k};
    }
  }

  /** The greatest key at or below `bound`, as a B-tree's `range(..=bound).next_back()` finds it. */
  method FloorKey<V>(m: map<nat, V>, bound: nat) returns (r: Option<nat>)
    ensures r.None? <==> forall k :: k in m ==> k > bound
    ensures r.Some? ==> r.value in m && r.value <= bound
    ensures r.Some? ==> forall k :: k in m && k <= bound ==> k <= r.value
  {
    r := None;
    var left := m.Keys;
    while left != {}
      invariant left <= m.Keys
      invariant r.None? ==> forall k :: k in m && k !in left ==> k > bound
      invariant r.Some? ==> r.value in m && r.value <= bound
      invariant r.Some? ==> forall k :: k in m && k !in left && k <= bound ==> k <= r.value
      decreases |left|
    {
      var k :| k in left;
      left := left - {k};
      if k <= bound && (r.None? || r.value < k) {
        r := Some(k);
      }
    }
  }

  /** The least key at or above `bound`, as a B-tree's `range(bound..).next()` finds it. */
  method CeilingKey<V>(m: map<nat, V>, bound: nat) returns (r: Option<nat>)
    ensures r.None? <==> forall k :: k in m ==> k < bound
    ensures r.Some? ==> r.value in m && r.value >= bound
    ensures r.Some? ==> forall k :: k in m && k >= bound ==> k >= r.value
  {
    r := None;
    var left := m.Keys;
    while left != {}
      invariant left <= m.Keys
      invariant r.None? ==> forall k :: k in m && k !in left ==> k < bound
      invariant r.Some? ==> r.value in m && r.value >= bound
      invariant r.Some? ==> forall k :: k in m && k !in left && k >= bound ==> k >= r.value
      decreases |left|
    {
      var k :| k in left;
      left := left - {k};
      if k >= bound && (r.None? || k < r.value) {
        r := Some(k);
      }
    }
  }
}
