/**
  Python's `dict` as the checker and the front end use it: a finite map whose
  iteration order is the order in which keys were first inserted. Assigning to
  a key that is already present replaces its value and keeps its position.
*/
module Dicts {

  datatype Dict<K(==, !new), V> = Dict(order: seq<K>, entries: map<K, V>) {

    /** Each key appears once in the order, the order lists only keys, and as many as there are. */
    ghost predicate Valid() {
      && (forall i, j :: 0 <= i < j < |order| ==> order[i] != order[j])
      && (forall i :: 0 <= i < |order| ==> order[i] in entries)
      && |entries| == |order|
    }

    /** `d[k] = v`. */
    function Put(k: K, v: V): (d: Dict<K, V>)
      ensures Valid() ==> d.Valid()
      ensures d.entries == entries[k := v]
      ensures d.order == if k in entries then order else order + [k]
    {
      Dict(if k in entries then order else order + [k], entries[k := v])
    }

    /** `d.items()`: every entry exactly once, in insertion order. */
    function Items(): (items: seq<(K, V)>)
      requires Valid()
      ensures |items| == |entries|
      ensures forall i :: 0 <= i < |items| ==> items[i].0 == order[i]
      ensures forall i :: 0 <= i < |items| ==> items[i].0 in entries && entries[items[i].0] == items[i].1
      ensures forall i, j :: 0 <= i < j < |items| ==> items[i].0 != items[j].0
      ensures forall k :: k in entries ==> exists i :: 0 <= i < |items| && items[i].0 == k
    {
      var items := seq(|order|, i requires 0 <= i < |order| => (order[i], entries[order[i]]));
      OrderCoversKeys(this);
      assert forall i :: 0 <= i < |order| ==> items[i].0 == order[i];
      items
    }
  }

  /** A valid dict's order lists every key: the distinct keys it lists are as many as the map holds. */
  lemma OrderCoversKeys<K(!new), V>(d: Dict<K, V>)
    requires d.Valid()
    ensures forall k :: k in d.entries ==> k in d.order
  {
    var listed := set k | k in d.order;
    DistinctCardinality(d.order);
    assert listed <= d.entries.Keys;
    assert listed + d.entries.Keys == d.entries.Keys && listed * d.entries.Keys == listed;
    assert |d.entries.Keys| == |d.entries|;
    assert |d.entries.Keys - listed| == 0;
  }

  lemma {:induction false} DistinctCardinality<K>(s: seq<K>)
    requires forall i, j :: 0 <= i < j < |s| ==> s[i] != s[j]
    ensures |set k | k in s| == |s|
  {
    if s != [] {
      var n := |s| - 1;
      DistinctCardinality(s[..n]);
      assert (set k | k in s) == (set k | k in s[..n]) + {s[n]};
      assert s[n] !in (set k | k in s[..n]);
    }
  }

  /** `{}`. */
  function Empty<K(==, !new), V>(): (d: Dict<K, V>)
    ensures d.Valid() && d.entries == map[]
  {
    Dict([], map[])
  }

  /** The dict built by `d[keys[i]] = values[i]` for i = 0, 1, ... in turn, starting from `{}`. */
  function Assign<K(==, !new), V>(keys: seq<K>, values: seq<V>): Dict<K, V>
    requires |keys| == |values|
    decreases |keys|
  {
    if keys == [] then
      Empty()
    else
      var n := |keys| - 1;
      Assign(keys[..n], values[..n]).Put(keys[n], values[n])
  }

  /** Building a dict by assignments keeps it well formed. */
  lemma {:induction false} AssignValid<K(!new), V>(keys: seq<K>, values: seq<V>)
    requires |keys| == |values|
    ensures Assign(keys, values).Valid()
  {
    if keys != [] {
      var n := |keys| - 1;
      AssignValid(keys[..n], values[..n]);
    }
  }

  /** One more assignment extends the built dict by one `Put`. */
  lemma AssignStep<K(!new), V>(keys: seq<K>, values: seq<V>, i: nat)
    requires |keys| == |values| && i < |keys|
    ensures Assign(keys[..i + 1], values[..i + 1]) == Assign(keys[..i], values[..i]).Put(keys[i], values[i])
  {
    assert keys[..i + 1][..i] == keys[..i] && values[..i + 1][..i] == values[..i];
  }

  /** Every entry of the built dict was put there by one of the assignments. */
  lemma {:induction false} AssignedFrom<K(!new), V>(keys: seq<K>, values: seq<V>, k: K) returns (i: nat)
    requires |keys| == |values| && k in Assign(keys, values).entries
    ensures i < |keys| && keys[i] == k && Assign(keys, values).entries[k] == values[i]
  {
    var n := |keys| - 1;
    if keys[n] == k {
      i := n;
    } else {
      i := AssignedFrom(keys[..n], values[..n], k);
    }
  }

  /** The keys of the built dict are exactly the keys that were assigned. */
  lemma {:induction false} AssignDomain<K(!new), V>(keys: seq<K>, values: seq<V>)
    requires |keys| == |values|
    ensures forall k :: k in Assign(keys, values).entries <==> k in keys
  {
    if keys != [] {
      var n := |keys| - 1;
      AssignDomain(keys[..n], values[..n]);
      assert forall k :: k in keys <==> k in keys[..n] || k == keys[n];
    }
  }

  /** A key holds the value of its last assignment. */
  lemma {:induction false} AssignLastWins<K(!new), V>(keys: seq<K>, values: seq<V>, i: int)
    requires |keys| == |values| && 0 <= i < |keys|
    requires forall j :: i < j < |keys| ==> keys[j] != keys[i]
    ensures keys[i] in Assign(keys, values).entries
    ensures Assign(keys, values).entries[keys[i]] == values[i]
  {
    var n := |keys| - 1;
    if i < n {
      AssignLastWins(keys[..n], values[..n], i);
      assert Assign(keys, values).entries == Assign(keys[..n], values[..n]).entries[keys[n] := values[n]];
    }
  }

  /** The index of the first occurrence of `x` in `s`. */
  function FirstIndex<K(==)>(s: seq<K>, x: K): (r: nat)
    requires x in s
    ensures r < |s| && s[r] == x
    ensures forall j :: 0 <= j < r ==> s[j] != x
  {
    if s[0] == x then 0 else 1 + FirstIndex(s[1..], x)
  }

  lemma FirstIndexOfPrefix<K>(s: seq<K>, n: nat, x: K)
    requires n <= |s| && x in s[..n]
    ensures FirstIndex(s, x) == FirstIndex(s[..n], x)
  {
    var r, r' := FirstIndex(s, x), FirstIndex(s[..n], x);
    assert s[r'] == x;
    assert r < n ==> s[..n][r] == x;
  }

  /** Iteration visits the keys in the order of their first assignment. */
  lemma {:induction false} AssignFirstSeenOrder<K(!new), V>(keys: seq<K>, values: seq<V>)
    requires |keys| == |values|
    ensures forall i :: 0 <= i < |Assign(keys, values).order| ==> Assign(keys, values).order[i] in keys
    ensures forall i, j :: 0 <= i < j < |Assign(keys, values).order| ==>
      FirstIndex(keys, Assign(keys, values).order[i]) < FirstIndex(keys, Assign(keys, values).order[j])
  {
    if keys != [] {
      var n := |keys| - 1;
      var prev := Assign(keys[..n], values[..n]);
      AssignFirstSeenOrder(keys[..n], values[..n]);
      AssignDomain(keys[..n], values[..n]);
      forall i | 0 <= i < |prev.order|
        ensures FirstIndex(keys, prev.order[i]) == FirstIndex(keys[..n], prev.order[i])
      {
        FirstIndexOfPrefix(keys, n, prev.order[i]);
      }
      if keys[n] !in prev.entries {
        assert keys[n] !in keys[..n];
        assert FirstIndex(keys, keys[n]) == n;
      }
    }
  }

  /** Assigning distinct keys collapses nothing: the keys are iterated in assignment order. */
  lemma {:induction false} AssignDistinct<K(!new), V>(keys: seq<K>, values: seq<V>)
    requires |keys| == |values|
    requires forall i, j :: 0 <= i < j < |keys| ==> keys[i] != keys[j]
    ensures Assign(keys, values).order == keys
  {
    if keys != [] {
      var n := |keys| - 1;
      AssignDistinct(keys[..n], values[..n]);
      AssignDomain(keys[..n], values[..n]);
      assert keys[n] !in keys[..n];
      assert keys[..n] + [keys[n]] == keys;
    }
  }
}
