/** Grouping a stream under keys with `dict.setdefault(key, []).append(value)`: the keys in the order
    they first came, and under each the values that came with it, in order. */
module Grouping {
  import opened Arrays

  datatype Groups<K, V> = Groups(order: seq<K>, lists: map<K, seq<V>>)

  function Empty<K, V>(): Groups<K, V> { Groups([], map[]) }

  /** `setdefault(key, []).append(value)`. */
  function Add<K(==), V>(g: Groups<K, V>, key: K, value: V): Groups<K, V> {
    if key in g.lists then g.(lists := g.lists[key := g.lists[key] + [value]])
    else Groups(g.order + [key], g.lists[key := [value]])
  }

  // ----- what the groups are -----

  /** The keys of a stream in the order they first come. */
  function FirstSeen<K(==)>(keys: seq<K>): seq<K> {
    if |keys| == 0 then []
    else
      var before := FirstSeen(keys[..|keys| - 1]);
      if keys[|keys| - 1] in before then before else before + [keys[|keys| - 1]]
  }

  /** The values that come with one key. */
  function With<K(==), V>(keys: seq<K>, values: seq<V>, key: K): seq<V>
    requires |keys| == |values|
  {
    if |keys| == 0 then []
    else
      With(keys[..|keys| - 1], values[..|keys| - 1], key)
      + (if keys[|keys| - 1] == key then [values[|keys| - 1]] else [])
  }

  ghost predicate AreGroups<K(!new), V>(g: Groups<K, V>, keys: seq<K>, values: seq<V>)
    requires |keys| == |values|
  {
    && g.order == FirstSeen(keys)
    && (forall k :: k in g.lists <==> k in g.order)
    && (forall k :: k in g.lists ==> g.lists[k] == With(keys, values, k))
  }

  lemma {:induction false} FirstSeenMembers<K(!new)>(keys: seq<K>)
    ensures forall k :: k in FirstSeen(keys) <==> k in keys
    ensures NoRepeats(FirstSeen(keys))
  {
    if |keys| > 0 {
      FirstSeenMembers(keys[..|keys| - 1]);
      assert keys == keys[..|keys| - 1] + [keys[|keys| - 1]];
    }
  }

  lemma {:induction false} WithNothing<K, V>(keys: seq<K>, values: seq<V>, key: K)
    requires |keys| == |values| && key !in keys
    ensures With(keys, values, key) == []
  {
    if |keys| > 0 {
      WithNothing(keys[..|keys| - 1], values[..|keys| - 1], key);
    }
  }

  ghost predicate CameBefore<K(!new)>(keys: seq<K>, x: K, y: K) {
    exists i :: 0 <= i < |keys| && keys[i] == x && forall j :: 0 <= j <= i ==> keys[j] != y
  }

  /** A key ahead of another in that order came before the other first did. */
  lemma {:induction false} FirstSeenInOrder<K(!new)>(keys: seq<K>, a: nat, b: nat)
    requires a < b < |FirstSeen(keys)|
    ensures CameBefore(keys, FirstSeen(keys)[a], FirstSeen(keys)[b])
    decreases |keys|
  {
    var front := keys[..|keys| - 1];
    if b < |FirstSeen(front)| {
      FirstSeenInOrder(front, a, b);
      var i :| 0 <= i < |front| && front[i] == FirstSeen(front)[a]
               && forall j :: 0 <= j <= i ==> front[j] != FirstSeen(front)[b];
      assert keys[i] == front[i];
    } else {
      FirstSeenMembers(front);
      assert FirstSeen(front)[a] in front;
      var i :| 0 <= i < |front| && front[i] == FirstSeen(front)[a];
      assert keys[i] == front[i];
      forall j | 0 <= j <= i ensures keys[j] != FirstSeen(keys)[b] {
        assert keys[j] == front[j] && front[j] in front;
      }
    }
  }

  lemma {:induction false} WithAppend<K, V>(keys: seq<K>, values: seq<V>, key: K, value: V, k: K)
    requires |keys| == |values|
    ensures With(keys + [key], values + [value], k) == With(keys, values, k) + (if key == k then [value] else [])
  {
    assert (keys + [key])[..|keys|] == keys;
    assert (values + [value])[..|values|] == values;
  }

  lemma {:induction false} FirstSeenAppend<K>(keys: seq<K>, key: K)
    ensures FirstSeen(keys + [key]) == if key in FirstSeen(keys) then FirstSeen(keys) else FirstSeen(keys) + [key]
  {
    assert (keys + [key])[..|keys|] == keys;
  }

  /** Appending one entry keeps the dictionary a grouping of the stream. */
  lemma AddGroups<K(!new), V>(g: Groups<K, V>, keys: seq<K>, values: seq<V>, key: K, value: V)
    requires |keys| == |values| && AreGroups(g, keys, values)
    ensures AreGroups(Add(g, key, value), keys + [key], values + [value])
  {
    FirstSeenAppend(keys, key);
    FirstSeenMembers(keys);
    if key !in g.lists {
      WithNothing(keys, values, key);
    }
    forall k | k in Add(g, key, value).lists
      ensures Add(g, key, value).lists[k] == With(keys + [key], values + [value], k)
    {
      WithAppend(keys, values, key, value, k);
    }
  }

  // ----- nothing is lost or counted twice -----

  function Total<V>(lists: seq<seq<V>>): nat {
    if |lists| == 0 then 0 else Total(lists[..|lists| - 1]) + |lists[|lists| - 1]|
  }

  ghost function ListsIn<K, V>(keys: seq<K>, values: seq<V>, order: seq<K>): (r: seq<seq<V>>)
    requires |keys| == |values|
    ensures |r| == |order|
  {
    seq(|order|, i requires 0 <= i < |order| => With(keys, values, order[i]))
  }

  lemma {:induction false} TotalGrows<V>(lists: seq<seq<V>>, p: nat, value: V)
    requires p < |lists|
    ensures Total(lists[p := lists[p] + [value]]) == Total(lists) + 1
  {
    var n := |lists| - 1;
    if p < n {
      TotalGrows(lists[..n], p, value);
      assert lists[p := lists[p] + [value]][..n] == lists[..n][p := lists[p] + [value]];
    } else {
      assert lists[p := lists[p] + [value]][..n] == lists[..n];
    }
  }

  /** One more value makes the list under its key longer by one ... */
  lemma ListGrows<K(!new), V>(keys: seq<K>, values: seq<V>, key: K, value: V, order: seq<K>, p: nat)
    requires |keys| == |values| && NoRepeats(order) && p < |order| && order[p] == key
    ensures Total(ListsIn(keys + [key], values + [value], order)) == Total(ListsIn(keys, values, order)) + 1
  {
    var before, after := ListsIn(keys, values, order), ListsIn(keys + [key], values + [value], order);
    forall i | 0 <= i < |order| ensures after[i] == if i == p then before[i] + [value] else before[i] {
      WithAppend(keys, values, key, value, order[i]);
    }
    assert after == before[p := before[p] + [value]];
    TotalGrows(before, p, value);
  }

  /** ... or adds a list of one. */
  lemma ListBegins<K(!new), V>(keys: seq<K>, values: seq<V>, key: K, value: V, order: seq<K>)
    requires |keys| == |values| && key !in keys && key !in order
    ensures Total(ListsIn(keys + [key], values + [value], order + [key])) == Total(ListsIn(keys, values, order)) + 1
  {
    var before, after := ListsIn(keys, values, order), ListsIn(keys + [key], values + [value], order + [key]);
    forall i | 0 <= i < |order| ensures after[i] == before[i] {
      WithAppend(keys, values, key, value, order[i]);
    }
    WithNothing(keys, values, key);
    WithAppend(keys, values, key, value, key);
    assert after[..|order|] == before && after[|order|] == [value];
  }

  lemma {:induction false} ConserveNext<K(!new), V>(keys: seq<K>, values: seq<V>, key: K, value: V)
    requires |keys| == |values| && Total(ListsIn(keys, values, FirstSeen(keys))) == |keys|
    ensures Total(ListsIn(keys + [key], values + [value], FirstSeen(keys + [key]))) == |keys| + 1
  {
    FirstSeenMembers(keys);
    FirstSeenAppend(keys, key);
    if key in FirstSeen(keys) {
      var p :| 0 <= p < |FirstSeen(keys)| && FirstSeen(keys)[p] == key;
      ListGrows(keys, values, key, value, FirstSeen(keys), p);
    } else {
      ListBegins(keys, values, key, value, FirstSeen(keys));
    }
  }

  /** The lists hold as many values as came. */
  lemma {:induction false} GroupsConserve<K(!new), V>(keys: seq<K>, values: seq<V>)
    requires |keys| == |values|
    ensures Total(ListsIn(keys, values, FirstSeen(keys))) == |keys|
  {
    if |keys| > 0 {
      var n := |keys| - 1;
      GroupsConserve(keys[..n], values[..n]);
      ConserveNext(keys[..n], values[..n], keys[n], values[n]);
      assert keys == keys[..n] + [keys[n]] && values == values[..n] + [values[n]];
    }
  }

  /** Every group holds something. */
  lemma {:induction false} GroupIsNonempty<K, V>(keys: seq<K>, values: seq<V>, i: nat)
    requires |keys| == |values| && i < |keys|
    ensures |With(keys, values, keys[i])| > 0
  {
    if i < |keys| - 1 {
      GroupIsNonempty(keys[..|keys| - 1], values[..|keys| - 1], i);
    }
  }
}
