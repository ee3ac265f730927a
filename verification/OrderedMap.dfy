/** The ordered map behind a JSON object: a list of members kept ascending by key. */
module OrderedMap {
  import opened Text

  /** m[key] = value. */
  function Put<K(==), V>(m: seq<(K, V)>, key: K, value: V, before: (K, K) -> bool): seq<(K, V)> {
    if m == [] || before(key, m[0].0) then [(key, value)] + m
    else if m[0].0 == key then [(key, value)] + m[1..]
    else [m[0]] + Put(m[1..], key, value, before)
  }

  function Get<K(==), V>(m: seq<(K, V)>, key: K): Option<V> {
    if m == [] then None else if m[0].0 == key then Some(m[0].1) else Get(m[1..], key)
  }

  lemma {:induction false} GetAfterPut<K, V>(m: seq<(K, V)>, key: K, value: V, before: (K, K) -> bool, other: K)
    ensures Get(Put(m, key, value, before), other) == if other == key then Some(value) else Get(m, other)
  {
    if m == [] || before(key, m[0].0) {
      assert ([(key, value)] + m)[1..] == m;
    } else if m[0].0 == key {
      assert ([(key, value)] + m[1..])[1..] == m[1..];
    } else {
      GetAfterPut(m[1..], key, value, before, other);
      assert ([m[0]] + Put(m[1..], key, value, before))[1..] == Put(m[1..], key, value, before);
    }
  }

  ghost predicate StrictOrder<K(!new)>(before: (K, K) -> bool) {
    && (forall a, b, c :: before(a, b) && before(b, c) ==> before(a, c))
    && (forall a, b :: a == b || before(a, b) || before(b, a))
  }

  ghost predicate Ascending<K, V>(m: seq<(K, V)>, before: (K, K) -> bool) {
    forall i, k :: 0 <= i < k < |m| ==> before(m[i].0, m[k].0)
  }

  lemma {:induction false} PutMembers<K, V>(m: seq<(K, V)>, key: K, value: V, before: (K, K) -> bool)
    ensures forall x :: x in Put(m, key, value, before) ==> x == (key, value) || x in m
  {
    if m != [] && !before(key, m[0].0) && m[0].0 != key {
      PutMembers(m[1..], key, value, before);
      assert forall x :: x in m[1..] ==> x in m;
    }
  }

  lemma {:induction false} PutKeepsAscending<K(!new), V>(m: seq<(K, V)>, key: K, value: V, before: (K, K) -> bool)
    requires StrictOrder(before) && Ascending(m, before)
    ensures Ascending(Put(m, key, value, before), before)
  {
    var r := Put(m, key, value, before);
    if m == [] || before(key, m[0].0) {
      forall i | 0 < i < |r| ensures r[i] == m[i - 1] {}
    } else if m[0].0 != key {
      var tail := Put(m[1..], key, value, before);
      PutKeepsAscending(m[1..], key, value, before);
      PutMembers(m[1..], key, value, before);
      forall i | 0 < i < |r| ensures before(m[0].0, r[i].0) {
        assert r[i] == tail[i - 1];
        assert tail[i - 1] in tail;
      }
    }
  }
}
