/** Shared vocabulary: optional values, results that carry an error, and the orders in which a
    Go `range` over a map may visit its keys. */
module Prelude {
  datatype Option<+T> = None | Some(value: T)

  datatype Result<+T, +E> = Success(value: T) | Failure(error: E)

  ghost predicate NoRepeats<T>(s: seq<T>)
  {
    forall i, j :: 0 <= i < j < |s| ==> s[i] != s[j]
  }

  /** `order` visits every key exactly once: one of the orders a `range` over a map may take. */
  ghost predicate Enumerates<T(!new)>(order: seq<T>, keys: set<T>)
  {
    && (forall k :: k in order <==> k in keys)
    && NoRepeats(order)
  }

  function Lookup<K, V>(m: map<K, V>, k: K): Option<V>
  {
    if k in m then Some(m[k]) else None
  }

  lemma {:induction false} SomeOrder<T(!new)>(keys: set<T>) returns (order: seq<T>)
    ensures Enumerates(order, keys)
    decreases keys
  {
    if keys == {} {
      order := [];
    } else {
      var k :| k in keys;
      var rest := SomeOrder(keys - {k});
      order := rest + [k];
    }
  }

  /** Some order visits `last` after every other key. */
  lemma {:induction false} OrderEndingIn<T(!new)>(keys: set<T>, last: T) returns (order: seq<T>)
    requires last in keys
    ensures Enumerates(order, keys) && order != [] && order[|order| - 1] == last
  {
    var rest := SomeOrder(keys - {last});
    order := rest + [last];
  }

  lemma EnumeratesNothing<T(!new)>()
    ensures Enumerates<T>([], {})
  {
  }

  lemma EnumeratesSnoc<T(!new)>(order: seq<T>, keys: set<T>, k: T)
    requires Enumerates(order, keys) && k !in keys
    ensures Enumerates(order + [k], keys + {k})
  {
  }

  /** Taking the last key off an order leaves an order of the other keys. */
  lemma EnumeratesInit<T(!new)>(order: seq<T>, keys: set<T>)
    requires Enumerates(order, keys) && order != []
    ensures order[|order| - 1] in keys
    ensures Enumerates(order[..|order| - 1], keys - {order[|order| - 1]})
  {
    var init, last := order[..|order| - 1], order[|order| - 1];
    assert order == init + [last];
    forall k
      ensures k in init <==> k in keys - {last}
    {
      if k in keys - {last} {
        assert k in order;
      }
    }
  }

  /** An order visits as many keys as there are. */
  lemma {:induction false} EnumeratesLength<T(!new)>(order: seq<T>, keys: set<T>)
    requires Enumerates(order, keys)
    ensures |order| == |keys|
  {
    if order == [] {
      assert forall k :: k in keys ==> k in order;
      assert keys == {};
    } else {
      var last := order[|order| - 1];
      EnumeratesInit(order, keys);
      EnumeratesLength(order[..|order| - 1], keys - {last});
    }
  }
}
