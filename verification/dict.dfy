/** Python dictionaries built from an ordered sequence of key/value pairs.

    Both a dict display `{k0: v0, k1: v1, ...}` and a dict comprehension
    `{f(x): g(x) for x in xs}` insert their pairs from left to right into an
    empty dict, and a key that occurs again overwrites the earlier value.
    `FromItems` is that left fold; `LastIndex` is an independent description
    of which pair survives, and `FromItemsLastWins` connects the two.
 */
module Dict {

  /** The keys of an ordered sequence of pairs. */
  function KeysOf<K, V>(items: seq<(K, V)>): set<K>
  {
    set i | 0 <= i < |items| :: items[i].0
  }

  /** The values of an ordered sequence of pairs. */
  function ValuesOf<K, V>(items: seq<(K, V)>): set<V>
  {
    set i | 0 <= i < |items| :: items[i].1
  }

  /** No key occurs twice, as for the `items()` of an existing dict. */
  ghost predicate DistinctKeys<K, V>(items: seq<(K, V)>)
  {
    forall i, j :: 0 <= i < j < |items| ==> items[i].0 != items[j].0
  }

  /** Inserts the pairs left to right into an empty map; a later pair with
      the same key overwrites an earlier one. */
  function FromItems<K, V>(items: seq<(K, V)>): (m: map<K, V>)
    ensures m.Keys == KeysOf(items)
  {
    if items == [] then map[]
    else
      var init := items[..|items| - 1];
      var last := items[|items| - 1];
      assert KeysOf(items) == KeysOf(init) + {last.0} by {
        forall k | k in KeysOf(items) ensures k in KeysOf(init) + {last.0} {
          var i :| 0 <= i < |items| && items[i].0 == k;
          if i < |init| {
            assert init[i] == items[i];
          }
        }
        forall k | k in KeysOf(init) ensures k in KeysOf(items) {
          var i :| 0 <= i < |init| && init[i].0 == k;
          assert items[i] == init[i];
        }
      }
      FromItems(init)[last.0 := last.1]
  }

  /** The index of the last pair whose key is `k`, or -1 when there is none. */
  function LastIndex<K(==), V>(items: seq<(K, V)>, k: K): (r: int)
    ensures -1 <= r < |items|
    ensures r == -1 ==> forall j :: 0 <= j < |items| ==> items[j].0 != k
    ensures r >= 0 ==> items[r].0 == k && forall j :: r < j < |items| ==> items[j].0 != k
  {
    if items == [] then -1
    else if items[|items| - 1].0 == k then |items| - 1
    else LastIndex(items[..|items| - 1], k)
  }

  /** The pairs with key and value exchanged, in the same order: the pairs
      the comprehension `{v: k for k, v in d.items()}` inserts, in order. */
  function Swapped<K, V>(items: seq<(K, V)>): (r: seq<(V, K)>)
    ensures |r| == |items|
    ensures forall i :: 0 <= i < |items| ==> r[i] == (items[i].1, items[i].0)
  {
    seq(|items|, i requires 0 <= i < |items| => (items[i].1, items[i].0))
  }

  /** The dict comprehension `{v: k for k, v in d.items()}`. */
  function Invert<K, V>(items: seq<(K, V)>): (m: map<V, K>)
    ensures m.Keys == ValuesOf(items)
  {
    var s := Swapped(items);
    assert KeysOf(s) == ValuesOf(items) by {
      forall v | v in ValuesOf(items) ensures v in KeysOf(s) {
        var i :| 0 <= i < |items| && items[i].1 == v;
        assert s[i].0 == v;
      }
    }
    FromItems(s)
  }

  /** The later pair wins: a key is present exactly when some pair carries
      it, and its value is the one of the last such pair. */
  lemma {:induction false} FromItemsLastWins<K, V>(items: seq<(K, V)>, k: K)
    ensures k in FromItems(items) <==> LastIndex(items, k) >= 0
    ensures k in FromItems(items) ==> FromItems(items)[k] == items[LastIndex(items, k)].1
    decreases |items|
  {
    if items != [] {
      var init := items[..|items| - 1];
      if items[|items| - 1].0 != k {
        FromItemsLastWins(init, k);
        var r := LastIndex(init, k);
        if r >= 0 {
          assert items[r] == init[r];
        }
      }
    }
  }

  /** When keys are distinct every pair survives unchanged. */
  lemma FromItemsDistinct<K, V>(items: seq<(K, V)>, i: int)
    requires DistinctKeys(items)
    requires 0 <= i < |items|
    ensures items[i].0 in FromItems(items)
    ensures FromItems(items)[items[i].0] == items[i].1
  {
    var r := LastIndex(items, items[i].0);
    FromItemsLastWins(items, items[i].0);
    assert r == i;
  }

  /** The values of a map built from distinct keys are exactly the pairs' values. */
  lemma FromItemsValues<K, V>(items: seq<(K, V)>)
    requires DistinctKeys(items)
    ensures FromItems(items).Values == ValuesOf(items)
  {
    var m := FromItems(items);
    forall v | v in ValuesOf(items) ensures v in m.Values {
      var i :| 0 <= i < |items| && items[i].1 == v;
      FromItemsDistinct(items, i);
    }
    forall v | v in m.Values ensures v in ValuesOf(items) {
      var k :| k in m && m[k] == v;
      FromItemsLastWins(items, k);
    }
  }

  /** A value inverts to the key of the last pair carrying it. */
  lemma InvertLastWins<K, V>(items: seq<(K, V)>, i: int)
    requires 0 <= i < |items|
    requires forall j :: i < j < |items| ==> items[j].1 != items[i].1
    ensures items[i].1 in Invert(items)
    ensures Invert(items)[items[i].1] == items[i].0
  {
    var s := Swapped(items);
    FromItemsLastWins(s, items[i].1);
    assert LastIndex(s, items[i].1) == i;
  }

  /** Inverting and looking the result up again gives back the value: for
      every key `x` of the inverse, `m[inv[x]] == x`. */
  lemma InvertRoundTrip<K, V>(items: seq<(K, V)>)
    requires DistinctKeys(items)
    ensures forall x :: x in Invert(items) ==>
      Invert(items)[x] in FromItems(items) && FromItems(items)[Invert(items)[x]] == x
  {
    var s := Swapped(items);
    forall x | x in Invert(items)
      ensures Invert(items)[x] in FromItems(items) && FromItems(items)[Invert(items)[x]] == x
    {
      FromItemsLastWins(s, x);
      var r := LastIndex(s, x);
      FromItemsDistinct(items, r);
    }
  }
}
