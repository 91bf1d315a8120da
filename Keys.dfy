/** Python dicts keep their keys in insertion order.  A dict is modelled
    as a map together with a sequence of its keys, in order; these are the
    operations on that sequence and the facts that keep it in step with
    the map. */
module Keys {

  /** No name occurs twice. */
  predicate NoDuplicates(s: seq<string>)
  {
    forall p, q :: 0 <= p < q < |s| ==> s[p] != s[q]
  }

  /** `order` lists the keys `keys` in some order, each once. */
  predicate Lists(order: seq<string>, keys: set<string>)
  {
    NoDuplicates(order) && (forall k :: k in order ==> k in keys) && (forall k :: k in keys ==> k in order)
  }

  /** The key order after `d[k] = v`: a new key goes to the end, an
      existing one keeps its place. */
  function Appended(order: seq<string>, k: string): seq<string>
  {
    if k in order then order else order + [k]
  }

  /** The key order after `del d[k]`: the other keys in their order. */
  function Dropped(order: seq<string>, k: string): seq<string>
    decreases |order|
  {
    if order == [] then []
    else if order[0] == k then Dropped(order[1..], k)
    else [order[0]] + Dropped(order[1..], k)
  }

  /** Setting a key keeps the order listing the keys, once each; an
      existing key keeps its place. */
  lemma AppendedLists(order: seq<string>, keys: set<string>, k: string)
    requires Lists(order, keys)
    ensures Lists(Appended(order, k), keys + {k})
    ensures k in keys ==> Appended(order, k) == order
    ensures k !in keys ==> Appended(order, k)[|order|] == k
  {
    if k !in order {
      var r := order + [k];
      forall p, q | 0 <= p < q < |r| ensures r[p] != r[q] {
        if q == |order| {
          assert r[p] in order;
        }
      }
    }
  }

  /** Deleting a key keeps the order listing the remaining keys, once
      each. */
  lemma {:induction false} DroppedLists(order: seq<string>, keys: set<string>, k: string)
    requires Lists(order, keys)
    ensures Lists(Dropped(order, k), keys - {k})
    decreases |order|
  {
    if order != [] {
      var x := order[0];
      var tail := order[1..];
      assert order == [x] + tail;
      assert Lists(tail, keys - {x}) by {
        forall p, q | 0 <= p < q < |tail| ensures tail[p] != tail[q] {
          assert tail[p] == order[p + 1] && tail[q] == order[q + 1];
        }
        forall y | y in tail ensures y in keys - {x} {
          var j :| 0 <= j < |tail| && tail[j] == y;
          assert order[j + 1] == y;
        }
      }
      DroppedLists(tail, keys - {x}, k);
      var rest := Dropped(tail, k);
      if x == k {
        assert keys - {x} - {k} == keys - {k};
      } else {
        var r := [x] + rest;
        assert x !in rest;
        forall p, q | 0 <= p < q < |r| ensures r[p] != r[q] {
          if p == 0 {
            assert r[q] == rest[q - 1];
          } else {
            assert r[p] == rest[p - 1] && r[q] == rest[q - 1];
          }
        }
        forall y | y in keys - {k} ensures y in r {
          if y != x {
            assert y in rest;
          }
        }
      }
    } else {
      assert keys == {};
    }
  }

  /** Maps with the same keys and the same value at each key are equal. */
  lemma SameMaps<K, V>(a: map<K, V>, b: map<K, V>)
    requires a.Keys == b.Keys && forall k :: k in a ==> a[k] == b[k]
    ensures a == b
  {
  }

  /** A new name appended to a list without repetition keeps it so. */
  lemma NoDuplicatesSnoc(s: seq<string>, x: string)
    requires NoDuplicates(s) && x !in s
    ensures NoDuplicates(s + [x])
  {
    var t := s + [x];
    forall p, q | 0 <= p < q < |t| ensures t[p] != t[q] {
      if q == |s| {
        assert t[p] == s[p];
      }
    }
  }

  /** The key order after deleting every key in `gone`: the others in
      their order. */
  function Without(order: seq<string>, gone: set<string>): seq<string>
    decreases |order|
  {
    if order == [] then []
    else (if order[0] in gone then [] else [order[0]]) + Without(order[1..], gone)
  }

  /** Deleting nothing keeps the order. */
  lemma {:induction false} WithoutNothing(order: seq<string>)
    ensures Without(order, {}) == order
    decreases |order|
  {
    if order != [] {
      WithoutNothing(order[1..]);
      assert order == [order[0]] + order[1..];
    }
  }

  /** Deleting one key and then several is deleting them all at once. */
  lemma {:induction false} WithoutDropped(order: seq<string>, x: string, gone: set<string>)
    ensures Without(Dropped(order, x), gone) == Without(order, {x} + gone)
    decreases |order|
  {
    if order != [] {
      WithoutDropped(order[1..], x, gone);
      if order[0] != x {
        var t := Dropped(order[1..], x);
        assert ([order[0]] + t)[0] == order[0] && ([order[0]] + t)[1..] == t;
      }
    }
  }
}
