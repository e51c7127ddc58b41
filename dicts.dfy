/**
  Python's insertion-ordered `dict`, as the list of its items.

  A dict is the sequence of its `(key, value)` items in insertion order.
  `d[k] = v` replaces the value of an existing key in its slot and appends
  a new key at the end; a dict display `{k1: v1, ...}` and a dict
  comprehension both store their pairs one after the other in that way.
*/
module Dicts {
  import opened Wrappers

  type Items<K, V> = seq<(K, V)>

  /** No element occurs twice. */
  ghost predicate Distinct<T>(s: seq<T>) {
    forall i, j :: 0 <= i < j < |s| ==> s[i] != s[j]
  }

  /** `list(d.keys())` */
  function Keys<K, V>(d: Items<K, V>): seq<K> {
    seq(|d|, i requires 0 <= i < |d| => d[i].0)
  }

  /** `list(d.values())` */
  function Values<K, V>(d: Items<K, V>): (r: seq<V>)
    ensures |r| == |d|
  {
    seq(|d|, i requires 0 <= i < |d| => d[i].1)
  }

  /** The values listed are exactly the values of the items. */
  lemma ValuesOfItems<K(!new), V(!new)>(d: Items<K, V>)
    ensures forall v :: v in Values(d) <==> exists k :: (k, v) in d
  {
    forall k, v | (k, v) in d ensures v in Values(d) {
      var i :| 0 <= i < |d| && d[i] == (k, v);
      assert Values(d)[i] == v;
    }
  }

  lemma KeysOfTail<K, V>(d: Items<K, V>)
    requires d != []
    ensures Keys(d) == [d[0].0] + Keys(d[1..])
  {
  }

  /** `d[k]`; None stands for the KeyError raised when `k` is not a key. */
  function Get<K(==,!new), V>(d: Items<K, V>, k: K): (r: Option<V>)
    ensures r.Some? <==> k in Keys(d)
    ensures r.Some? ==> (k, r.value) in d
  {
    if d == [] then None
    else
      KeysOfTail(d);
      if d[0].0 == k then Some(d[0].1)
      else Get(d[1..], k)
  }

  /** `d[k] = v` */
  function Insert<K(==,!new), V>(d: Items<K, V>, k: K, v: V): (r: Items<K, V>)
    ensures Keys(r) == if k in Keys(d) then Keys(d) else Keys(d) + [k]
    ensures forall k' :: Get(r, k') == if k' == k then Some(v) else Get(d, k')
    ensures forall p :: p in r ==> p in d || p == (k, v)
  {
    if d == [] then [(k, v)]
    else
      KeysOfTail(d);
      if d[0].0 == k then
        KeysOfTail([(k, v)] + d[1..]);
        assert ([(k, v)] + d[1..])[1..] == d[1..];
        [(k, v)] + d[1..]
      else
        var rest := Insert(d[1..], k, v);
        KeysOfTail([d[0]] + rest);
        assert ([d[0]] + rest)[1..] == rest;
        [d[0]] + rest
  }

  /** The dict built by storing the pairs of `ps` in order: a dict display, or a dict comprehension over `ps`. */
  function FromPairs<K(==,!new), V>(ps: seq<(K, V)>): (d: Items<K, V>)
    ensures Distinct(Keys(d))
    ensures forall k :: k in Keys(d) <==> k in Keys(ps)
    ensures forall p :: p in d ==> p in ps
  {
    if ps == [] then []
    else
      var n := |ps| - 1;
      var prev := FromPairs(ps[..n]);
      var d := Insert(prev, ps[n].0, ps[n].1);
      assert Keys(ps) == Keys(ps[..n]) + [ps[n].0];
      assert forall k :: k in Keys(d) <==> k in Keys(prev) || k == ps[n].0;
      assert Distinct(Keys(d)) by {
        if ps[n].0 !in Keys(prev) {
          DistinctAppend(Keys(prev), ps[n].0);
        }
      }
      d
  }

  lemma DistinctAppend<T>(s: seq<T>, x: T)
    requires Distinct(s) && x !in s
    ensures Distinct(s + [x])
  {
  }

  /** The items of `d` with key and value exchanged, in the same order. */
  function Swapped<K, V>(d: Items<K, V>): Items<V, K> {
    seq(|d|, i requires 0 <= i < |d| => (d[i].1, d[i].0))
  }

  /** `{v: k for k, v in d.items()}` */
  function Invert<K(==,!new), V(==,!new)>(d: Items<K, V>): (r: Items<V, K>)
    ensures Distinct(Keys(r))
    ensures forall l :: l in Keys(r) <==> l in Values(d)
    ensures forall p :: p in r ==> (p.1, p.0) in d
  {
    assert Keys(Swapped(d)) == Values(d);
    FromPairs(Swapped(d))
  }

  lemma {:induction false} InsertNewKey<K(!new), V>(d: Items<K, V>, k: K, v: V)
    requires k !in Keys(d)
    ensures Insert(d, k, v) == d + [(k, v)]
  {
    if d != [] {
      assert Keys(d) == [d[0].0] + Keys(d[1..]);
      InsertNewKey(d[1..], k, v);
      assert [d[0]] + (d[1..] + [(k, v)]) == d + [(k, v)];
    }
  }

  /** A display whose keys are distinct is stored exactly as written. */
  lemma {:induction false} FromPairsOfDistinct<K(!new), V>(ps: seq<(K, V)>)
    requires Distinct(Keys(ps))
    ensures FromPairs(ps) == ps
  {
    if ps != [] {
      var n := |ps| - 1;
      assert Keys(ps[..n]) == Keys(ps)[..n];
      assert ps[n].0 !in Keys(ps[..n]) by {
        forall i | 0 <= i < n ensures Keys(ps[..n])[i] != ps[n].0 {
          assert Keys(ps)[i] != Keys(ps)[n];
        }
      }
      FromPairsOfDistinct(ps[..n]);
      InsertNewKey(ps[..n], ps[n].0, ps[n].1);
      assert ps[..n] + [ps[n]] == ps;
    }
  }

  /** In a dict, looking up the key of an item gives that item's value. */
  lemma {:induction false} GetItem<K(!new), V>(d: Items<K, V>, i: nat)
    requires Distinct(Keys(d)) && i < |d|
    ensures Get(d, d[i].0) == Some(d[i].1)
  {
    if i > 0 {
      assert Keys(d)[0] != Keys(d)[i];
      assert Keys(d[1..]) == Keys(d)[1..];
      GetItem(d[1..], i - 1);
    }
  }

  /** With distinct values the inverse is the item list swapped pair by pair, in the same order. */
  lemma InvertOfDistinctValues<K(!new), V(!new)>(d: Items<K, V>)
    requires Distinct(Values(d))
    ensures Invert(d) == Swapped(d)
    ensures Keys(Invert(d)) == Values(d) && Values(Invert(d)) == Keys(d)
  {
    assert Keys(Swapped(d)) == Values(d);
    FromPairsOfDistinct(Swapped(d));
    assert Values(Swapped(d)) == Keys(d);
  }

  /** With distinct values, every code survives the code -> label -> code round trip. */
  lemma CodeLabelCode<K(!new), V(!new)>(d: Items<K, V>, i: nat)
    requires Distinct(Values(d)) && i < |d|
    ensures Get(Invert(d), d[i].1) == Some(d[i].0)
  {
    InvertOfDistinctValues(d);
    assert Keys(Swapped(d)) == Values(d);
    GetItem(Swapped(d), i);
  }

  /** Every code of `d` comes back from the inverse of its own label. */
  ghost predicate CodesSurviveInversion<K(!new), V(!new)>(d: Items<K, V>) {
    forall i :: 0 <= i < |d| ==> Get(Invert(d), d[i].1) == Some(d[i].0)
  }

  /**
    Inverting by comprehension loses no code exactly when the values are
    distinct: every code survives the code -> label -> code round trip if
    and only if no two codes share a label.
  */
  lemma CodeLabelCodeIff<K(!new), V(!new)>(d: Items<K, V>)
    requires Distinct(Keys(d))
    ensures Distinct(Values(d)) <==> CodesSurviveInversion(d)
  {
    if Distinct(Values(d)) {
      forall i | 0 <= i < |d| ensures Get(Invert(d), d[i].1) == Some(d[i].0) {
        CodeLabelCode(d, i);
      }
    } else {
      SharedLabel(d);
    }
  }

  lemma SharedLabel<K(!new), V(!new)>(d: Items<K, V>)
    requires Distinct(Keys(d)) && !Distinct(Values(d))
    ensures !CodesSurviveInversion(d)
  {
    var i, j :| 0 <= i < j < |d| && Values(d)[i] == Values(d)[j];
    SharedLabelLosesCode(d, i, j);
  }

  /** Two codes with one label: the inverse can give back at most one of them. */
  lemma SharedLabelLosesCode<K(!new), V(!new)>(d: Items<K, V>, i: nat, j: nat)
    requires Distinct(Keys(d)) && i < j < |d| && d[i].1 == d[j].1
    ensures Get(Invert(d), d[i].1) != Some(d[i].0) || Get(Invert(d), d[j].1) != Some(d[j].0)
  {
    ItemKeysDiffer(d, i, j);
  }

  lemma ItemKeysDiffer<K, V>(d: Items<K, V>, i: nat, j: nat)
    requires Distinct(Keys(d)) && i < j < |d|
    ensures d[i].0 != d[j].0
  {
    assert Keys(d)[i] != Keys(d)[j];
  }

  /** The labels the inverse knows are exactly the values of `d`. */
  lemma InverseDomain<K(!new), V(!new)>(d: Items<K, V>, l: V)
    ensures Get(Invert(d), l).Some? <==> l in Values(d)
  {
    assert Keys(Swapped(d)) == Values(d);
  }

  /** label -> code -> label: the code the inverse gives for a label is a key of `d` that maps back to it. */
  lemma LabelCodeLabel<K(!new), V(!new)>(d: Items<K, V>, l: V)
    requires Distinct(Keys(d))
    ensures Get(Invert(d), l).Some? ==>
              var c := Get(Invert(d), l).value;
              c in Keys(d) && Get(d, c) == Some(l)
  {
    if Get(Invert(d), l).Some? {
      var c := Get(Invert(d), l).value;
      assert (l, c) in Swapped(d);
      var i :| 0 <= i < |d| && Swapped(d)[i] == (l, c);
      GetItem(d, i);
      assert Keys(d)[i] == c;
    }
  }
}
