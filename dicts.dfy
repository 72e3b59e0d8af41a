/** Python's insertion-ordered `dict`, as a sequence of key/value pairs whose
    keys are pairwise distinct. Assigning to a present key keeps its position;
    assigning to a new key appends it; `del` removes the pair, so a key that is
    deleted and assigned again moves to the end. */
module Dicts {
  import opened Wrappers

  type Dict<K, V> = seq<(K, V)>

  /** No key occurs twice (every Python dict has this shape). */
  ghost predicate UniqueKeys<K, V>(d: Dict<K, V>) {
    forall i, j :: 0 <= i < j < |d| ==> d[i].0 != d[j].0
  }

  /** Position of key `k` in the dictionary's order, if it is present. */
  function IndexOf<K(==), V>(d: Dict<K, V>, k: K): (r: Option<nat>)
    ensures r.Some? ==> r.value < |d| && d[r.value].0 == k
    ensures r.Some? ==> forall j :: 0 <= j < r.value ==> d[j].0 != k
    ensures r.None? <==> forall j :: 0 <= j < |d| ==> d[j].0 != k
  {
    if d == [] then None
    else if d[0].0 == k then Some(0)
    else
      var r := IndexOf(d[1..], k);
      assert forall j :: 1 <= j < |d| ==> d[j] == d[1..][j - 1];
      if r.None? then None else Some(r.value + 1)
  }

  /** `k in d` */
  predicate HasKey<K(==), V>(d: Dict<K, V>, k: K) {
    IndexOf(d, k).Some?
  }

  /** `d[k]`, with `None` for the `KeyError` case. */
  function Lookup<K(==), V>(d: Dict<K, V>, k: K): (r: Option<V>)
    ensures r.Some? <==> HasKey(d, k)
    ensures r.Some? ==> (k, r.value) in d
    ensures UniqueKeys(d) ==> forall i :: 0 <= i < |d| && d[i].0 == k ==> r == Some(d[i].1)
  {
    match IndexOf(d, k)
    case None => None
    case Some(i) => Some(d[i].1)
  }

  lemma LookupAt<K, V>(d: Dict<K, V>, i: nat)
    requires UniqueKeys(d) && i < |d|
    ensures Lookup(d, d[i].0) == Some(d[i].1)
  {
  }

  /** The last key of a non-empty dictionary is present. */
  lemma HasLastKey<K, V>(d: Dict<K, V>)
    requires |d| > 0
    ensures HasKey(d, d[|d| - 1].0)
  {
  }

  /** `d[k] = v` */
  function Set<K(==), V>(d: Dict<K, V>, k: K, v: V): (r: Dict<K, V>)
    ensures HasKey(d, k) ==> |r| == |d| && forall i :: 0 <= i < |d| ==> r[i].0 == d[i].0
    ensures !HasKey(d, k) ==> r == d + [(k, v)]
  {
    match IndexOf(d, k)
    case None => d + [(k, v)]
    case Some(i) =>
      var r := d[i := (k, v)];
      assert forall j :: 0 <= j < |d| && j != i ==> r[j] == d[j];
      r
  }

  /** Assigning to the key at position `i` replaces that pair in place. */
  lemma SetAt<K, V>(d: Dict<K, V>, i: nat, v: V)
    requires UniqueKeys(d) && i < |d|
    ensures Set(d, d[i].0, v) == d[i := (d[i].0, v)]
  {
    assert IndexOf(d, d[i].0) == Some(i);
  }

  /** `del d[k]` when `k in d`; the dictionary itself when it is not. */
  function Remove<K(==), V>(d: Dict<K, V>, k: K): (r: Dict<K, V>)
    ensures !HasKey(d, k) ==> r == d
    ensures HasKey(d, k) ==> r == d[..IndexOf(d, k).value] + d[IndexOf(d, k).value + 1..]
  {
    match IndexOf(d, k)
    case None => d
    case Some(i) => d[..i] + d[i + 1..]
  }

  /** Two dictionaries that hold the same pairs for key `k` agree on `k`. */
  lemma LookupByPairs<K, V>(a: Dict<K, V>, b: Dict<K, V>, k: K)
    requires UniqueKeys(a) && UniqueKeys(b)
    requires forall v :: (k, v) in a <==> (k, v) in b
    ensures Lookup(a, k) == Lookup(b, k)
  {
    if Lookup(a, k).Some? {
      var j :| 0 <= j < |b| && b[j] == (k, Lookup(a, k).value);
    }
  }

  /** Assignment stores `v` under `k`, keeps every other entry and keeps the
      keys distinct. */
  lemma {:induction false} SetLookup<K, V>(d: Dict<K, V>, k: K, v: V)
    requires UniqueKeys(d)
    ensures UniqueKeys(Set(d, k, v))
    ensures Lookup(Set(d, k, v), k) == Some(v)
    ensures forall k' :: k' != k ==> Lookup(Set(d, k, v), k') == Lookup(d, k')
  {
    var r := Set(d, k, v);
    forall i, j | 0 <= i < j < |r| ensures r[i].0 != r[j].0 {
      if !HasKey(d, k) {
        assert j == |d| ==> r[i] == d[i];
      }
    }
    assert (k, v) in r;
    forall k' | k' != k ensures Lookup(r, k') == Lookup(d, k') {
      forall v' ensures (k', v') in r <==> (k', v') in d {
        if HasKey(d, k) {
          var i := IndexOf(d, k).value;
          assert forall j :: 0 <= j < |d| && j != i ==> r[j] == d[j];
          if (k', v') in d {
            var j :| 0 <= j < |d| && d[j] == (k', v');
            assert r[j] == d[j];
          }
          if (k', v') in r {
            var j :| 0 <= j < |r| && r[j] == (k', v');
            assert d[j] == r[j];
          }
        }
      }
      LookupByPairs(r, d, k');
    }
  }

  /** Deletion removes the pair for `k`, keeps every other entry and keeps the
      keys distinct. */
  lemma {:induction false} RemoveLookup<K, V>(d: Dict<K, V>, k: K)
    requires UniqueKeys(d)
    ensures UniqueKeys(Remove(d, k))
    ensures Lookup(Remove(d, k), k) == None
    ensures forall k' :: k' != k ==> Lookup(Remove(d, k), k') == Lookup(d, k')
    ensures forall p :: p in Remove(d, k) <==> p in d && p.0 != k
  {
    var r := Remove(d, k);
    if HasKey(d, k) {
      var i := IndexOf(d, k).value;
      assert forall j :: 0 <= j < i ==> r[j] == d[j];
      assert forall j :: i <= j < |r| ==> r[j] == d[j + 1];
      assert forall p :: p in r <==> exists j :: 0 <= j < |r| && r[j] == p;
      forall p ensures p in r <==> p in d && p.0 != k {
        if p in d && p.0 != k {
          var j :| 0 <= j < |d| && d[j] == p;
          assert j != i;
          if j < i { assert r[j] == p; } else { assert r[j - 1] == p; }
        }
      }
    }
    forall k' | k' != k ensures Lookup(r, k') == Lookup(d, k') {
      LookupByPairs(r, d, k');
    }
  }
}
