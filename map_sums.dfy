/**
 * Sums of the counts held in a finite count map, the arithmetic behind the
 * per-order totals of the chrF scorer (`total_tl`, `total_ref`, `matching`).
 */
module MapSums {

  /** The count of `key` in `m`; an absent key counts 0. */
  function Get<K>(m: map<K, nat>, key: K): nat
  {
    if key in m then m[key] else 0
  }

  /** The sum of all counts in `m`, each key counted once. */
  ghost function Total<K>(m: map<K, nat>): nat
    decreases |m|
  {
    if m == map[] then 0
    else
      var key :| key in m;
      assert |m - {key}| < |m| by { assert m.Keys - {key} < m.Keys; }
      m[key] + Total(m - {key})
  }

  /** The part of `m` whose keys lie in `keys`. */
  function Restrict<K>(m: map<K, nat>, keys: set<K>): (r: map<K, nat>)
    ensures r.Keys == m.Keys * keys
    ensures forall key | key in r :: r[key] == m[key]
  {
    map key | key in m && key in keys :: m[key]
  }

  /** The total does not depend on which key is taken out first. */
  lemma {:induction false} TotalRemove<K>(m: map<K, nat>, key: K)
    requires key in m
    ensures Total(m) == m[key] + Total(m - {key})
    decreases |m|
  {
    var first :| first in m && Total(m) == m[first] + Total(m - {first});
    if first != key {
      assert m.Keys - {first} < m.Keys;
      assert m.Keys - {key} < m.Keys;
      TotalRemove(m - {first}, key);
      TotalRemove(m - {key}, first);
      assert m - {first} - {key} == m - {key} - {first};
    }
  }

  /** The empty map is the only map with total 0 whose counts are positive. */
  lemma {:induction false} TotalZero<K>(m: map<K, nat>)
    requires forall key | key in m :: m[key] >= 1
    ensures Total(m) == 0 <==> m == map[]
  {
    if m != map[] {
      var key :| key in m;
      TotalRemove(m, key);
    }
  }

  /** A map whose keys and counts are all covered by another has no larger total. */
  lemma {:induction false} TotalMonotonic<K>(small: map<K, nat>, large: map<K, nat>)
    requires small.Keys <= large.Keys
    requires forall key | key in small :: small[key] <= large[key]
    ensures Total(small) <= Total(large)
    decreases |large|
  {
    if small != map[] {
      var key :| key in small;
      TotalRemove(small, key);
      TotalRemove(large, key);
      assert large.Keys - {key} < large.Keys;
      TotalMonotonic(small - {key}, large - {key});
    }
  }

  /** Adding one occurrence of a key raises the total by exactly one. */
  lemma TotalIncrement<K>(m: map<K, nat>, key: K)
    ensures Total(m[key := Get(m, key) + 1]) == Total(m) + 1
  {
    var m' := m[key := Get(m, key) + 1];
    TotalRemove(m', key);
    if key in m {
      TotalRemove(m, key);
      assert m' - {key} == m - {key};
    } else {
      assert m' - {key} == m;
    }
  }

  /** Restricting to a set that covers every key changes nothing. */
  lemma RestrictCovering<K>(m: map<K, nat>, keys: set<K>)
    requires m.Keys <= keys
    ensures Restrict(m, keys) == m
  {
  }

  /** Taking one key out of the restricted part moves its count out of the total. */
  lemma RestrictTotalRemove<K>(m: map<K, nat>, keys: set<K>, key: K)
    requires key in keys
    ensures Total(Restrict(m, keys)) == Get(m, key) + Total(Restrict(m, keys - {key}))
  {
    if key in m {
      TotalRemove(Restrict(m, keys), key);
      assert Restrict(m, keys) - {key} == Restrict(m, keys - {key});
    } else {
      assert Restrict(m, keys) == Restrict(m, keys - {key});
    }
  }
}
