/**
 The JavaScript `Map` as the server uses it: a sequence of (key, value)
 entries kept in insertion order. `set` on a key already present replaces
 the value where the entry stands; `set` on a new key appends; `delete`
 removes the entry and keeps the order of the rest.
 */
module InsertionMap {
  import opened Wrappers

  /** No key occurs twice (a JavaScript `Map` never holds duplicates). */
  predicate DistinctKeys<K(==,!new), V>(m: seq<(K, V)>)
  {
    forall i, j :: 0 <= i < j < |m| ==> m[i].0 != m[j].0
  }

  /** `map.has(k)` */
  predicate Has<K(==,!new), V>(m: seq<(K, V)>, k: K): (h: bool)
    ensures h <==> k in (set e | e in m :: e.0)
  {
    exists i :: 0 <= i < |m| && m[i].0 == k
  }

  /** Position of the first entry whose key is `k`. */
  function IndexOf<K(==,!new), V>(m: seq<(K, V)>, k: K): (r: Option<nat>)
    ensures r.Some? ==> r.value < |m| && m[r.value].0 == k
    ensures r.Some? ==> forall j :: 0 <= j < r.value ==> m[j].0 != k
    ensures r.None? <==> !Has(m, k)
  {
    if |m| == 0 then None
    else if m[0].0 == k then Some(0)
    else match IndexOf(m[1..], k)
      case None =>
        assert forall j :: 1 <= j < |m| ==> m[j] == m[1..][j - 1];
        None
      case Some(i) => Some(i + 1)
  }

  /** `map.get(k)`: the value stored under `k`, or None when `k` is absent. */
  function Get<K(==,!new), V>(m: seq<(K, V)>, k: K): (r: Option<V>)
    ensures r.Some? <==> Has(m, k)
    ensures DistinctKeys(m) ==> forall i :: 0 <= i < |m| && m[i].0 == k ==> r == Some(m[i].1)
  {
    match IndexOf(m, k)
    case None => None
    case Some(i) => Some(m[i].1)
  }

  /** Two entry sequences with the same key at every position locate every key alike. */
  lemma {:induction false} SameKeysSameIndex<K(!new), V>(m: seq<(K, V)>, m': seq<(K, V)>, k: K)
    requires |m| == |m'|
    requires forall i :: 0 <= i < |m| ==> m[i].0 == m'[i].0
    ensures IndexOf(m, k) == IndexOf(m', k)
  {
    if |m| > 0 && m[0].0 != k {
      SameKeysSameIndex(m[1..], m'[1..], k);
    }
  }

  /** `map.set(k, v)` */
  function Set<K(==,!new), V>(m: seq<(K, V)>, k: K, v: V): (r: seq<(K, V)>)
    ensures Get(r, k) == Some(v)
    ensures forall k' :: k' != k ==> Get(r, k') == Get(m, k')
    ensures Has(m, k) ==> |r| == |m| && forall i :: 0 <= i < |m| ==> r[i].0 == m[i].0
    ensures !Has(m, k) ==> r == m + [(k, v)]
    ensures DistinctKeys(m) ==> DistinctKeys(r)
  {
    match IndexOf(m, k)
    case Some(i) =>
      var r := m[i := (k, v)];
      forall k' ensures IndexOf(r, k') == IndexOf(m, k') {
        SameKeysSameIndex(r, m, k');
      }
      r
    case None =>
      var r := m + [(k, v)];
      assert r[|m|].0 == k;
      assert forall k' :: k' != k ==> IndexOf(r, k') == IndexOf(m, k') by {
        forall k' | k' != k ensures IndexOf(r, k') == IndexOf(m, k') {
          AppendOtherKey(m, k, v, k');
        }
      }
      r
  }

  /** Appending an entry for `k` does not move any other key. */
  lemma {:induction false} AppendOtherKey<K(!new), V>(m: seq<(K, V)>, k: K, v: V, k': K)
    requires k' != k
    ensures IndexOf(m + [(k, v)], k') == IndexOf(m, k')
  {
    if |m| > 0 && m[0].0 != k' {
      assert (m + [(k, v)])[1..] == m[1..] + [(k, v)];
      AppendOtherKey(m[1..], k, v, k');
    }
  }

  /** `map.delete(k)` */
  function Delete<K(==,!new), V>(m: seq<(K, V)>, k: K): (r: seq<(K, V)>)
    ensures !Has(r, k)
    ensures forall k' :: k' != k ==> Get(r, k') == Get(m, k')
    ensures |r| <= |m|
    ensures DistinctKeys(m) ==> DistinctKeys(r)
  {
    if |m| == 0 then []
    else
      var rest := Delete(m[1..], k);
      forall k' ensures Get(m, k') == if m[0].0 == k' then Some(m[0].1) else Get(m[1..], k') {
        GetCons(m, k');
      }
      if m[0].0 == k then rest
      else
        var r := [m[0]] + rest;
        assert r[1..] == rest;
        forall k' ensures Get(r, k') == if m[0].0 == k' then Some(m[0].1) else Get(rest, k') {
          GetCons(r, k');
        }
        assert Get(r, k) == None;
        assert DistinctKeys(m) ==> DistinctKeys(r) by {
          if DistinctKeys(m) {
            assert !Has(m[1..], m[0].0) by {
              forall j | 0 <= j < |m[1..]| ensures m[1..][j].0 != m[0].0 {
                assert m[1..][j] == m[j + 1];
              }
            }
            assert Get(rest, m[0].0) == None;
            assert DistinctKeys(m[1..]) by {
              forall i, j | 0 <= i < j < |m[1..]| ensures m[1..][i].0 != m[1..][j].0 {
                assert m[1..][i] == m[i + 1] && m[1..][j] == m[j + 1];
              }
            }
          }
        }
        r
  }

  /** `map.has` after `set` and `delete`: a set key is present, a deleted key is absent, and every other key is as before. */
  lemma HasAfterUpdates<K(!new), V>(m: seq<(K, V)>, k: K, v: V, k': K)
    ensures Has(Set(m, k, v), k') <==> k' == k || Has(m, k')
    ensures Has(Delete(m, k), k') <==> k' != k && Has(m, k')
  {
    assert Get(Set(m, k, v), k').Some? <==> k' == k || Get(m, k').Some?;
  }

  /** Looking a key up in a non-empty entry sequence checks the first entry, then the rest. */
  lemma GetCons<K(!new), V>(m: seq<(K, V)>, k: K)
    requires |m| > 0
    ensures Get(m, k) == if m[0].0 == k then Some(m[0].1) else Get(m[1..], k)
  {
  }

  /** With distinct keys, deleting a present key removes exactly its entry and keeps the order of the rest. */
  lemma {:induction false} DeleteAt<K(!new), V>(m: seq<(K, V)>, i: nat)
    requires DistinctKeys(m)
    requires i < |m|
    ensures Delete(m, m[i].0) == m[..i] + m[i + 1..]
  {
    if i == 0 {
      forall j | 0 <= j < |m[1..]| ensures m[1..][j].0 != m[0].0 {
        assert m[1..][j] == m[j + 1];
      }
      DeleteAbsent(m[1..], m[0].0);
    } else {
      DeleteAt(m[1..], i - 1);
      assert m[1..][i - 1].0 == m[i].0;
      assert m[..i] == [m[0]] + m[1..][..i - 1];
      assert m[i + 1..] == m[1..][i..];
    }
  }

  /** Deleting an absent key changes nothing. */
  lemma {:induction false} DeleteAbsent<K(!new), V>(m: seq<(K, V)>, k: K)
    requires !Has(m, k)
    ensures Delete(m, k) == m
  {
    if |m| > 0 {
      assert !Has(m[1..], k) by {
        forall j | 0 <= j < |m[1..]| ensures m[1..][j].0 != k {
          assert m[1..][j] == m[j + 1];
        }
      }
      DeleteAbsent(m[1..], k);
      assert m == [m[0]] + m[1..];
    }
  }

  /** `Array.from(map.values())`: the values in insertion order. */
  function Values<K, V>(m: seq<(K, V)>): (r: seq<V>)
    ensures |r| == |m|
    ensures forall i :: 0 <= i < |m| ==> r[i] == m[i].1
  {
    if |m| == 0 then [] else [m[0].1] + Values(m[1..])
  }
}
