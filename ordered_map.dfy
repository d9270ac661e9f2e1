/**
 * A Python dict as the normaliser uses it for its result: entries in
 * insertion order, at most one per key; assigning to a key that is already
 * present replaces its value where it stands, assigning to a new key
 * appends an entry.
 */
module OrderedMap {
  import opened Wrappers

  function Keys<K, V>(d: seq<(K, V)>): set<K>
  {
    set i | 0 <= i < |d| :: d[i].0
  }

  predicate DistinctKeys<K(==), V>(d: seq<(K, V)>)
  {
    forall i, j | 0 <= i < j < |d| :: d[i].0 != d[j].0
  }

  /** d.get(k): the value of the first entry with key k. */
  function Get<K(==), V>(d: seq<(K, V)>, k: K): (r: Option<V>)
    ensures r.Some? <==> k in Keys(d)
    ensures r.Some? ==> exists i | 0 <= i < |d| :: d[i] == (k, r.value) && forall j | 0 <= j < i :: d[j].0 != k
  {
    if d == [] then None
    else if d[0].0 == k then Some(d[0].1)
    else
      assert Keys(d) == {d[0].0} + Keys(d[1..]) by { KeysCons(d); }
      Get(d[1..], k)
  }

  /** With one entry per key, a lookup finds the value of that key's entry. */
  lemma {:induction false} GetDistinct<K, V>(d: seq<(K, V)>, i: int)
    requires DistinctKeys(d) && 0 <= i < |d|
    ensures Get(d, d[i].0) == Some(d[i].1)
  {
    if i > 0 {
      assert DistinctKeys(d[1..]) by {
        assert forall a, b | 0 <= a < b < |d| - 1 :: d[1..][a] == d[a + 1] && d[1..][b] == d[b + 1];
      }
      GetDistinct(d[1..], i - 1);
      assert d[1..][i - 1] == d[i];
    }
  }

  lemma KeysCons<K, V>(d: seq<(K, V)>)
    requires d != []
    ensures Keys(d) == {d[0].0} + Keys(d[1..])
  {
    forall k | k in Keys(d) ensures k in {d[0].0} + Keys(d[1..]) {
      var i :| 0 <= i < |d| && d[i].0 == k;
      if i > 0 {
        assert d[1..][i - 1].0 == k;
      }
    }
    forall k | k in Keys(d[1..]) ensures k in Keys(d) {
      var i :| 0 <= i < |d[1..]| && d[1..][i].0 == k;
      assert d[i + 1].0 == k;
    }
  }

  /** d[k] = v: afterwards k maps to v and every other key keeps its value. */
  function Put<K(==,!new), V>(d: seq<(K, V)>, k: K, v: V): (r: seq<(K, V)>)
    ensures Get(r, k) == Some(v)
    ensures forall k' | k' != k :: Get(r, k') == Get(d, k')
  {
    if d == [] then [(k, v)]
    else if d[0].0 == k then [(k, v)] + d[1..]
    else
      var r := [d[0]] + Put(d[1..], k, v);
      assert r[1..] == Put(d[1..], k, v);
      r
  }

  /** The key set grows by k, and the list by one entry exactly when k is new. */
  lemma {:induction false} PutKeys<K(!new), V>(d: seq<(K, V)>, k: K, v: V)
    ensures Keys(Put(d, k, v)) == Keys(d) + {k}
    ensures |Put(d, k, v)| == if k in Keys(d) then |d| else |d| + 1
  {
    var r := Put(d, k, v);
    if d != [] {
      KeysCons(d);
      KeysCons(r);
      if d[0].0 != k {
        PutKeys(d[1..], k, v);
        assert r[1..] == Put(d[1..], k, v);
      } else {
        assert r[1..] == d[1..];
      }
    }
  }

  /** The entries already present keep their places, and a new key is appended at the end. */
  lemma {:induction false} PutKeepsOrder<K(!new), V>(d: seq<(K, V)>, k: K, v: V)
    ensures |Put(d, k, v)| >= |d|
    ensures forall i | 0 <= i < |d| :: Put(d, k, v)[i].0 == d[i].0
    ensures k !in Keys(d) ==> |Put(d, k, v)| == |d| + 1 && Put(d, k, v)[|d|] == (k, v)
  {
    PutKeys(d, k, v);
    if d != [] && d[0].0 != k {
      var r := Put(d, k, v);
      KeysCons(d);
      PutKeepsOrder(d[1..], k, v);
      assert r[1..] == Put(d[1..], k, v);
    }
  }

  /** Assignment never creates a second entry for a key. */
  lemma PutDistinct<K(!new), V>(d: seq<(K, V)>, k: K, v: V)
    requires DistinctKeys(d)
    ensures DistinctKeys(Put(d, k, v))
  {
    var r := Put(d, k, v);
    PutKeys(d, k, v);
    PutKeepsOrder(d, k, v);
    forall i, j | 0 <= i < j < |r| ensures r[i].0 != r[j].0 {
      if j == |d| {
        assert k !in Keys(d);
        assert d[i].0 in Keys(d);
      }
    }
  }
}
