/**
 * The abstract behaviour of the LRU cache, on values.
 *
 * A cache is its recency order (keys, most recently used first), the value
 * stored for each key, and its fixed capacity. `Get` and `Put` below are the
 * reference definitions that the pointer-based `LRUCache` class is proved to
 * follow. The lemmas at the end prove the capacity invariant, that eviction
 * removes exactly the least recently used key, that an overwrite does not
 * change the size, and that the order is the keys sorted by most recent
 * access.
 */
module RecencySpec {
  import opened Sequences

  // ---------------------------------------------------------------------
  // The cache on values

  datatype Cache<K, V> = Cache(order: seq<K>, values: map<K, V>, limit: nat)

  /** What every reachable cache satisfies: the order lists each stored key
      exactly once, and there are never more keys than the limit. */
  ghost predicate Inv<K(!new), V>(c: Cache<K, V>) {
    1 <= c.limit &&
    Distinct(c.order) &&
    (forall k :: k in c.values <==> k in c.order) &&
    |c.order| <= c.limit
  }

  /** An empty cache of capacity `limit`. */
  ghost function Empty<K(!new), V>(limit: nat): (c: Cache<K, V>)
    requires 1 <= limit
    ensures Inv(c) && c.order == [] && c.limit == limit
  {
    Cache([], map[], limit)
  }

  /** A lookup: on a hit, the key becomes the most recently used one and its
      value is returned; on a miss nothing changes. */
  ghost function Get<K(!new), V>(c: Cache<K, V>, k: K): (res: (Cache<K, V>, Option<V>))
    requires Inv(c)
    ensures Inv(res.0) && res.0.values == c.values && res.0.limit == c.limit
    ensures k in c.values ==> res.1 == Some(c.values[k]) && res.0.order == MoveToFront(c.order, k)
    ensures k !in c.values ==> res == (c, None)
  {
    if k in c.values then
      MoveToFrontPermutes(c.order, k);
      (c.(order := MoveToFront(c.order, k)), Some(c.values[k]))
    else
      (c, None)
  }

  /** The cache after the least recently used key is dropped. */
  ghost function Evict<K(!new), V>(c: Cache<K, V>): (r: Cache<K, V>)
    requires Inv(c) && c.order != []
    ensures r.limit == c.limit
    ensures r.order == c.order[..|c.order| - 1]
    ensures c.order[|c.order| - 1] !in r.values
    ensures forall j :: j in r.values <==> j in c.values && j != c.order[|c.order| - 1]
    ensures Inv(r)
  {
    var lru := c.order[|c.order| - 1];
    DistinctInit(c.order);
    assert c.order == c.order[..|c.order| - 1] + [lru];
    Cache(c.order[..|c.order| - 1], c.values - {lru}, c.limit)
  }

  /** A new key goes in front with its value, into a cache with room for it. */
  ghost function Insert<K(!new), V>(c: Cache<K, V>, k: K, v: V): (r: Cache<K, V>)
    requires Inv(c) && k !in c.values && |c.order| < c.limit
    ensures Inv(r) && r.limit == c.limit && |r.order| == |c.order| + 1
    ensures r.order[0] == k && r.order[1..] == c.order
    ensures r.values.Keys == c.values.Keys + {k} && r.values[k] == v
  {
    DistinctCons(k, c.order);
    c.(order := [k] + c.order, values := c.values[k := v])
  }

  /** A store: an existing key gets the new value and moves to the front; a
      new key first evicts the least recently used key when the cache is
      full, then goes in front with its value. */
  ghost function Put<K(!new), V>(c: Cache<K, V>, k: K, v: V): (r: Cache<K, V>)
    requires Inv(c)
    ensures Inv(r) && r.limit == c.limit
    ensures r.order != [] && r.order[0] == k && k in r.values && r.values[k] == v
  {
    if k in c.values then
      MoveToFrontPermutes(c.order, k);
      c.(order := MoveToFront(c.order, k), values := c.values[k := v])
    else
      Insert(if |c.order| == c.limit then Evict(c) else c, k, v)
  }

  // ---------------------------------------------------------------------
  // Properties of Get and Put

  /** A hit leaves the size and the set of keys alone; so does a miss. */
  lemma GetKeepsKeys<K(!new), V>(c: Cache<K, V>, k: K)
    requires Inv(c)
    ensures |Get(c, k).0.order| == |c.order|
    ensures multiset(Get(c, k).0.order) == multiset(c.order)
  {
    if k in c.values {
      MoveToFrontPermutes(c.order, k);
    }
  }

  /** Storing under a present key keeps the size and the other keys' values,
      and keeps the other keys in their relative order behind it. */
  lemma PutExisting<K(!new), V>(c: Cache<K, V>, k: K, v: V)
    requires Inv(c) && k in c.values
    ensures var r := Put(c, k, v);
      |r.order| == |c.order| &&
      r.values.Keys == c.values.Keys &&
      (forall j :: j in c.values && j != k ==> r.values[j] == c.values[j]) &&
      (exists i :: 0 <= i < |c.order| && r.order == [k] + c.order[..i] + c.order[i + 1..])
  {
    var r := Put(c, k, v);
    assert r.order == [k] + Remove(c.order, k) && r.values == c.values[k := v];
    var i :| 0 <= i < |c.order| && c.order[i] == k;
    RemoveAt(c.order, i);
    assert r.order == [k] + c.order[..i] + c.order[i + 1..];
  }

  /** Storing a new key in a full cache evicts exactly the least recently used
      key, which a lookup then misses; every other key keeps its value. */
  lemma PutEvictsLeastRecent<K(!new), V>(c: Cache<K, V>, k: K, v: V)
    requires Inv(c) && k !in c.values && |c.order| == c.limit
    ensures var lru := c.order[|c.order| - 1]; var r := Put(c, k, v);
      lru !in r.values &&
      Get(r, lru).1 == None &&
      r.order == [k] + c.order[..|c.order| - 1] &&
      |r.order| == c.limit &&
      (forall j :: j in c.values && j != lru ==> j in r.values && r.values[j] == c.values[j])
  {
    var lru := c.order[|c.order| - 1];
    assert lru != k;
  }

  /** Storing a new key in a cache that is not full evicts nothing. */
  lemma PutGrows<K(!new), V>(c: Cache<K, V>, k: K, v: V)
    requires Inv(c) && k !in c.values && |c.order| < c.limit
    ensures var r := Put(c, k, v);
      r.order == [k] + c.order && r.values == c.values[k := v]
  {
  }

  /** Two stores under one key leave the cache as the second one alone would:
      the size does not change and a lookup returns the later value. */
  lemma PutOverwrite<K(!new), V>(c: Cache<K, V>, k: K, v1: V, v2: V)
    requires Inv(c)
    ensures Put(Put(c, k, v1), k, v2) == Put(c, k, v2)
    ensures Get(Put(Put(c, k, v1), k, v2), k).1 == Some(v2)
  {
    var r1 := Put(c, k, v1);
    MoveToFrontOfFront(r1.order);
    assert Put(r1, k, v2) == r1.(values := r1.values[k := v2]);
    if k in c.values {
      PutOverwritePresent(c, k, v1, v2);
    } else {
      PutOverwriteAbsent(c, k, v1, v2);
    }
  }

  lemma PutOverwritePresent<K(!new), V>(c: Cache<K, V>, k: K, v1: V, v2: V)
    requires Inv(c) && k in c.values
    ensures Put(c, k, v1).(values := Put(c, k, v1).values[k := v2]) == Put(c, k, v2)
  {
    assert c.values[k := v1][k := v2] == c.values[k := v2];
  }

  lemma PutOverwriteAbsent<K(!new), V>(c: Cache<K, V>, k: K, v1: V, v2: V)
    requires Inv(c) && k !in c.values
    ensures Put(c, k, v1).(values := Put(c, k, v1).values[k := v2]) == Put(c, k, v2)
  {
    var e := if |c.order| == c.limit then Evict(c) else c;
    assert e.values[k := v1][k := v2] == e.values[k := v2];
  }

  /** A hit protects its key: if the cache has room for at least two keys,
      the next store of a new key does not evict the key just looked up. */
  lemma GetPromotes<K(!new), V>(c: Cache<K, V>, k: K, k2: K, v: V)
    requires Inv(c) && k in c.values && k2 !in c.values && 2 <= c.limit
    ensures var g := Get(c, k).0;
      g.order[0] == k && k in Put(g, k2, v).values
  {
    var g := Get(c, k).0;
    MoveToFrontPermutes(c.order, k);
    assert g.order[0] == k;
    if |g.order| == g.limit {
      assert g.order[..|g.order| - 1][0] == k;
    }
  }

  // ---------------------------------------------------------------------
  // The order is the recency of access

  /** The keys of a history of accesses, most recent first, each once. */
  ghost function Recent<K>(h: seq<K>): (r: seq<K>)
    ensures Distinct(r)
  {
    if h == [] then []
    else
      var last := h[|h| - 1];
      RemoveDistinct(Recent(h[..|h| - 1]), last);
      RemoveMembers(Recent(h[..|h| - 1]), last);
      DistinctCons(last, Remove(Recent(h[..|h| - 1]), last));
      [last] + Remove(Recent(h[..|h| - 1]), last)
  }

  /** Cutting out an element that lies beyond the first `n` leaves those `n` alone. */
  lemma TakeRemoveBeyond<T>(s: seq<T>, x: T, n: nat)
    requires Distinct(s) && x !in Take(s, n + 1)
    ensures Take(Remove(s, x), n) == Take(s, n)
  {
    var t := Take(s, n + 1);
    if x in s {
      var i :| 0 <= i < |s| && s[i] == x;
      assert forall j :: 0 <= j < |t| ==> t[j] == s[j] && t[j] != x;
      assert n < i;
      RemoveAt(s, i);
      assert (s[..i] + s[i + 1..])[..n] == s[..n];
    } else {
      RemoveAbsent(s, x);
    }
  }

  /** Cutting an element out of the first `n + 1` and taking `n` is the same
      as cutting it out of the first `n + 1`. */
  lemma TakeRemoveWithin<T>(s: seq<T>, x: T, n: nat)
    requires Distinct(s) && x in Take(s, n + 1)
    ensures Take(Remove(s, x), n) == Remove(Take(s, n + 1), x)
  {
    var t := Take(s, n + 1);
    var i :| 0 <= i < |t| && t[i] == x;
    assert s[i] == x;
    RemoveAt(s, i);
    DistinctPrefix(s, |t|);
    RemoveAt(t, i);
  }

  /** One more access to `k` puts `k` in front of the most recent keys. */
  lemma TakeRecentSnoc<K>(h: seq<K>, k: K, n: nat)
    ensures Take(Recent(h + [k]), n + 1) == [k] + Take(Remove(Recent(h), k), n)
  {
    assert (h + [k])[..|h + [k]| - 1] == h;
    assert Recent(h + [k]) == [k] + Remove(Recent(h), k);
  }

  /** The recency order of a cache is the `limit` most recently accessed keys,
      most recent first, whatever the history of stores and hits: a store
      under `k` keeps that so for the history extended by `k`. Together with
      GetRecency this says that eviction always removes the key accessed
      longest ago. */
  lemma PutRecency<K(!new), V>(c: Cache<K, V>, h: seq<K>, k: K, v: V)
    requires Inv(c) && c.order == Take(Recent(h), c.limit)
    ensures Put(c, k, v).order == Take(Recent(h + [k]), c.limit)
  {
    var R := Recent(h);
    var n := c.limit - 1;
    TakeRecentSnoc(h, k, n);
    if k in c.values {
      TakeRemoveWithin(R, k, n);
      assert Put(c, k, v).order == [k] + Remove(c.order, k);
    } else {
      TakeRemoveBeyond(R, k, n);
      if |c.order| == c.limit {
        assert Take(R, n) == c.order[..|c.order| - 1];
      } else {
        assert Take(R, n) == R == c.order;
      }
    }
  }

  /** A lookup keeps the same correspondence for the history extended by the
      key on a hit, and for the unchanged history on a miss. */
  lemma GetRecency<K(!new), V>(c: Cache<K, V>, h: seq<K>, k: K)
    requires Inv(c) && c.order == Take(Recent(h), c.limit)
    ensures k in c.values ==> Get(c, k).0.order == Take(Recent(h + [k]), c.limit)
    ensures k !in c.values ==> Get(c, k).0.order == Take(Recent(h), c.limit)
  {
    if k in c.values {
      var n := c.limit - 1;
      TakeRecentSnoc(h, k, n);
      TakeRemoveWithin(Recent(h), k, n);
      assert Get(c, k).0.order == [k] + Remove(c.order, k);
    }
  }
}
