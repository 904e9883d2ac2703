/**
 * The bounded least-recently-used map both readers keep (the `lru` crate's
 * `LruCache`, created with room for `CACHE_SIZE` entries).  Its state is
 * the sequence of key/value pairs from least to most recently used.
 * `get` moves a hit to the most-recent end; `put` replaces an existing key
 * (moving it there too) or, when the cache is full, drops the least
 * recently used pair before adding the new one.
 */
module Lru {
  import opened Wrappers

  /** `CACHE_SIZE`: the capacity of the word and resource caches. */
  const CacheSize: nat := 100

  /** No key appears twice. */
  predicate DistinctKeys<K(==), V(==)>(es: seq<(K, V)>)
  {
    forall i, j :: 0 <= i < j < |es| ==> es[i].0 != es[j].0
  }

  /** Where `k` sits in `es`, if anywhere. */
  function IndexOf<K(==), V(==)>(es: seq<(K, V)>, k: K): (r: Option<nat>)
    ensures r.Some? ==> r.value < |es| && es[r.value].0 == k
    ensures r.None? <==> forall i :: 0 <= i < |es| ==> es[i].0 != k
  {
    if |es| == 0 then None
    else if es[|es| - 1].0 == k then Some(|es| - 1)
    else IndexOf(es[..|es| - 1], k)
  }

  /** The value stored under `k`. */
  function Find<K(==), V(==)>(es: seq<(K, V)>, k: K): (r: Option<V>)
    ensures r.None? <==> forall i :: 0 <= i < |es| ==> es[i].0 != k
  {
    match IndexOf(es, k)
    case None => None
    case Some(i) => Some(es[i].1)
  }

  function Without<T>(s: seq<T>, i: nat): (r: seq<T>)
    requires i < |s|
    ensures |r| == |s| - 1
  {
    s[..i] + s[i + 1..]
  }

  /** The pairs after a `get` of `k`: a hit moves to the most-recent end. */
  function Touch<K(==), V(==)>(es: seq<(K, V)>, k: K): seq<(K, V)>
  {
    match IndexOf(es, k)
    case None => es
    case Some(i) => Without(es, i) + [es[i]]
  }

  /** The pairs after a `put` of `(k, v)` into a cache of room `capacity`. */
  function Insert<K(==), V(==)>(es: seq<(K, V)>, capacity: nat, k: K, v: V): seq<(K, V)>
  {
    match IndexOf(es, k)
    case Some(i) => Without(es, i) + [(k, v)]
    case None => (if |es| >= capacity && |es| > 0 then es[1..] else es) + [(k, v)]
  }

  class LruCache<K(==), V(==)> {
    /** Least recently used first. */
    var entries: seq<(K, V)>
    const capacity: nat

    ghost predicate Valid()
      reads this
    {
      0 < capacity && |entries| <= capacity && DistinctKeys(entries)
    }

    constructor (capacity: nat)
      requires capacity > 0
      ensures Valid() && this.capacity == capacity && entries == []
    {
      this.capacity := capacity;
      entries := [];
    }

    /** `LruCache::get`: the value under `k`, which becomes the most recently used. */
    method Get(k: K) returns (r: Option<V>)
      requires Valid()
      modifies this
      ensures Valid()
      ensures r == Find(old(entries), k)
      ensures entries == Touch(old(entries), k)
      ensures multiset(entries) == multiset(old(entries))
    {
      r := Find(entries, k);
      TouchKeepsPairs(entries, k);
      entries := Touch(entries, k);
    }

    /** `LruCache::put`: store `v` under `k` as the most recently used, evicting the least recently used when full. */
    method Put(k: K, v: V)
      requires Valid()
      modifies this
      ensures Valid()
      ensures entries == Insert(old(entries), capacity, k, v)
      ensures forall p :: p in entries ==> p == (k, v) || p in old(entries)
    {
      InsertKeepsShape(entries, capacity, k, v);
      entries := Insert(entries, capacity, k, v);
    }
  }

  // ---------------------------------------------------------------------
  // Properties
  // ---------------------------------------------------------------------

  lemma WithoutKeepsRest<T>(s: seq<T>, i: nat)
    requires i < |s|
    ensures multiset(Without(s, i)) + multiset{s[i]} == multiset(s)
    ensures forall x :: x in Without(s, i) ==> x in s
  {
    assert s == s[..i] + [s[i]] + s[i + 1..];
  }

  /** With distinct keys, the value found under `k` is `v` exactly when the pair `(k, v)` is stored. */
  lemma FindIsMembership<K, V>(es: seq<(K, V)>, k: K, v: V)
    requires DistinctKeys(es)
    ensures Find(es, k) == Some(v) <==> (k, v) in es
  {
    if (k, v) in es {
      var i :| 0 <= i < |es| && es[i] == (k, v);
      var j := IndexOf(es, k).value;
      assert i == j;
    }
  }

  /** A `get` reorders the pairs and changes none of them. */
  lemma TouchKeepsPairs<K, V>(es: seq<(K, V)>, k: K)
    ensures multiset(Touch(es, k)) == multiset(es)
  {
    match IndexOf(es, k)
    case None =>
    case Some(i) => WithoutKeepsRest(es, i);
  }

  /** After a `get` that hits, `k` is the most recently used. */
  lemma TouchMovesToBack<K, V>(es: seq<(K, V)>, k: K)
    requires Find(es, k).Some?
    ensures |Touch(es, k)| == |es| && Touch(es, k)[|es| - 1] == (k, Find(es, k).value)
  {
  }

  lemma DistinctWithout<K, V>(es: seq<(K, V)>, i: nat)
    requires i < |es| && DistinctKeys(es)
    ensures DistinctKeys(Without(es, i))
    ensures forall x :: x in Without(es, i) ==> x.0 != es[i].0
  {
    var w := Without(es, i);
    forall a, b | 0 <= a < b < |w|
      ensures w[a].0 != w[b].0
    {
      var a' := if a < i then a else a + 1;
      var b' := if b < i then b else b + 1;
      assert w[a] == es[a'] && w[b] == es[b'];
    }
    forall x | x in w
      ensures x.0 != es[i].0
    {
      var a :| 0 <= a < |w| && w[a] == x;
      assert w[a] == es[if a < i then a else a + 1];
    }
  }

  /** A `put` keeps the keys distinct and the size within the capacity. */
  lemma InsertKeepsShape<K, V>(es: seq<(K, V)>, capacity: nat, k: K, v: V)
    requires 0 < capacity && |es| <= capacity && DistinctKeys(es)
    ensures DistinctKeys(Insert(es, capacity, k, v))
    ensures |Insert(es, capacity, k, v)| <= capacity
    ensures forall p :: p in Insert(es, capacity, k, v) ==> p == (k, v) || p in es
  {
    match IndexOf(es, k)
    case Some(i) =>
      DistinctWithout(es, i);
      WithoutKeepsRest(es, i);
    case None =>
      var kept := if |es| >= capacity then es[1..] else es;
      assert forall x :: x in kept ==> x in es;
  }

  /** The pair a `put` stores is found under its key. */
  lemma FindAfterInsertSame<K, V>(es: seq<(K, V)>, capacity: nat, k: K, v: V)
    requires 0 < capacity && |es| <= capacity && DistinctKeys(es)
    ensures Find(Insert(es, capacity, k, v), k) == Some(v)
  {
    var es' := Insert(es, capacity, k, v);
    InsertKeepsShape(es, capacity, k, v);
    assert es'[|es'| - 1] == (k, v);
    FindIsMembership(es', k, v);
  }

  /** A key that was absent stays absent under a `put` of another key. */
  lemma FindAfterInsertAbsent<K, V>(es: seq<(K, V)>, capacity: nat, k: K, v: V, k': K)
    requires 0 < capacity && |es| <= capacity && DistinctKeys(es)
    requires k' != k && Find(es, k').None?
    ensures Find(Insert(es, capacity, k, v), k').None?
  {
    var es' := Insert(es, capacity, k, v);
    InsertKeepsShape(es, capacity, k, v);
    forall i | 0 <= i < |es'|
      ensures es'[i].0 != k'
    {
      assert es'[i] in es';
    }
  }

  /** The least recently used pair is gone after a `put` of a new key into a full cache. */
  lemma FindAfterEviction<K, V>(es: seq<(K, V)>, k: K, v: V)
    requires 0 < |es| && DistinctKeys(es) && IndexOf(es, k).None?
    ensures Find(Insert(es, |es|, k, v), es[0].0).None?
  {
    var es' := Insert(es, |es|, k, v);
    forall i | 0 <= i < |es'|
      ensures es'[i].0 != es[0].0
    {
      if i < |es'| - 1 {
        assert es'[i] == es[i + 1];
      }
    }
  }

  /** Any other stored pair survives a `put` unless it is evicted. */
  lemma FindAfterInsertKept<K, V>(es: seq<(K, V)>, capacity: nat, k: K, v: V, i: nat)
    requires 0 < capacity && |es| <= capacity && DistinctKeys(es)
    requires i < |es| && es[i].0 != k
    requires !(IndexOf(es, k).None? && |es| == capacity && i == 0)
    ensures Find(Insert(es, capacity, k, v), es[i].0) == Some(es[i].1)
  {
    InsertKeepsShape(es, capacity, k, v);
    InsertKeeps(es, capacity, k, v, i);
    FindIsMembership(Insert(es, capacity, k, v), es[i].0, es[i].1);
  }

  lemma InsertKeeps<K, V>(es: seq<(K, V)>, capacity: nat, k: K, v: V, i: nat)
    requires 0 < capacity && |es| <= capacity
    requires i < |es| && es[i].0 != k
    requires !(IndexOf(es, k).None? && |es| >= capacity && i == 0)
    ensures es[i] in Insert(es, capacity, k, v)
  {
    var found := IndexOf(es, k);
    if found.Some? {
      WithoutKeepsOthers(es, found.value, i);
    } else if |es| >= capacity {
      assert es[i] == es[1..][i - 1];
    }
  }

  lemma WithoutKeepsOthers<T>(s: seq<T>, j: nat, i: nat)
    requires j < |s| && i < |s| && i != j
    ensures s[i] in Without(s, j)
  {
    assert s[i] == Without(s, j)[if i < j then i else i - 1];
  }

  /**
   * After a `put` of `(k, v)`, `k` maps to `v`; every other key keeps its
   * value, except the least recently used one when a new key arrives in a
   * full cache: that one is gone.
   */
  lemma FindAfterInsert<K, V>(es: seq<(K, V)>, capacity: nat, k: K, v: V, k': K)
    requires 0 < capacity && |es| <= capacity && DistinctKeys(es)
    ensures Find(Insert(es, capacity, k, v), k') ==
      if k' == k then Some(v)
      else if IndexOf(es, k).None? && |es| == capacity && es[0].0 == k' then None
      else Find(es, k')
  {
    if k' == k {
      FindAfterInsertSame(es, capacity, k, v);
    } else if IndexOf(es, k).None? && |es| == capacity && es[0].0 == k' {
      FindAfterEviction(es, k, v);
    } else if Find(es, k').None? {
      FindAfterInsertAbsent(es, capacity, k, v, k');
    } else {
      var i := IndexOf(es, k').value;
      FindAfterInsertKept(es, capacity, k, v, i);
    }
  }
}
