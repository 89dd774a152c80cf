/** The LRU cache as a value: its entries as a sequence of key/value pairs in
    recency order, the most recently used first and the eviction candidate
    last. The cache class keeps such a sequence as its ghost state and each
    of its operations is specified by one of the functions below. */
module LruSpec {
  import opened Wrappers
  import opened Seqs

  /** An immutable pair; the cache stores `Pair(key, value)` in each node. */
  datatype Pair<A, B> = Pair(a: A, b: B)

  /** The keys of the entries, in the same order. */
  function Keys<K, V>(s: seq<Pair<K, V>>): (r: seq<K>)
    ensures |r| == |s|
    ensures forall i :: 0 <= i < |s| ==> r[i] == s[i].a
  {
    seq(|s|, i requires 0 <= i < |s| => s[i].a)
  }

  /** No key is stored twice. */
  ghost predicate UniqueKeys<K, V>(s: seq<Pair<K, V>>) {
    Distinct(Keys(s))
  }

  /** The value stored under `k`, or `None` (Java's `null`) for a miss. */
  function Lookup<K(==), V>(s: seq<Pair<K, V>>, k: K): (r: Option<V>)
    ensures r.None? <==> k !in Keys(s)
    ensures r.Some? ==> Pair(k, r.value) in s
  {
    var i := FirstIndex(Keys(s), k);
    if i < 0 then None else Some(s[i].b)
  }

  /** The entries after `get(k)`: a hit moves the entry to the front, a miss
      changes nothing. */
  function Touch<K(==), V>(s: seq<Pair<K, V>>, k: K): (r: seq<Pair<K, V>>)
    ensures multiset(r) == multiset(s)
    ensures k in Keys(s) ==> r[0].a == k
    ensures k !in Keys(s) ==> r == s
  {
    var i := FirstIndex(Keys(s), k);
    if i < 0 then s
    else
      assert s == s[..i] + [s[i]] + s[i + 1..];
      [s[i]] + RemoveAt(s, i)
  }

  /** The entries after `put(k, v)` on a cache of the given capacity. A
      present key is overwritten and moved to the front. A new key first
      evicts the last entry when the cache holds more than `capacity - 1`
      entries; on an empty cache (capacity 0 or less) there is nothing to
      evict, and the eviction dereferences null. */
  function Update<K(==), V>(s: seq<Pair<K, V>>, k: K, v: V, capacity: int): (r: Result<seq<Pair<K, V>>>)
    ensures r.Throw? <==> k !in Keys(s) && s == [] && capacity <= 0
    ensures r.Throw? ==> r.ex == NullPointerException
    ensures r.Ok? ==> |r.value| > 0 && r.value[0] == Pair(k, v)
  {
    var i := FirstIndex(Keys(s), k);
    if 0 <= i then Ok([Pair(k, v)] + RemoveAt(s, i))
    else if |s| > capacity - 1 then
      if s == [] then Throw(NullPointerException) else Ok([Pair(k, v)] + s[..|s| - 1])
    else Ok([Pair(k, v)] + s)
  }

  /** `put(k, v)` of a new key evicts: the cache is at (or over) its bound
      and has an entry to drop. */
  predicate Evicts<K(==), V>(s: seq<Pair<K, V>>, k: K, capacity: int) {
    k !in Keys(s) && |s| > capacity - 1 && s != []
  }

  /** With unique keys, a lookup finds exactly the stored pair. */
  lemma LookupMember<K, V>(s: seq<Pair<K, V>>, x: K, w: V)
    requires UniqueKeys(s)
    ensures Lookup(s, x) == Some(w) <==> Pair(x, w) in s
  {
    if Pair(x, w) in s {
      var j :| 0 <= j < |s| && s[j] == Pair(x, w);
      DistinctFirstIndex(Keys(s), j);
    }
  }

  /** Two entry sequences that hold the same pairs for key `x` give the same
      answer for `x`. */
  lemma LookupAgree<K, V>(s: seq<Pair<K, V>>, t: seq<Pair<K, V>>, x: K)
    requires UniqueKeys(s) && UniqueKeys(t)
    requires forall w :: Pair(x, w) in s <==> Pair(x, w) in t
    ensures Lookup(s, x) == Lookup(t, x)
  {
    if Lookup(s, x).Some? {
      LookupMember(s, x, Lookup(s, x).value);
      LookupMember(t, x, Lookup(s, x).value);
    } else if Lookup(t, x).Some? {
      LookupMember(s, x, Lookup(t, x).value);
      LookupMember(t, x, Lookup(t, x).value);
    }
  }

  /** `get` only reorders: keys stay unique and every lookup is unchanged. */
  lemma TouchKeepsLookups<K, V>(s: seq<Pair<K, V>>, k: K)
    requires UniqueKeys(s)
    ensures UniqueKeys(Touch(s, k))
    ensures forall x :: Lookup(Touch(s, k), x) == Lookup(s, x)
    ensures forall x :: x in Keys(Touch(s, k)) <==> x in Keys(s)
  {
    var t := Touch(s, k);
    var i := FirstIndex(Keys(s), k);
    if 0 <= i {
      MoveToFrontUnique(s, i);
      forall x ensures Lookup(t, x) == Lookup(s, x) {
        forall w ensures Pair(x, w) in s <==> Pair(x, w) in t {
          assert Pair(x, w) in s <==> Pair(x, w) in multiset(s);
          assert Pair(x, w) in t <==> Pair(x, w) in multiset(t);
        }
        LookupAgree(s, t, x);
      }
    }
    forall x ensures x in Keys(t) <==> x in Keys(s) {
      assert Lookup(t, x).None? <==> x !in Keys(t);
    }
  }

  /** Moving an entry to the front keeps the keys unique. */
  lemma MoveToFrontUnique<K, V>(s: seq<Pair<K, V>>, i: int)
    requires UniqueKeys(s) && 0 <= i < |s|
    ensures UniqueKeys([s[i]] + RemoveAt(s, i))
  {
    var ks := Keys(s);
    KeysCons(s[i], RemoveAt(s, i));
    KeysRemoveAt(s, i);
    DistinctRemoveAt(ks, i);
    DistinctInsert(RemoveAt(ks, i), 0, ks[i]);
    assert Insert(RemoveAt(ks, i), 0, ks[i]) == [ks[i]] + RemoveAt(ks, i);
  }

  lemma KeysCons<K, V>(p: Pair<K, V>, r: seq<Pair<K, V>>)
    ensures Keys([p] + r) == [p.a] + Keys(r)
  {
  }

  lemma KeysRemoveAt<K, V>(s: seq<Pair<K, V>>, j: int)
    requires 0 <= j < |s|
    ensures Keys(RemoveAt(s, j)) == RemoveAt(Keys(s), j)
  {
    var l, r := Keys(RemoveAt(s, j)), RemoveAt(Keys(s), j);
    assert forall a :: 0 <= a < |l| ==> l[a] == r[a];
  }

  /** The entries `put(k, _)` keeps from `s`: all but the overwritten one or
      the evicted one. */
  function Kept<K(==), V>(s: seq<Pair<K, V>>, k: K, capacity: int): seq<Pair<K, V>>
  {
    var i := FirstIndex(Keys(s), k);
    if 0 <= i then RemoveAt(s, i)
    else if Evicts(s, k, capacity) then RemoveAt(s, |s| - 1)
    else s
  }

  /** A successful `put(k, v)` puts the new pair in front of the kept entries. */
  lemma UpdateShape<K, V>(s: seq<Pair<K, V>>, k: K, v: V, capacity: int)
    requires Update(s, k, v, capacity).Ok?
    ensures Update(s, k, v, capacity).value == [Pair(k, v)] + Kept(s, k, capacity)
  {
    if FirstIndex(Keys(s), k) < 0 && Evicts(s, k, capacity) {
      assert s[..|s| - 1] == RemoveAt(s, |s| - 1);
    }
  }

  /** The kept entries have unique keys, none of them `k`, and are exactly the
      pairs of `s` whose key is neither `k` nor the evicted one. */
  lemma KeptMembers<K, V>(s: seq<Pair<K, V>>, k: K, capacity: int)
    requires UniqueKeys(s)
    ensures UniqueKeys(Kept(s, k, capacity))
    ensures k !in Keys(Kept(s, k, capacity))
    ensures forall p :: p in Kept(s, k, capacity) <==>
      p in s && p.a != k && !(Evicts(s, k, capacity) && p.a == s[|s| - 1].a)
  {
    var i := FirstIndex(Keys(s), k);
    if 0 <= i {
      RemovedKey(s, i);
    } else if Evicts(s, k, capacity) {
      RemovedKey(s, |s| - 1);
      forall p | p in s ensures p.a != k {
        var j :| 0 <= j < |s| && s[j] == p;
        assert Keys(s)[j] == p.a;
      }
    } else {
      forall p | p in s ensures p.a != k {
        var j :| 0 <= j < |s| && s[j] == p;
        assert Keys(s)[j] == p.a;
      }
    }
  }

  /** Removing entry `d` removes exactly the pairs with its key. */
  lemma RemovedKey<K, V>(s: seq<Pair<K, V>>, d: int)
    requires UniqueKeys(s) && 0 <= d < |s|
    ensures UniqueKeys(RemoveAt(s, d))
    ensures s[d].a !in Keys(RemoveAt(s, d))
    ensures forall p :: p in RemoveAt(s, d) <==> p in s && p.a != s[d].a
  {
    var r := RemoveAt(s, d);
    KeysRemoveAt(s, d);
    DistinctRemoveAt(Keys(s), d);
    forall p ensures p in r <==> p in s && p.a != s[d].a {
      if p in s && p.a != s[d].a {
        var j :| 0 <= j < |s| && s[j] == p;
        assert j != d && r[if j < d then j else j - 1] == p;
      }
      if p in r {
        var j :| 0 <= j < |r| && r[j] == p;
        assert Keys(r)[j] == p.a;
        assert p == s[if j < d then j else j + 1];
      }
    }
  }

  /** `put` keeps the keys unique: the stored key is either overwritten in
      place of its old entry or new. */
  lemma UpdateKeepsUnique<K, V>(s: seq<Pair<K, V>>, k: K, v: V, capacity: int)
    requires UniqueKeys(s)
    requires Update(s, k, v, capacity).Ok?
    ensures UniqueKeys(Update(s, k, v, capacity).value)
  {
    var t := Update(s, k, v, capacity).value;
    var r := Kept(s, k, capacity);
    UpdateShape(s, k, v, capacity);
    KeptMembers(s, k, capacity);
    assert Keys(t) == [k] + Keys(r) by {
      KeysCons(Pair(k, v), r);
    }
    DistinctCons(k, Keys(r));
  }

  /** `put(k, v)` followed by `get(k)` returns `v` and leaves the order as it
      is, since `k` is already at the front. */
  lemma UpdateThenLookup<K, V>(s: seq<Pair<K, V>>, k: K, v: V, capacity: int)
    requires Update(s, k, v, capacity).Ok?
    ensures Lookup(Update(s, k, v, capacity).value, k) == Some(v)
    ensures Touch(Update(s, k, v, capacity).value, k) == Update(s, k, v, capacity).value
  {
    var t := Update(s, k, v, capacity).value;
    assert Keys(t)[0] == k;
    assert RemoveAt(t, 0) == t[1..];
  }

  /** The number of entries after `put`: unchanged for a present key or an
      eviction, one more otherwise; so a bound of `capacity` is kept. */
  lemma UpdateSize<K, V>(s: seq<Pair<K, V>>, k: K, v: V, capacity: int)
    requires Update(s, k, v, capacity).Ok?
    ensures |Update(s, k, v, capacity).value| ==
      if k in Keys(s) || Evicts(s, k, capacity) then |s| else |s| + 1
    ensures |s| <= capacity ==> |Update(s, k, v, capacity).value| <= capacity
  {
  }

  /** `put(k, v)` leaves every other key's entry alone, except that a new
      key at the bound evicts the key of the last (least recently used)
      entry, and only that key. */
  lemma UpdateOtherKeys<K, V>(s: seq<Pair<K, V>>, k: K, v: V, capacity: int)
    requires UniqueKeys(s)
    requires Update(s, k, v, capacity).Ok?
    ensures forall x :: x in Keys(Update(s, k, v, capacity).value) <==>
      (x == k || (x in Keys(s) && !(Evicts(s, k, capacity) && x == s[|s| - 1].a)))
    ensures forall x :: x != k ==> (Lookup(Update(s, k, v, capacity).value, x) ==
      if Evicts(s, k, capacity) && x == s[|s| - 1].a then None else Lookup(s, x))
  {
    var t := Update(s, k, v, capacity).value;
    var r := Kept(s, k, capacity);
    var evicts := Evicts(s, k, capacity);
    UpdateShape(s, k, v, capacity);
    UpdateKeepsUnique(s, k, v, capacity);
    KeptMembers(s, k, capacity);
    forall x | x != k
      ensures Lookup(t, x) == if evicts && x == s[|s| - 1].a then None else Lookup(s, x)
    {
      if evicts && x == s[|s| - 1].a {
        forall j | 0 <= j < |t| ensures Keys(t)[j] != x {
          if 0 < j {
            assert t[j] == r[j - 1] && r[j - 1] in r;
          }
        }
      } else {
        LookupAgree(s, t, x);
      }
    }
    forall x ensures x in Keys(t) <==> (x == k || (x in Keys(s) && !(evicts && x == s[|s| - 1].a))) {
      assert Keys(t)[0] == k;
      if x != k {
        assert Lookup(t, x).None? <==> x !in Keys(t);
      }
    }
  }

  /** `put` of a key that is not cached, with room to spare, puts the new
      pair in front of all the old entries. */
  lemma UpdateFresh<K, V>(s: seq<Pair<K, V>>, k: K, v: V, capacity: int)
    requires k !in Keys(s) && |s| < capacity
    ensures Update(s, k, v, capacity) == Ok([Pair(k, v)] + s)
  {
  }

  /** A cache whose entries have unique keys and fit its capacity is built
      back to front by puts of new keys: putting entry `j` into the entries
      after it yields the suffix from `j`. */
  lemma UpdateBuildsSuffix<K, V>(s: seq<Pair<K, V>>, j: int, capacity: int)
    requires UniqueKeys(s) && 0 <= j < |s| <= capacity
    ensures Update(s[j + 1..], s[j].a, s[j].b, capacity) == Ok(s[j..])
  {
    var ks := Keys(s);
    assert Keys(s[j + 1..]) == ks[j + 1..];
    assert ks[j] !in ks[j + 1..] by {
      forall b | j < b < |ks| ensures ks[b] != ks[j] {
      }
    }
    UpdateFresh(s[j + 1..], s[j].a, s[j].b, capacity);
    assert [s[j]] + s[j + 1..] == s[j..];
  }
}
