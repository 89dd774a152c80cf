/** The LRU cache: a `DoublyLinkedList` of nodes holding `Pair(key, value)`
    in recency order (front = most recently used, back = next to be evicted)
    and a map from each key to its node, so that a hit is found without a
    walk and promoted by a constant number of link rewrites.

    The ghost sequence `entries` is the cache's value; `Valid()` ties it to
    the list nodes' items and to the map. Each operation's new `entries` is
    the corresponding function of `LruSpec` applied to the old ones. */
module Lru {
  import opened Wrappers
  import opened Seqs
  import opened Nodes
  import opened Lists
  import opened LruSpec

  /** A subset as large as the whole set is the whole set. */
  lemma SubsetOfSameSize<T>(a: set<T>, b: set<T>)
    requires a <= b && |a| == |b|
    ensures a == b
  {
    var extra := b - a;
    assert b == a + extra;
    assert |b| == |a| + |extra|;
  }

  class LRUCache<K(==), V> {
    const deList: DoublyLinkedList<Pair<K, V>>
    /** Each cached key's node (the field `map` of the class). */
    var nodeMap: map<K, DLLNode<Pair<K, V>>>
    /** The bound on the number of entries (the field `size` of the class). */
    const capacity: int

    /** The cached pairs, most recently used first. */
    ghost var entries: seq<Pair<K, V>>

    ghost predicate Valid()
      reads this, deList, deList.Chain()`next, deList.Chain()`prev, deList.nodes`element, deList.tail`element
    {
      && this !in deList.Repr
      && deList.Valid()
      && deList.tail.element == None
      && |entries| == |deList.nodes|
      && Mirrors(deList.nodes, entries, nodeMap)
      && |nodeMap| == |entries|
      && |entries| <= capacity
    }

    /** An empty cache; the capacity must not be negative (see `NewCache`). */
    constructor (capacity: int)
      requires 0 <= capacity
      ensures Valid() && fresh(deList.Repr)
      ensures this.capacity == capacity && entries == [] && nodeMap == map[]
    {
      this.capacity := capacity;
      nodeMap := map[];
      deList := new DoublyLinkedList();
      entries := [];
    }

    /** No key is cached twice: two entries with one key would share a node. */
    lemma KeysUnique()
      requires Valid()
      ensures UniqueKeys(entries)
    {
      DistinctInner(deList.head, deList.nodes, deList.tail);
      var ks := Keys(entries);
      forall a, b | 0 <= a < b < |ks| ensures ks[a] != ks[b] {
        assert deList.nodes[a] != deList.nodes[b];
      }
    }

    /** The map and the list agree: the map's keys are the cached keys, each
        mapped to the node holding that key and its value, and the list, the
        map and the entries have the same size, at most the capacity. */
    lemma Agreement()
      requires Valid()
      ensures UniqueKeys(entries)
      ensures forall k :: k in nodeMap <==> k in Keys(entries)
      ensures forall k :: k in nodeMap ==>
        nodeMap[k] in deList.nodes && nodeMap[k].element == Some(Pair(k, Lookup(entries, k).value))
      ensures |nodeMap| == |entries| == deList.length <= capacity
    {
      KeysUnique();
      MapKeys();
      var ks := Keys(entries);
      forall k | k in nodeMap
        ensures nodeMap[k] in deList.nodes && nodeMap[k].element == Some(Pair(k, Lookup(entries, k).value))
      {
        var j := FirstIndex(ks, k);
        LookupMember(entries, k, entries[j].b);
      }
    }

    /** The map's keys are exactly the cached keys: every cached key is in
        the map, and the map has no more keys than there are entries. */
    lemma MapKeys()
      requires Valid()
      ensures nodeMap.Keys == set x | x in Keys(entries)
    {
      KeysUnique();
      KeysCovered(entries, nodeMap);
    }

    /** A map with as many keys as there are entries, each entry's key among
        them, has exactly the entries' keys when these are unique. */
    static lemma KeysCovered(es: seq<Pair<K, V>>, m: map<K, DLLNode<Pair<K, V>>>)
      requires UniqueKeys(es) && |m| == |es|
      requires forall i :: 0 <= i < |es| ==> es[i].a in m
      ensures m.Keys == set x | x in Keys(es)
    {
      var ks := Keys(es);
      var cached := set x | x in ks;
      assert cached <= m.Keys by {
        forall x | x in cached ensures x in m {
          var j :| 0 <= j < |ks| && ks[j] == x;
          assert es[j].a == x;
        }
      }
      DistinctCard(ks);
      SubsetOfSameSize(cached, m.Keys);
    }

    /** The entry-to-node correspondence of `Valid()`, for given sequences. */
    static ghost predicate Mirrors(ns: seq<DLLNode<Pair<K, V>>>, es: seq<Pair<K, V>>, m: map<K, DLLNode<Pair<K, V>>>)
      reads ns`element
    {
      && |es| == |ns|
      && (forall i :: 0 <= i < |es| ==> ns[i].element == Some(es[i]))
      && (forall i :: 0 <= i < |es| ==> es[i].a in m && m[es[i].a] == ns[i])
    }

    /** Moving node `i` to the front and entry `i` to the front keeps the
        correspondence. */
    static lemma MirrorsMoveToFront(ns: seq<DLLNode<Pair<K, V>>>, es: seq<Pair<K, V>>, m: map<K, DLLNode<Pair<K, V>>>, i: int)
      requires Mirrors(ns, es, m) && 0 <= i < |es|
      ensures Mirrors([ns[i]] + RemoveAt(ns, i), [es[i]] + RemoveAt(es, i), m)
    {
      forall a | 0 <= a < |es| ensures ([ns[i]] + RemoveAt(ns, i))[a] == ns[if a == 0 then i else if a <= i then a - 1 else a] {
        ConsRemoveAtAt(ns[i], ns, i, a);
      }
      forall a | 0 <= a < |es| ensures ([es[i]] + RemoveAt(es, i))[a] == es[if a == 0 then i else if a <= i then a - 1 else a] {
        ConsRemoveAtAt(es[i], es, i, a);
      }
    }

    /** Dropping the last entry and its node keeps the correspondence with
        the map from which the last key is removed. */
    static lemma MirrorsDropLast(ns: seq<DLLNode<Pair<K, V>>>, es: seq<Pair<K, V>>, m: map<K, DLLNode<Pair<K, V>>>)
      requires Mirrors(ns, es, m) && UniqueKeys(es) && es != []
      ensures Mirrors(ns[..|ns| - 1], es[..|es| - 1], m - {es[|es| - 1].a})
    {
      var n := |es| - 1;
      forall a | 0 <= a < n ensures es[a].a != es[n].a {
        assert Keys(es)[a] == es[a].a && Keys(es)[n] == es[n].a;
      }
    }

    /** A new node holding `p` put in front keeps the correspondence with the
        map that sends `p`'s (new) key to that node. */
    static lemma MirrorsCons(ns: seq<DLLNode<Pair<K, V>>>, es: seq<Pair<K, V>>, m: map<K, DLLNode<Pair<K, V>>>,
                             n: DLLNode<Pair<K, V>>, p: Pair<K, V>)
      requires Mirrors(ns, es, m) && p.a !in Keys(es) && n.element == Some(p)
      ensures Mirrors([n] + ns, [p] + es, m[p.a := n])
    {
      forall a | 0 <= a < |es| ensures es[a].a != p.a {
        assert Keys(es)[a] == es[a].a;
      }
    }

    /** `get(key)`: a miss answers `None` (null) and changes nothing; a hit
        answers the stored value and moves its node to the front. */
    method Get(key: K) returns (r: Option<V>)
      requires Valid()
      modifies this`entries, deList.Repr
      ensures Valid() && deList.Repr == old(deList.Repr)
      ensures r == Lookup(old(entries), key)
      ensures entries == Touch(old(entries), key)
    {
      MapKeys();
      if key !in nodeMap {
        return None;
      }
      var node := nodeMap[key];
      ghost var i := FirstIndex(Keys(entries), key);
      assert Touch(entries, key) == [entries[i]] + RemoveAt(entries, i);
      Promote(node, i);
      r := Some(node.element.value.b);
    }

    /** Moves the node of entry `i` to the front of the list, and the entry
        to the front of the entries (the `moveToFirst` of `get` and `put`). */
    method Promote(node: DLLNode<Pair<K, V>>, ghost i: int)
      requires Valid() && 0 <= i < |entries| && entries[i].a in nodeMap && node == nodeMap[entries[i].a]
      modifies this`entries, deList.Repr
      ensures Valid() && deList.Repr == old(deList.Repr)
      ensures entries == [old(entries)[i]] + RemoveAt(old(entries), i)
    {
      ghost var ns, es := deList.nodes, entries;
      assert node == ns[i] && FirstIndex(ns, node) == i by {
        KeysUnique();
        assert Keys(es)[i] == es[i].a;
        DistinctInner(deList.head, ns, deList.tail);
        DistinctFirstIndex(ns, i);
      }
      MirrorsMoveToFront(ns, es, nodeMap, i);
      entries := [es[i]] + RemoveAt(es, i);
      deList.FrameInRepr();
      deList.MoveToFirst(node);
    }

    /** `put(key, value)`: a cached key gets the new pair in its node, which
        moves to the front. A new key evicts the back entry when the cache
        is full, then goes in front in a new node. On a cache of capacity 0
        the eviction finds no node and the call fails with a null
        dereference, leaving the cache as it was. */
    method Put(key: K, value: V) returns (o: Outcome)
      requires Valid()
      modifies this, deList.Repr
      ensures Valid() && fresh(deList.Repr - old(deList.Repr))
      ensures o.Normal? ==> Update(old(entries), key, value, capacity) == Ok(entries)
      ensures o.Abrupt? ==> Update(old(entries), key, value, capacity) == Throw(o.ex) && entries == old(entries)
    {
      if key in nodeMap {
        Refresh(key, value);
        o := Normal;
      } else {
        o := Admit(key, value);
      }
    }

    /** The miss branch of `put`: evict when full, then insert in front. */
    method Admit(key: K, value: V) returns (o: Outcome)
      requires Valid() && key !in nodeMap
      modifies this, deList.Repr
      ensures Valid() && fresh(deList.Repr - old(deList.Repr))
      ensures o.Normal? ==> Update(old(entries), key, value, capacity) == Ok(entries)
      ensures o.Abrupt? ==> Update(old(entries), key, value, capacity) == Throw(o.ex) && entries == old(entries)
    {
      ghost var es := entries;
      MapKeys();
      assert FirstIndex(Keys(es), key) == -1;
      var size := deList.Size();
      if size > capacity - 1 {
        var evicted := EvictLast();
        if !evicted {
          return Abrupt(NullPointerException);
        }
        assert Update(es, key, value, capacity) == Ok([Pair(key, value)] + entries);
      } else {
        assert Update(es, key, value, capacity) == Ok([Pair(key, value)] + entries);
      }
      InsertNew(key, value);
      return Normal;
    }

    /** The hit branch of `put`: the key's node gets the new pair and moves
        to the front. */
    method Refresh(key: K, value: V)
      requires Valid() && key in nodeMap
      modifies this`entries, deList.Repr
      ensures Valid() && deList.Repr == old(deList.Repr)
      ensures Update(old(entries), key, value, capacity) == Ok(entries)
    {
      var p := Pair(key, value);
      var node := nodeMap[key];
      ghost var es := entries;
      MapKeys();
      ghost var i := FirstIndex(Keys(es), key);
      deList.FrameInRepr();
      Store(node, i, p);
      assert [p] + RemoveAt(es[i := p], i) == [p] + RemoveAt(es, i);
      Promote(node, i);
    }

    /** Entry `i`'s node gets the pair `p` with the same key (`setItem`). */
    method Store(node: DLLNode<Pair<K, V>>, ghost i: int, p: Pair<K, V>)
      requires Valid() && 0 <= i < |entries| && entries[i].a == p.a && p.a in nodeMap && node == nodeMap[p.a]
      modifies this`entries, node`element
      ensures Valid()
      ensures entries == old(entries)[i := p]
    {
      ghost var ns, es := deList.nodes, entries;
      assert node == ns[i] && Distinct(ns) by {
        DistinctInner(deList.head, ns, deList.tail);
      }
      node.SetItem(Some(p));
      assert Mirrors(ns, es[i := p], nodeMap) by {
        forall a | 0 <= a < |ns| && a != i ensures ns[a] != node {
          assert ns[a] != ns[i];
        }
      }
      entries := es[i := p];
    }

    /** The eviction of `put`: the back node leaves the list and its key
        leaves the map; on an empty list there is no back node. */
    method EvictLast() returns (evicted: bool)
      requires Valid()
      modifies this, deList.Repr
      ensures Valid() && deList.Repr <= old(deList.Repr)
      ensures evicted <==> old(entries) != []
      ensures !evicted ==> entries == old(entries) && nodeMap == old(nodeMap)
      ensures evicted ==> entries == old(entries[..|entries| - 1])
      ensures evicted ==> nodeMap == old(nodeMap) - {old(entries[|entries| - 1].a)}
    {
      ghost var ns, es := deList.nodes, entries;
      KeysUnique();
      deList.FrameInRepr();
      var last := deList.PollLast();
      if last == null {
        return false;
      }
      MirrorsDropLast(ns, es, nodeMap);
      nodeMap := nodeMap - {last.element.value.a};
      entries := es[..|es| - 1];
      return true;
    }

    /** The miss branch of `put` after any eviction: a new node holding the
        pair goes in front and the map sends the key to it. */
    method InsertNew(key: K, value: V)
      requires Valid() && key !in nodeMap && |entries| < capacity
      modifies this, deList.Repr
      ensures Valid() && fresh(deList.Repr - old(deList.Repr))
      ensures entries == [Pair(key, value)] + old(entries)
      ensures key in nodeMap && nodeMap == old(nodeMap)[key := nodeMap[key]]
    {
      var p := Pair(key, value);
      var newNode := new DLLNode(Some(p));
      MapKeys();
      MirrorsCons(deList.nodes, entries, nodeMap, newNode, p);
      deList.FrameInRepr();
      // The map is written before the list is linked; the two updates touch
      // disjoint state, so the order of `addFirst` and `map.put` is immaterial.
      nodeMap, entries := nodeMap[key := newNode], [p] + entries;
      deList.AddFirst(newNode);
    }

    /** `peek()`: the front entry's value, without reordering; on an empty
        cache the front is the tail sentinel, whose item is null. */
    method Peek() returns (r: Result<V>)
      requires Valid()
      ensures r == if entries == [] then Throw(NullPointerException) else Ok(entries[0].b)
    {
      var first := deList.PeekFirst();
      var item := first.GetItem();
      r := if item.None? then Throw(NullPointerException) else Ok(item.value.b);
    }
  }

  /** `new LRUCache(size)`: the backing `HashMap` rejects a negative initial
      capacity with `IllegalArgumentException`; otherwise the cache starts
      empty with `size` as its bound. */
  method NewCache<K(==), V>(capacity: int) returns (r: Result<LRUCache<K, V>>)
    ensures r.Throw? <==> capacity < 0
    ensures r.Throw? ==> r.ex == IllegalArgumentException
    ensures r.Ok? ==> r.value.Valid() && fresh(r.value) && fresh(r.value.deList.Repr)
    ensures r.Ok? ==> r.value.capacity == capacity && r.value.entries == []
  {
    if capacity < 0 {
      return Throw(IllegalArgumentException);
    }
    var cache := new LRUCache(capacity);
    return Ok(cache);
  }

  /** `put(key, value)` followed by `get(key)` answers `value` on any cache
      with room for one entry, and `key` is then the most recent entry. */
  method PutThenGet<K(==), V>(c: LRUCache<K, V>, key: K, value: V) returns (r: Option<V>)
    requires c.Valid() && 1 <= c.capacity
    modifies c, c.deList.Repr
    ensures c.Valid() && fresh(c.deList.Repr - old(c.deList.Repr))
    ensures r == Some(value)
    ensures c.entries != [] && c.entries[0] == Pair(key, value)
  {
    var _ := c.Put(key, value);
    UpdateThenLookup(old(c.entries), key, value, c.capacity);
    r := c.Get(key);
  }

  /** The console demonstration's cache run: a `get` on the empty cache
      misses; ten puts (one overwriting key 1) and a hit on key 5 follow;
      then key 7's new value is at the front, which `peek` reports. */
  method DemoScenario() returns (miss: Option<string>, hit: Option<string>, first: Result<string>)
    ensures miss == None
    ensures hit == Some("item_a")
    ensures first == Ok("item_l")
  {
    var c := new LRUCache<int, string>(10);
    miss := c.Get(1);
    hit := PutThenGet(c, 1, "item_a");
    PutTwo(c, 2, "item_b", 1, "item_c");
    PutTwo(c, 3, "item_d", 4, "item_e");
    PutTwo(c, 5, "item_f", 6, "item_g");
    PutTwo(c, 7, "item_h", 8, "item_i");
    PutTwo(c, 9, "item_j", 10, "item_k");
    var _ := c.Get(5);
    var _ := c.Put(7, "item_l");
    first := c.Peek();
  }

  /** Two puts in a row; on a cache with room neither fails. */
  method PutTwo<K(==), V>(c: LRUCache<K, V>, k1: K, v1: V, k2: K, v2: V)
    requires c.Valid() && 1 <= c.capacity
    modifies c, c.deList.Repr
    ensures c.Valid() && fresh(c.deList.Repr - old(c.deList.Repr))
  {
    var _ := c.Put(k1, v1);
    var _ := c.Put(k2, v2);
  }
}
