# rslather collections: a Dafny model

This project models the core of a small Java collections library:

- `DoublyLinkedList`: an intrusive doubly linked list of `DLLNode`s. It sits between two permanent sentinel nodes, `head` and `tail`, and keeps a `length` counter.
- `LRUCache`: a least-recently-used cache. It combines that list with a map from each key to its node.
- `ArrayDeque` and `ArrayListDeque`: two deques kept in reverse order in an `ArrayList`. The front of the deque is the last slot of the list, so deque index `i` is list index `size - 1 - i`.

Each Java class becomes a Dafny class with the same fields, and each method works on them in place.

- **Linked list.** The list's abstract value is a ghost sequence `nodes` of its live nodes, from front to back. `Valid()` says three things about the chain `[head] + nodes + [tail]`:
  - every neighbouring pair is linked both ways by `next` and `prev`;
  - no node occurs twice;
  - `length == |nodes|`.

  Every link-rewriting method names exactly the `next`/`prev` fields it may change. It states its new `nodes` as a function of the old ones.
- **Cache.** The cache's abstract value is a ghost sequence `entries` of `Pair(key, value)`, most recently used first. `Valid()` ties it to three things:
  - the items of the list's nodes, position by position;
  - the key-to-node map, which must be a bijection;
  - the capacity.

  `get` and `put` are proved against the pure functions `Lookup`, `Touch` and `Update` of module `LruSpec`. The lemmas there state what the cache promises: strict LRU eviction, read-your-write, and the key and size invariants.
- **Deques.** The backing list is the field `backing`, and `Contents()` is that list reversed. Every operation states its new contents, front first.

Java's `null` is `Option.None`. An exception is a `Throw` result for a call that returns a value, and an `Abrupt` outcome for a `void` call. Element equality (`equals`) is Dafny equality. Node identity (`==`) is reference equality.

The files are:

- `wrappers.dfy`: `Option`, `Result`, `Outcome` and the containers' `ifNullExcept`.
- `seqs.dfy`: the sequence vocabulary (positional insert and remove, first and last occurrence, reversal) and lemmas about it.
- `dll_node.dfy`: `DLLNode`.
- `doubly_linked_list.dfy`: `DoublyLinkedList`.
- `lru_spec.dfy`: the functional specification of the cache.
- `lru_cache.dfy`: `LRUCache`.
- `array_deque.dfy`: `ArrayDeque`.
- `array_list_deque.dfy`: `ArrayListDeque`.

Source paths below are relative to the repository root. In the prose below, DLL stands for `DoublyLinkedList`.

## Model

| member | source | states |
|---|---|---|
| Wrappers.IfNullExcept | src/main/java/in/rslather/utils/ArrayDeque.java:37-41 | a null argument gives `NoSuchElementException`; any other argument is returned unchanged |
| Nodes.DLLNode.constructor | src/main/java/in/rslather/DLLNode.java:17 | the node holds the given item, and both links are null |
| Nodes.DLLNode.Empty | src/main/java/in/rslather/DLLNode.java:19 | the node holds null, and both links are null |
| Nodes.DLLNode.GetNext | src/main/java/in/rslather/DLLNode.java:21 | answers the `next` link and changes nothing |
| Nodes.DLLNode.GetPrev | src/main/java/in/rslather/DLLNode.java:23 | answers the `prev` link and changes nothing |
| Nodes.DLLNode.GetItem | src/main/java/in/rslather/DLLNode.java:25 | answers the item and changes nothing |
| Nodes.DLLNode.SetItem | src/main/java/in/rslather/DLLNode.java:27 | replaces the item; only the `element` field is in its frame, so the links are untouched |
| Lists.SpliceLinks | src/main/java/in/rslather/DoublyLinkedList.java:92-98 | the four link writes of `insertRight` turn a linked chain into the chain with the new node right after the anchor |
| Lists.UnlinkLinks | src/main/java/in/rslather/DoublyLinkedList.java:64-68 | the two link writes of `removeNode` turn a linked chain into the chain without that node; the node's own links are not written |
| Lists.ReplaceLinks | src/main/java/in/rslather/DoublyLinkedList.java:78-82 | the four link writes of `replaceNode` turn a linked chain into the chain with the new node in the old one's place |
| Lists.DoublyLinkedList.constructor | src/main/java/in/rslather/DoublyLinkedList.java:31-38 | a valid empty list: `head.next == tail`, `tail.prev == head`, `length == 0`, and both sentinels hold null |
| Lists.DoublyLinkedList.InsertRight | src/main/java/in/rslather/DoublyLinkedList.java:91-101 | the list stays valid; the new node is inserted right after the anchor; `length` grows by one; only the anchor's `next`, its old successor's `prev` and the new node's links change |
| Lists.DoublyLinkedList.RemoveNode | src/main/java/in/rslather/DoublyLinkedList.java:63-71 | the list stays valid; the live node is removed with all other nodes in order; `length` drops by one; the removed node's own links are outside the frame and so keep their values |
| Lists.DoublyLinkedList.ReplaceNode | src/main/java/in/rslather/DoublyLinkedList.java:77-83 | the list stays valid; the new node takes the old one's position; `length` is unchanged |
| Lists.DoublyLinkedList.InsertLeft | src/main/java/in/rslather/DoublyLinkedList.java:109 | is `insertRight(rightNode.prev, newNode)`: the new node lands right before `rightNode` |
| Lists.DoublyLinkedList.AddFirst | src/main/java/in/rslather/DoublyLinkedList.java:184 | the node becomes the first live node; the rest follow it in their old order |
| Lists.DoublyLinkedList.AddLast | src/main/java/in/rslather/DoublyLinkedList.java:187 | the node becomes the last live node; the rest precede it in their old order |
| Lists.DoublyLinkedList.MoveToFirst | src/main/java/in/rslather/DoublyLinkedList.java:45-48 | the node is now next to `head`; the other nodes keep their relative order; `length` and the footprint are unchanged |
| Lists.DoublyLinkedList.MoveToLast | src/main/java/in/rslather/DoublyLinkedList.java:55-58 | the node is now next to `tail`; the other nodes keep their relative order; `length` and the footprint are unchanged |
| Lists.DoublyLinkedList.Clear | src/main/java/in/rslather/DoublyLinkedList.java:177-181 | the sentinels point at each other; `length == 0` |
| Lists.DoublyLinkedList.PeekFirst | src/main/java/in/rslather/DoublyLinkedList.java:234 | answers the first live node; on an empty list it answers the tail sentinel, not null |
| Lists.DoublyLinkedList.PeekLast | src/main/java/in/rslather/DoublyLinkedList.java:237 | answers the last live node; on an empty list it answers the head sentinel, not null |
| Lists.DoublyLinkedList.GetFirst | src/main/java/in/rslather/DoublyLinkedList.java:228 | never throws: the answer is the first live node, or the tail sentinel when the list is empty |
| Lists.DoublyLinkedList.GetLast | src/main/java/in/rslather/DoublyLinkedList.java:231 | never throws: the answer is the last live node, or the head sentinel when the list is empty |
| Lists.DoublyLinkedList.OfferFirst | src/main/java/in/rslather/DoublyLinkedList.java:190-193 | same effect as `addFirst`, and answers true |
| Lists.DoublyLinkedList.OfferLast | src/main/java/in/rslather/DoublyLinkedList.java:196-199 | same effect as `addLast`, and answers true |
| Lists.DoublyLinkedList.PollFirst | src/main/java/in/rslather/DoublyLinkedList.java:208-215 | on an empty list it answers null and changes nothing; otherwise it removes and answers the first node, and `length` drops by one |
| Lists.DoublyLinkedList.PollLast | src/main/java/in/rslather/DoublyLinkedList.java:218-225 | on an empty list it answers null and changes nothing; otherwise it removes and answers the last node, and `length` drops by one |
| Lists.DoublyLinkedList.RemoveFirst | src/main/java/in/rslather/DoublyLinkedList.java:202 | on an empty list it throws `NoSuchElementException`; otherwise it removes and answers the first node |
| Lists.DoublyLinkedList.RemoveLast | src/main/java/in/rslather/DoublyLinkedList.java:205 | on an empty list it throws `NoSuchElementException`; otherwise it removes and answers the last node |
| Lists.DoublyLinkedList.Size | src/main/java/in/rslather/DoublyLinkedList.java:293 | `length` is the number of live nodes |
| Lists.DoublyLinkedList.Contains | src/main/java/in/rslather/DoublyLinkedList.java:284-290 | the walk from `head` answers true exactly when the node is a live node (compared by identity) |
| Lists.DoublyLinkedList.IndexOf | src/main/java/in/rslather/DoublyLinkedList.java:337-345 | the walk answers the node's position, or -1 when the node is not in the list |
| Lists.DoublyLinkedList.RemoveFirstOccurrence | src/main/java/in/rslather/DoublyLinkedList.java:240-248 | answers true exactly when the node is live, and then unlinks it; otherwise nothing changes |
| Lists.DoublyLinkedList.RemoveLastOccurrence | src/main/java/in/rslather/DoublyLinkedList.java:251 | delegating to `removeFirstOccurrence` removes the last occurrence too, because nodes are distinct |
| Lists.DoublyLinkedList.LastIndexOf | src/main/java/in/rslather/DoublyLinkedList.java:348 | delegating to `indexOf` gives the last position too, because nodes are distinct |
| Lists.DoublyLinkedList.GetForward | src/main/java/in/rslather/DoublyLinkedList.java:122-128 | the forward walk answers the `index`-th live node, or null outside `[0, size)` |
| Lists.DoublyLinkedList.GetBackward | src/main/java/in/rslather/DoublyLinkedList.java:130-138 | as written, the `k`-th node from the back is matched against `size - 1 + k`; only index `size - 1` is found in range |
| Lists.DoublyLinkedList.GetBackwardCorrected | src/main/java/in/rslather/DoublyLinkedList.java:130-138 | with the counter decremented, the backward walk answers the `index`-th live node, or null |
| Lists.DoublyLinkedList.Get | src/main/java/in/rslather/DoublyLinkedList.java:308-316 | outside `[0, size)` it throws `IndexOutOfBoundsException`; it answers the `index`-th node in the front half and at `size - 1`, and null at every other back-half position |
| Lists.DoublyLinkedList.GetCorrected | src/main/java/in/rslather/DoublyLinkedList.java:308-316 | outside `[0, size)` it throws `IndexOutOfBoundsException`; otherwise it answers the `index`-th live node |
| Lists.GetBackwardCounterexample | src/main/java/in/rslather/DoublyLinkedList.java:130-138 | on a list of four nodes, `get(2)` answers null as written, and a live node when corrected |
| LruSpec.Keys | src/main/java/in/rslather/example/LRUCache.java:14 | the keys of the entries, position by position |
| LruSpec.Lookup | src/main/java/in/rslather/example/LRUCache.java:24-31 | `get`'s answer: None exactly when the key is not cached; otherwise a value stored with that key |
| LruSpec.Touch | src/main/java/in/rslather/example/LRUCache.java:24-31 | `get`'s reordering: the same entries (as a multiset), with a hit key moved to the front; a miss leaves the entries unchanged |
| LruSpec.Update | src/main/java/in/rslather/example/LRUCache.java:35-48 | `put`: fails with `NullPointerException` exactly when the key is new, the cache is empty and the capacity is at most 0; otherwise the new pair is at the front |
| LruSpec.LookupMember | src/main/java/in/rslather/example/LRUCache.java:24-31 | with unique keys, `get` answers `v` exactly when `(k, v)` is cached |
| LruSpec.LookupAgree | src/main/java/in/rslather/example/LRUCache.java:24-31 | two caches that hold the same pairs for a key answer `get` on it alike |
| LruSpec.TouchKeepsLookups | src/main/java/in/rslather/example/LRUCache.java:28-30 | a hit keeps keys unique, keeps every key's value, and neither adds nor removes a key |
| LruSpec.MoveToFrontUnique | src/main/java/in/rslather/example/LRUCache.java:29 | moving an entry to the front keeps keys unique |
| LruSpec.UpdateShape | src/main/java/in/rslather/example/LRUCache.java:35-48 | a successful `put` is the new pair followed by the kept entries: the old ones without the key, and without the least recently used one when the cache is full |
| LruSpec.KeptMembers | src/main/java/in/rslather/example/LRUCache.java:36-42 | the kept entries have unique keys, do not contain the key, and are exactly the old pairs that were neither the key nor evicted |
| LruSpec.RemovedKey | src/main/java/in/rslather/example/LRUCache.java:41-42 | removing one entry removes exactly that entry's key and no other |
| LruSpec.UpdateKeepsUnique | src/main/java/in/rslather/example/LRUCache.java:35-48 | `put` keeps every key cached at most once, which is the key-to-node bijection |
| LruSpec.UpdateThenLookup | src/main/java/in/rslather/example/LRUCache.java:35-48 | after `put(k, v)`, `get(k)` answers `v` and leaves the order as it is |
| LruSpec.UpdateSize | src/main/java/in/rslather/example/LRUCache.java:41-46 | the size grows by one unless the key was cached or an entry was evicted; a cache within its capacity stays within it |
| LruSpec.UpdateOtherKeys | src/main/java/in/rslather/example/LRUCache.java:41-46 | strict LRU: the keys afterwards are the old keys plus `k`, minus the least recently used key when it is evicted; every other key keeps its value |
| LruSpec.UpdateFresh | src/main/java/in/rslather/example/LRUCache.java:44-46 | a new key in a cache with room is put in front, and nothing else changes |
| LruSpec.UpdateBuildsSuffix | src/main/java/in/rslather/example/LRUCache.java:44-46 | re-putting the entries of a cache with room, oldest first, rebuilds that cache |
| Lru.LRUCache.constructor | src/main/java/in/rslather/example/LRUCache.java:18-22 | a valid empty cache with the given capacity and an empty map |
| Lru.LRUCache.KeysUnique | src/main/java/in/rslather/example/LRUCache.java:13-16 | a valid cache holds each key at most once |
| Lru.LRUCache.Agreement | src/main/java/in/rslather/example/LRUCache.java:13-16 | the map's keys are the cached keys; each maps to a live node whose item is that key's pair; map size, entry count and list length are equal and within the capacity |
| Lru.LRUCache.MapKeys | src/main/java/in/rslather/example/LRUCache.java:14 | the map's key set is the set of cached keys |
| Lru.LRUCache.Get | src/main/java/in/rslather/example/LRUCache.java:24-31 | answers `Lookup` of the old entries; the new entries are `Touch` of the old ones; the cache stays valid and no node is added or removed |
| Lru.LRUCache.Promote | src/main/java/in/rslather/example/LRUCache.java:29 | moving a cached key's node to the front moves its entry to the front |
| Lru.LRUCache.Put | src/main/java/in/rslather/example/LRUCache.java:35-48 | a normal return makes the new entries `Update` of the old ones; an exception is the one `Update` predicts, and the entries are unchanged; the cache stays valid |
| Lru.LRUCache.Refresh | src/main/java/in/rslather/example/LRUCache.java:36-39 | a cached key gets the new pair and moves to the front; nothing is evicted |
| Lru.LRUCache.Store | src/main/java/in/rslather/example/LRUCache.java:38 | `setItem` on a cached key's node replaces that one entry in place |
| Lru.LRUCache.Admit | src/main/java/in/rslather/example/LRUCache.java:40-47 | the miss branch of `put` agrees with `Update`; with capacity 0 it fails with `NullPointerException` and changes nothing |
| Lru.LRUCache.EvictLast | src/main/java/in/rslather/example/LRUCache.java:42 | the least recently used entry and exactly its key leave the cache; an empty cache answers false and is unchanged |
| Lru.LRUCache.InsertNew | src/main/java/in/rslather/example/LRUCache.java:44-46 | a new node holding the pair becomes the front, and the key maps to it |
| Lru.LRUCache.Peek | src/main/java/in/rslather/example/LRUCache.java:33 | answers the front entry's value without reordering; on an empty cache it throws `NullPointerException` (the tail sentinel's item is null) |
| Lru.NewCache | src/main/java/in/rslather/example/LRUCache.java:18-22 | a negative capacity makes the `HashMap` throw `IllegalArgumentException`; otherwise the cache is valid and empty |
| Lru.PutThenGet | src/main/java/in/rslather/example/LRUCache.java:24-48 | on a cache with room for one entry, `put(k, v)` and then `get(k)` answers `v`, with `k` most recent |
| Lru.DemoScenario | src/main/java/in/rslather/example/LRUCache.java:53-86 | the demonstration run: `get(1)` on the empty cache misses, `get(1)` after `put(1, "item_a")` hits, and after the later puts and `get(5)`, `peek()` answers `"item_l"` |
| ArrayDeques.ArrayDeque.constructor | src/main/java/in/rslather/utils/ArrayDeque.java:25 | an empty deque |
| ArrayDeques.ArrayDeque.FromCollection | src/main/java/in/rslather/utils/ArrayDeque.java:29 | the copy is not reversed, so the deque is the collection reversed: its first element becomes the deque's last |
| ArrayDeques.NewWithCapacity | src/main/java/in/rslather/utils/ArrayDeque.java:27 | a negative initial size throws `IllegalArgumentException`; otherwise the deque is empty |
| ArrayDeques.ArrayDeque.Size | src/main/java/in/rslather/utils/ArrayDeque.java:157 | the number of elements in the deque |
| ArrayDeques.ArrayDeque.Get | src/main/java/in/rslather/utils/ArrayDeque.java:31 | reading list index `size - 1 - i` answers deque element `i`; outside `[0, size)` it throws `IndexOutOfBoundsException` |
| ArrayDeques.ArrayDeque.Set | src/main/java/in/rslather/utils/ArrayDeque.java:33 | replaces deque element `i` and answers the old one; out of range it throws and nothing changes |
| ArrayDeques.ArrayDeque.RemoveAtIndex | src/main/java/in/rslather/utils/ArrayDeque.java:35 | removes deque element `i` and answers it; out of range it throws and nothing changes |
| ArrayDeques.ArrayDeque.AddFirst | src/main/java/in/rslather/utils/ArrayDeque.java:44 | appending to the list puts the element at the front of the deque |
| ArrayDeques.ArrayDeque.AddLast | src/main/java/in/rslather/utils/ArrayDeque.java:47 | inserting at list index 0 puts the element at the back of the deque |
| ArrayDeques.ArrayDeque.OfferFirst | src/main/java/in/rslather/utils/ArrayDeque.java:50-53 | as `addFirst`, and answers true |
| ArrayDeques.ArrayDeque.OfferLast | src/main/java/in/rslather/utils/ArrayDeque.java:56-59 | as `addLast`, and answers true |
| ArrayDeques.ArrayDeque.PollFirst | src/main/java/in/rslather/utils/ArrayDeque.java:68-72 | empty: null, no change; otherwise removes and answers the front element |
| ArrayDeques.ArrayDeque.PollLast | src/main/java/in/rslather/utils/ArrayDeque.java:75-79 | empty: null, no change; otherwise removes and answers the back element |
| ArrayDeques.ArrayDeque.RemoveFirst | src/main/java/in/rslather/utils/ArrayDeque.java:62 | `pollFirst`; a null answer (empty deque, or a null at the front) becomes `NoSuchElementException` |
| ArrayDeques.ArrayDeque.RemoveLast | src/main/java/in/rslather/utils/ArrayDeque.java:65 | `pollLast`; a null answer becomes `NoSuchElementException` |
| ArrayDeques.ArrayDeque.PeekFirst | src/main/java/in/rslather/utils/ArrayDeque.java:88-92 | the front element, or null when empty; no change |
| ArrayDeques.ArrayDeque.PeekLast | src/main/java/in/rslather/utils/ArrayDeque.java:95-99 | the back element, or null when empty; no change |
| ArrayDeques.ArrayDeque.GetFirst | src/main/java/in/rslather/utils/ArrayDeque.java:82 | succeeds exactly when the front exists and is not null, and then answers it; otherwise `NoSuchElementException` |
| ArrayDeques.ArrayDeque.GetLast | src/main/java/in/rslather/utils/ArrayDeque.java:85 | succeeds exactly when the back exists and is not null, and then answers it; otherwise `NoSuchElementException` |
| ArrayDeques.ArrayDeque.RemoveFirstOccurrence | src/main/java/in/rslather/utils/ArrayDeque.java:102-118 | the downward scan answers true exactly when `o` occurs, and removes its match closest to the front; otherwise nothing changes |
| ArrayDeques.ArrayDeque.RemoveLastOccurrence | src/main/java/in/rslather/utils/ArrayDeque.java:121 | the list's `remove(o)` removes the match closest to the back of the deque |
| ArrayDeques.ArrayDeque.RemoveObject | src/main/java/in/rslather/utils/ArrayDeque.java:151 | as written: removes the match closest to the BACK of the deque |
| ArrayDeques.ArrayDeque.RemoveObjectCorrected | src/main/java/in/rslather/utils/ArrayDeque.java:151 | as the `Deque` contract asks: removes the match closest to the front |
| ArrayDeques.RemoveObjectCounterexample | src/main/java/in/rslather/utils/ArrayDeque.java:151 | on `[1, 2, 1]`, `remove(Integer.valueOf(1))` leaves `[1, 2]` as written and `[2, 1]` when corrected |
| ArrayDeques.ArrayDeque.Add | src/main/java/in/rslather/utils/ArrayDeque.java:124-127 | appends at the back and answers true |
| ArrayDeques.ArrayDeque.Offer | src/main/java/in/rslather/utils/ArrayDeque.java:130 | appends at the back and answers true |
| ArrayDeques.ArrayDeque.Remove | src/main/java/in/rslather/utils/ArrayDeque.java:133 | same as `removeFirst` |
| ArrayDeques.ArrayDeque.Poll | src/main/java/in/rslather/utils/ArrayDeque.java:136 | same as `pollFirst` |
| ArrayDeques.ArrayDeque.Element | src/main/java/in/rslather/utils/ArrayDeque.java:139 | same as `getFirst` |
| ArrayDeques.ArrayDeque.Peek | src/main/java/in/rslather/utils/ArrayDeque.java:142 | same as `peekFirst` |
| ArrayDeques.ArrayDeque.Push | src/main/java/in/rslather/utils/ArrayDeque.java:145 | puts the element at the front |
| ArrayDeques.ArrayDeque.Pop | src/main/java/in/rslather/utils/ArrayDeque.java:148 | same as `removeFirst` |
| ArrayDeques.ArrayDeque.Contains | src/main/java/in/rslather/utils/ArrayDeque.java:154 | true exactly when the element is in the deque |
| ArrayDeques.ArrayDeque.Clear | src/main/java/in/rslather/utils/ArrayDeque.java:195 | the deque becomes empty |
| ArrayDeques.PushThenPop | src/main/java/in/rslather/utils/ArrayDeque.java:144-148 | LIFO: `push(e)` then `pop()` answers `e` and restores the deque |
| ArrayDeques.OfferThenPoll | src/main/java/in/rslather/utils/ArrayDeque.java:129-136 | FIFO: `offer(e)` then `poll()` answers the old front, and `e` ends at the back |
| ArrayDeques.AddThenPeek | src/main/java/in/rslather/utils/ArrayDeque.java:44-47 | after `addFirst(e)`, `peekFirst()` answers `e`; after `addLast(e)`, `peekLast()` answers `e` |
| ArrayListDeques.ArrayListDeque.constructor | src/main/java/in/rslather/utils/ArrayListDeque.java:27 | an empty deque |
| ArrayListDeques.ArrayListDeque.FromCollection | src/main/java/in/rslather/utils/ArrayListDeque.java:31-34 | the copy is reversed, so the deque lists the collection in its own order |
| ArrayListDeques.ArrayListDeque.Wrap | src/main/java/in/rslather/utils/ArrayListDeque.java:37 | adopts the list unreversed: the deque is that list reversed |
| ArrayListDeques.NewWithCapacity | src/main/java/in/rslather/utils/ArrayListDeque.java:29 | a negative initial size throws `IllegalArgumentException`; otherwise the deque is empty |
| ArrayListDeques.ArrayListDeque.Size | src/main/java/in/rslather/utils/ArrayListDeque.java:165 | the number of elements in the deque |
| ArrayListDeques.ArrayListDeque.LastI | src/main/java/in/rslather/utils/ArrayListDeque.java:167 | the list index holding the front of the deque |
| ArrayListDeques.ArrayListDeque.ToArrayI | src/main/java/in/rslather/utils/ArrayListDeque.java:169 | a valid list index exactly for a valid deque index, and both name the same element |
| ArrayListDeques.ArrayListDeque.Get | src/main/java/in/rslather/utils/ArrayListDeque.java:39 | deque element `i`; outside `[0, size)` it throws `IndexOutOfBoundsException` |
| ArrayListDeques.ArrayListDeque.Set | src/main/java/in/rslather/utils/ArrayListDeque.java:41 | replaces deque element `i` and answers the old one; out of range it throws and nothing changes |
| ArrayListDeques.ArrayListDeque.RemoveAtIndex | src/main/java/in/rslather/utils/ArrayListDeque.java:43 | removes deque element `i` and answers it; out of range it throws and nothing changes |
| ArrayListDeques.ArrayListDeque.AddFirst | src/main/java/in/rslather/utils/ArrayListDeque.java:52 | the element goes to the front |
| ArrayListDeques.ArrayListDeque.AddLast | src/main/java/in/rslather/utils/ArrayListDeque.java:55 | the element goes to the back |
| ArrayListDeques.ArrayListDeque.OfferFirst | src/main/java/in/rslather/utils/ArrayListDeque.java:58-61 | as `addFirst`, and answers true |
| ArrayListDeques.ArrayListDeque.OfferLast | src/main/java/in/rslather/utils/ArrayListDeque.java:64-67 | as `addLast`, and answers true |
| ArrayListDeques.ArrayListDeque.PollFirst | src/main/java/in/rslather/utils/ArrayListDeque.java:76-80 | empty: null, no change; otherwise removes and answers the front element |
| ArrayListDeques.ArrayListDeque.PollLast | src/main/java/in/rslather/utils/ArrayListDeque.java:83-87 | empty: null, no change; otherwise removes and answers the back element |
| ArrayListDeques.ArrayListDeque.RemoveFirst | src/main/java/in/rslather/utils/ArrayListDeque.java:70 | `pollFirst`; a null answer becomes `NoSuchElementException` |
| ArrayListDeques.ArrayListDeque.RemoveLast | src/main/java/in/rslather/utils/ArrayListDeque.java:73 | `pollLast`; a null answer becomes `NoSuchElementException` |
| ArrayListDeques.ArrayListDeque.PeekFirst | src/main/java/in/rslather/utils/ArrayListDeque.java:96-100 | the front element, or null when empty; no change |
| ArrayListDeques.ArrayListDeque.PeekLast | src/main/java/in/rslather/utils/ArrayListDeque.java:103-107 | the back element, or null when empty; no change |
| ArrayListDeques.ArrayListDeque.GetFirst | src/main/java/in/rslather/utils/ArrayListDeque.java:90 | succeeds exactly when the front exists and is not null; otherwise `NoSuchElementException` |
| ArrayListDeques.ArrayListDeque.GetLast | src/main/java/in/rslather/utils/ArrayListDeque.java:93 | succeeds exactly when the back exists and is not null; otherwise `NoSuchElementException` |
| ArrayListDeques.ArrayListDeque.RemoveFirstOccurrence | src/main/java/in/rslather/utils/ArrayListDeque.java:110-126 | the downward scan answers true exactly when `o` occurs, and removes its match closest to the front; otherwise nothing changes |
| ArrayListDeques.ArrayListDeque.RemoveLastOccurrence | src/main/java/in/rslather/utils/ArrayListDeque.java:129 | removes the match closest to the back (the lowest list index) |
| ArrayListDeques.ArrayListDeque.RemoveObject | src/main/java/in/rslather/utils/ArrayListDeque.java:159 | as written: removes the match closest to the BACK of the deque |
| ArrayListDeques.ArrayListDeque.RemoveObjectCorrected | src/main/java/in/rslather/utils/ArrayListDeque.java:159 | as the `List` and `Deque` contracts ask: removes the match closest to the front |
| ArrayListDeques.RemoveObjectCounterexample | src/main/java/in/rslather/utils/ArrayListDeque.java:159 | on `[1, 2, 1]`, `remove(Integer.valueOf(1))` leaves `[1, 2]` as written and `[2, 1]` when corrected |
| ArrayListDeques.ArrayListDeque.Add | src/main/java/in/rslather/utils/ArrayListDeque.java:132-135 | appends at the back and answers true |
| ArrayListDeques.ArrayListDeque.Offer | src/main/java/in/rslather/utils/ArrayListDeque.java:138 | appends at the back and answers true |
| ArrayListDeques.ArrayListDeque.Remove | src/main/java/in/rslather/utils/ArrayListDeque.java:141 | same as `removeFirst` |
| ArrayListDeques.ArrayListDeque.Poll | src/main/java/in/rslather/utils/ArrayListDeque.java:144 | same as `pollFirst` |
| ArrayListDeques.ArrayListDeque.Element | src/main/java/in/rslather/utils/ArrayListDeque.java:147 | same as `getFirst` |
| ArrayListDeques.ArrayListDeque.Peek | src/main/java/in/rslather/utils/ArrayListDeque.java:150 | same as `peekFirst` |
| ArrayListDeques.ArrayListDeque.Push | src/main/java/in/rslather/utils/ArrayListDeque.java:153 | puts the element at the front |
| ArrayListDeques.ArrayListDeque.Pop | src/main/java/in/rslather/utils/ArrayListDeque.java:156 | same as `removeFirst` |
| ArrayListDeques.ArrayListDeque.Contains | src/main/java/in/rslather/utils/ArrayListDeque.java:162 | true exactly when the element is in the deque |
| ArrayListDeques.ArrayListDeque.IndexOf | src/main/java/in/rslather/utils/ArrayListDeque.java:211 | as written: the first position from the front when `o` occurs, and `size()` (not -1) when it does not |
| ArrayListDeques.ArrayListDeque.IndexOfCorrected | src/main/java/in/rslather/utils/ArrayListDeque.java:211 | the first position from the front, and -1 exactly when `o` is absent |
| ArrayListDeques.ArrayListDeque.LastIndexOf | src/main/java/in/rslather/utils/ArrayListDeque.java:214 | as written: the last position from the front when `o` occurs, and `size()` when it does not |
| ArrayListDeques.ArrayListDeque.LastIndexOfCorrected | src/main/java/in/rslather/utils/ArrayListDeque.java:214 | the last position from the front, and -1 exactly when `o` is absent |
| ArrayListDeques.IndexOfCounterexample | src/main/java/in/rslather/utils/ArrayListDeque.java:211-214 | on an empty deque both lookups answer 0 as written and -1 when corrected |
| ArrayListDeques.ArrayListDeque.SubList | src/main/java/in/rslather/utils/ArrayListDeque.java:250-252 | a new deque whose `j`-th element is element `from + j`; `to > size` or `from < 0` throws `IndexOutOfBoundsException`, and `from > to` throws `IllegalArgumentException` |
| ArrayListDeques.ArrayListDeque.Clear | src/main/java/in/rslather/utils/ArrayListDeque.java:196 | the deque becomes empty |
| ArrayListDeques.PushThenPop | src/main/java/in/rslather/utils/ArrayListDeque.java:153-156 | LIFO: `push(e)` then `pop()` answers `e` and restores the deque |
| ArrayListDeques.OfferThenPoll | src/main/java/in/rslather/utils/ArrayListDeque.java:138-144 | FIFO: `offer(e)` then `poll()` answers the old front, and `e` ends at the back |
| ArrayListDeques.AddThenPeek | src/main/java/in/rslather/utils/ArrayListDeque.java:52-107 | after `addFirst(e)`, `peekFirst()` answers `e`; after `addLast(e)`, `peekLast()` answers `e` |

## Left out

- Iterators, descending iterators and list iterators of all three containers. This includes the walks that DLL `contains`, `indexOf`, `removeFirstOccurrence` and `getForward` perform through `iterator()`, which are modelled as walks along the `next` links.
- Bulk operations and conversions: `addAll`, `removeAll`, `retainAll`, `containsAll`, `toArray`, `toString`, `equals`, `hashCode` and serialization.
- DLL `set(int, node)`, `add(int, node)`, `remove(int)` and the package-private `insertLeft(node, int)`. They are built on `get`, and `remove(int)` unlinks the `tail` sentinel when `index == size()`.
- DLL `getWithSentinals` and `indexOfWithSentinals`. These helpers are not used by the modelled operations.
- DLL `isEmpty` and the one-line `Queue`/`Deque` aliases `add`, `offer`, `remove()`, `poll`, `element`, `peek`, `push`, `pop` and `remove(Object)`. Each one returns what the modelled method it delegates to returns.
- DLL `leftBound` and `rightBound`, which are assigned but never read.
- The null checks of the deques' collection constructors: a collection is always a sequence here.
- `ArrayListDeque.add(int, E)`, `addAll(int, c)` and the list iterator's `add`.
- `Bag`, `AbstractListDeque`, `DefaultDeque`, `Node` and `Pair`. `Pair` is the datatype `LruSpec.Pair`.
- The printing in `LRUCache.main`, and the list and deque part of it from line 88 on.
- The internals of `HashMap` and `ArrayList`. They are a Dafny `map` and `seq`, and capacity growth is not modelled.
- Java `equals` on elements is Dafny equality. `equals` with side effects, or an `equals` that is not an equivalence, is not modelled.
- ArrayListDeques.ArrayListDeque.SubList: Java computes `size - to` and `size - from` in 32-bit `int`, and that wrap-around is not modelled. It matters only when `from` or `to` is `Integer.MIN_VALUE`. For example, `subList(0, Integer.MIN_VALUE)` on an empty deque wraps and throws `IndexOutOfBoundsException`, where the contract names `IllegalArgumentException`. The model's integers are unbounded.
- Lru.LRUCache.InsertNew: it updates the map before calling `deList.addFirst`, which is the reverse of the source's order. The two touch disjoint state, so the outcome is the same.
- Lru.LRUCache.constructor: it requires a capacity of at least 0, because `new HashMap<>(size)` throws for a negative size. That throwing path is `Lru.NewCache`.
- Class fields are renamed where the Java name clashes with Dafny or reads ambiguously:
  - the cache's `map` is `nodeMap` and its `size` is `capacity`;
  - the deques' `array` is `backing`, because `array` is a Dafny keyword.

## Findings

| source | as written | input that shows it | evidently intended | confidence | as-written member | corrected member |
|---|---|---|---|---|---|---|
| src/main/java/in/rslather/DoublyLinkedList.java:134 | `getBackward` increments its counter (`i++`) while walking from the tail, so only index `size - 1` is ever matched within range | a list of 4 nodes and `get(2)`: `2 < 4 - 2` is false, so the backward walk is taken and answers null | decrement the counter (`i--`), so that `get(i)` answers the `i`-th node in the back half as well | not executed | Lists.GetBackwardCounterexample | Lists.DoublyLinkedList.GetCorrected |
| src/main/java/in/rslather/utils/ArrayListDeque.java:211 | `indexOf`/`lastIndexOf` apply `toArrayI` to the list's -1 as well, answering `size()` for an absent element | an empty deque and `indexOf(1)`: answers 0 | answer -1 when the element is absent, as `List.indexOf` promises | not executed | ArrayListDeques.IndexOfCounterexample | ArrayListDeques.ArrayListDeque.IndexOfCorrected |
| src/main/java/in/rslather/utils/ArrayDeque.java:151 | `remove(Object)` calls the backing list's `remove(o)`, which drops the list's first match, that is, the deque's LAST match | the deque `[1, 2, 1]` and `remove(Integer.valueOf(1))`: leaves `[1, 2]` | drop the first match from the front, as `Deque.remove(Object)` promises (`removeFirstOccurrence`) | not executed | ArrayDeques.RemoveObjectCounterexample | ArrayDeques.ArrayDeque.RemoveObjectCorrected |
| src/main/java/in/rslather/utils/ArrayListDeque.java:159 | `remove(Object)` drops the deque's last match, for the same reason | the deque `[1, 2, 1]` and `remove(Integer.valueOf(1))`: leaves `[1, 2]` | drop the first match from the front, as `List.remove(Object)` and `Deque.remove(Object)` promise | not executed | ArrayListDeques.RemoveObjectCounterexample | ArrayListDeques.ArrayListDeque.RemoveObjectCorrected |

`Lists.DoublyLinkedList.Get` models `get` as written. `GetCorrected` is `get` over `GetBackwardCorrected`. No other modelled operation calls `get`.

Two notes where the model follows the code rather than a looser reading of it:

- With capacity 0, the first `put` of a new key calls `pollLast()` on an empty list, which answers null. It then calls `getItem()` on that null. The model does not forbid capacity 0. Instead, `put` fails with `NullPointerException` and leaves the cache unchanged (`LruSpec.Update`, `Lru.LRUCache.Admit`).
- `peek()` on an empty cache reads the item of the `tail` sentinel, which is null, and then dereferences it. `Lru.LRUCache.Peek` has no precondition and answers `NullPointerException` in that case.
