/** The intrusive doubly linked list: two permanent sentinel nodes `head` and
    `tail`, the live nodes chained between them through `next` (forwards) and
    `prev` (backwards), and a `length` counter. Nodes are compared by identity.

    The abstract value is the ghost sequence `nodes` of live nodes from front
    to back; `Chain()` brackets it with the sentinels, and `Valid()` says that
    consecutive members of the chain are linked both ways. Every method's
    frame names the individual link fields it rewrites, so callers also learn
    that no node's item and no other link changed. */
module Lists {
  import opened Wrappers
  import opened Seqs
  import opened Nodes

  /** Consecutive members of `c` point at each other. */
  ghost predicate Linked<A>(c: seq<DLLNode<A>>)
    reads c`next, c`prev
  {
    forall i :: 0 <= i < |c| - 1 ==> c[i].next == c[i + 1] && c[i + 1].prev == c[i]
  }

  /** The link writes of a splice: `n` goes between `c[r]` (which is
      `left`) and its successor `c[r + 1]`. Every other link is untouched. */
  method SpliceLinks<A>(ghost c: seq<DLLNode<A>>, ghost r: int, left: DLLNode<A>, n: DLLNode<A>)
    requires 0 <= r < |c| - 1 && c[r] == left && left.next == c[r + 1]
    requires Linked(c) && Distinct(c) && n !in c
    modifies left`next, left.next`prev, n`prev, n`next
    ensures Linked(Insert(c, r + 1, n))
  {
    var next := left.next;
    n.next := next;
    n.prev := left;
    next.prev := n;
    left.next := n;

    ghost var c' := Insert(c, r + 1, n);
    InsertIndexes(c, r + 1, n);
    forall i | 0 <= i < |c'| - 1
      ensures c'[i].next == c'[i + 1] && c'[i + 1].prev == c'[i]
    {
      if i < r {
        assert c[i] != left && c[i + 1] != c[r + 1];
      } else if i > r + 1 {
        assert c[i - 1] != left && c[i] != c[r + 1];
      }
    }
  }

  /** The link writes of an unlink: the neighbours of `c[r]` (`node`) point
      at each other. Every other link, including `node`'s own, is untouched. */
  method UnlinkLinks<A>(ghost c: seq<DLLNode<A>>, ghost r: int, node: DLLNode<A>)
    requires 0 < r < |c| - 1 && c[r] == node && node.prev == c[r - 1] && node.next == c[r + 1]
    requires Linked(c) && Distinct(c)
    modifies node.prev`next, node.next`prev
    ensures Linked(RemoveAt(c, r))
  {
    var prev := node.prev;
    var next := node.next;
    prev.next := next;
    next.prev := prev;

    ghost var c' := RemoveAt(c, r);
    RemoveAtIndexes(c, r);
    forall i | 0 <= i < |c'| - 1
      ensures c'[i].next == c'[i + 1] && c'[i + 1].prev == c'[i]
    {
      if i < r - 1 {
        assert c[i] != c[r - 1] && c[i + 1] != c[r + 1];
      } else if i > r - 1 {
        assert c[i + 1] != c[r - 1] && c[i + 2] != c[r + 1];
      }
    }
  }

  /** The link writes of a replacement: `n` takes the place of `c[r]`
      (`oldNode`) between its neighbours. Every other link, including
      `oldNode`'s own, is untouched. */
  method ReplaceLinks<A>(ghost c: seq<DLLNode<A>>, ghost r: int, oldNode: DLLNode<A>, n: DLLNode<A>)
    requires 0 < r < |c| - 1 && c[r] == oldNode && oldNode.prev == c[r - 1] && oldNode.next == c[r + 1]
    requires Linked(c) && Distinct(c) && n !in c
    modifies oldNode.prev`next, oldNode.next`prev, n`prev, n`next
    ensures Linked(c[r := n])
  {
    n.next := oldNode.next;
    n.prev := oldNode.prev;
    oldNode.prev.next := n;
    oldNode.next.prev := n;

    ghost var c' := c[r := n];
    forall i | 0 <= i < |c'| - 1
      ensures c'[i].next == c'[i + 1] && c'[i + 1].prev == c'[i]
    {
      if i < r - 1 || i > r {
        assert c[i] != c[r - 1] && c[i + 1] != c[r + 1];
      }
    }
  }

  class DoublyLinkedList<A> {
    const head: DLLNode<A>
    const tail: DLLNode<A>
    var length: int

    /** The live nodes, front (next to `head`) to back (next to `tail`). */
    ghost var nodes: seq<DLLNode<A>>
    ghost var Repr: set<object>

    /** The sentinels with the live nodes between them. */
    ghost function Chain(): seq<DLLNode<A>>
      reads this
    {
      [head] + nodes + [tail]
    }

    /** Position of `n` in the chain (0 for `head`), or -1. */
    ghost function Rank(n: DLLNode?<A>): int
      reads this
    {
      FirstIndex(Chain(), n)
    }

    /** The chain member at position `i`, `tail` when out of range; used to name
        the neighbours whose links a method rewrites. */
    ghost function At(i: int): DLLNode<A>
      reads this
    {
      if 0 <= i < |nodes| + 2 then Chain()[i] else tail
    }

    ghost predicate Valid()
      reads this, Chain()`next, Chain()`prev
    {
      && this in Repr && head in Repr && tail in Repr
      && (forall i :: 0 <= i < |nodes| ==> nodes[i] in Repr)
      && Distinct(Chain())
      && length == |nodes|
      && Linked(Chain())
    }

    /** A fresh empty list: the sentinels point at each other. */
    constructor ()
      ensures Valid() && fresh(Repr)
      ensures nodes == [] && length == 0
      ensures head.next == tail && tail.prev == head
      ensures head.element == None && tail.element == None
    {
      head := new DLLNode.Empty();
      tail := new DLLNode.Empty();
      length := 0;
      nodes := [];
      new;
      head.next := tail;
      tail.prev := head;
      Repr := {this, head, tail};
    }

    /** Splices `newNode` directly after `leftNode` (the head sentinel or a
        live node); `newNode` must not already be linked into this list. */
    method InsertRight(leftNode: DLLNode<A>, newNode: DLLNode<A>)
      requires Valid()
      requires leftNode in Chain() && leftNode != tail
      requires newNode !in Repr
      modifies this`length, this`nodes, this`Repr
      modifies leftNode`next, At(Rank(leftNode) + 1)`prev, newNode`prev, newNode`next
      ensures Valid()
      ensures nodes == Insert(old(nodes), old(Rank(leftNode)), newNode)
      ensures length == old(length) + 1
      ensures Repr == old(Repr) + {newNode}
    {
      ghost var c := Chain();
      ghost var r := Rank(leftNode);
      assert c[r] == leftNode && c[r + 1] == At(r + 1) && newNode !in c;
      SpliceLinks(c, r, leftNode, newNode);
      length := length + 1;
      nodes, Repr := Insert(nodes, r, newNode), Repr + {newNode};
      BracketInsert(head, old(nodes), tail, r, newNode);
      DistinctInsert(c, r + 1, newNode);
    }

    /** Unlinks `node`, a live node: its neighbours now point at each other.
        The node's own links are left as they were. */
    method RemoveNode(node: DLLNode<A>)
      requires Valid()
      requires node in nodes
      modifies this`length, this`nodes, this`Repr
      modifies At(Rank(node) - 1)`next, At(Rank(node) + 1)`prev
      ensures Valid()
      ensures nodes == RemoveAt(old(nodes), FirstIndex(old(nodes), node))
      ensures length == old(length) - 1
      ensures Repr == old(Repr) - {node}
    {
      ghost var c := Chain();
      ghost var k := FirstIndex(nodes, node);
      ghost var r := k + 1;
      assert c[r] == node;
      DistinctFirstIndex(c, r);
      UnlinkLinks(c, r, node);
      length := length - 1;
      nodes, Repr := RemoveAt(nodes, k), Repr - {node};
      BracketRemoveAt(head, old(nodes), tail, k);
      DistinctRemoveAt(c, r);
    }
  
    /** Puts `newNode` at `oldNode`'s position; the length is unchanged and
        `oldNode`'s own links are left as they were. */
    method ReplaceNode(oldNode: DLLNode<A>, newNode: DLLNode<A>)
      requires Valid()
      requires oldNode in nodes
      requires newNode !in Repr
      modifies this`nodes, this`Repr
      modifies At(Rank(oldNode) - 1)`next, At(Rank(oldNode) + 1)`prev, newNode`prev, newNode`next
      ensures Valid()
      ensures nodes == old(nodes)[FirstIndex(old(nodes), oldNode) := newNode]
      ensures length == old(length)
      ensures Repr == old(Repr) - {oldNode} + {newNode}
    {
      ghost var c := Chain();
      ghost var k := FirstIndex(nodes, oldNode);
      ghost var r := k + 1;
      assert c[r] == oldNode;
      assert newNode !in c;
      ReplaceLinks(c, r, oldNode, newNode);
      nodes, Repr := nodes[k := newNode], Repr - {oldNode} + {newNode};
      assert Chain() == c[r := newNode];
      DistinctUpdate(c, r, newNode);
    }

    /** Splices `newNode` directly before `rightNode` (a live node or the tail
        sentinel): the same as inserting it after `rightNode.prev`. */
    method InsertLeft(newNode: DLLNode<A>, rightNode: DLLNode<A>)
      requires Valid()
      requires rightNode in Chain() && rightNode != head
      requires newNode !in Repr
      modifies this`length, this`nodes, this`Repr
      modifies At(Rank(rightNode) - 1)`next, rightNode`prev, newNode`prev, newNode`next
      ensures Valid()
      ensures nodes == Insert(old(nodes), old(Rank(rightNode)) - 1, newNode)
      ensures length == old(length) + 1
      ensures Repr == old(Repr) + {newNode}
    {
      ghost var c := Chain();
      ghost var r := Rank(rightNode);
      assert c[r] == rightNode && 0 < r;
      assert rightNode.prev == c[r - 1] && c[r - 1] != c[|c| - 1];
      DistinctFirstIndex(c, r - 1);
      InsertRight(rightNode.prev, newNode);
    }

    /** Inserts `node` as the first live node (after the head sentinel). */
    method AddFirst(node: DLLNode<A>)
      requires Valid()
      requires node !in Repr
      modifies this`length, this`nodes, this`Repr
      modifies head`next, At(1)`prev, node`prev, node`next
      ensures Valid()
      ensures nodes == [node] + old(nodes)
      ensures length == old(length) + 1
      ensures Repr == old(Repr) + {node}
    {
      assert Chain()[0] == head && Chain()[0] != Chain()[|nodes| + 1];
      DistinctFirstIndex(Chain(), 0);
      InsertRight(head, node);
    }

    /** Inserts `node` as the last live node (before the tail sentinel). */
    method AddLast(node: DLLNode<A>)
      requires Valid()
      requires node !in Repr
      modifies this`length, this`nodes, this`Repr
      modifies At(|nodes|)`next, tail`prev, node`prev, node`next
      ensures Valid()
      ensures nodes == old(nodes) + [node]
      ensures length == old(length) + 1
      ensures Repr == old(Repr) + {node}
    {
      assert Chain()[|nodes| + 1] == tail;
      DistinctFirstIndex(Chain(), |nodes| + 1);
      InsertLeft(node, tail);
    }

    /** Moves a live node to the front; the other nodes keep their order. */
    method MoveToFirst(node: DLLNode<A>)
      requires Valid()
      requires node in nodes
      modifies this`length, this`nodes, this`Repr
      modifies At(Rank(node) - 1)`next, At(Rank(node) + 1)`prev
      modifies head`next, At(1)`prev, node`prev, node`next
      ensures Valid()
      ensures nodes == [node] + RemoveAt(old(nodes), FirstIndex(old(nodes), node))
      ensures length == old(length)
      ensures Repr == old(Repr)
    {
      ghost var r := Rank(node);
      ghost var at1, atNext := At(1), At(r + 1);
      RemoveNode(node);
      assert At(1) == at1 || At(1) == atNext;
      AddFirst(node);
    }

    /** Moves a live node to the back; the other nodes keep their order. */
    method MoveToLast(node: DLLNode<A>)
      requires Valid()
      requires node in nodes
      modifies this`length, this`nodes, this`Repr
      modifies At(Rank(node) - 1)`next, At(Rank(node) + 1)`prev
      modifies At(|nodes|)`next, tail`prev, node`prev, node`next
      ensures Valid()
      ensures nodes == RemoveAt(old(nodes), FirstIndex(old(nodes), node)) + [node]
      ensures length == old(length)
      ensures Repr == old(Repr)
    {
      ghost var r := Rank(node);
      ghost var atLast, atPrev := At(|nodes|), At(r - 1);
      RemoveNode(node);
      assert At(|nodes|) == atLast || At(|nodes|) == atPrev;
      AddLast(node);
    }

    /** Unlinks every live node at once: the sentinels point at each other. */
    method Clear()
      requires Valid()
      modifies this`length, this`nodes, this`Repr, head`next, tail`prev
      ensures Valid()
      ensures nodes == [] && length == 0
      ensures head.next == tail && tail.prev == head
      ensures Repr == {this, head, tail}
    {
      assert Chain()[0] != Chain()[|nodes| + 1];
      head.next := tail;
      tail.prev := head;
      length := 0;
      nodes := [];
      Repr := {this, head, tail};
    }

    /** The node after the head sentinel: the tail sentinel when empty. */
    method PeekFirst() returns (r: DLLNode?<A>)
      requires Valid()
      ensures r == if nodes == [] then tail else nodes[0]
    {
      assert Chain()[0] == head && head.next == Chain()[1];
      r := head.next;
    }

    /** The node before the tail sentinel: the head sentinel when empty. */
    method PeekLast() returns (r: DLLNode?<A>)
      requires Valid()
      ensures r == if nodes == [] then head else nodes[|nodes| - 1]
    {
      assert Chain()[|nodes| + 1] == tail && tail.prev == Chain()[|nodes|];
      r := tail.prev;
    }

    /** `getFirst()`: the null check never fires, since the front is never
        null; an empty list yields the tail sentinel. */
    method GetFirst() returns (r: Result<DLLNode?<A>>)
      requires Valid()
      ensures r == Ok(if nodes == [] then tail else nodes[0])
    {
      var first := PeekFirst();
      r := if first == null then Throw(NoSuchElementException) else Ok(first);
    }

    /** `getLast()`: an empty list yields the head sentinel. */
    method GetLast() returns (r: Result<DLLNode?<A>>)
      requires Valid()
      ensures r == Ok(if nodes == [] then head else nodes[|nodes| - 1])
    {
      var last := PeekLast();
      r := if last == null then Throw(NoSuchElementException) else Ok(last);
    }

    /** `offerFirst(node)`: `addFirst(node)`, then true. */
    method OfferFirst(node: DLLNode<A>) returns (r: bool)
      requires Valid()
      requires node !in Repr
      modifies this`length, this`nodes, this`Repr
      modifies head`next, At(1)`prev, node`prev, node`next
      ensures Valid()
      ensures r
      ensures nodes == [node] + old(nodes) && Repr == old(Repr) + {node}
    {
      AddFirst(node);
      return true;
    }

    /** `offerLast(node)`: `addLast(node)`, then true. */
    method OfferLast(node: DLLNode<A>) returns (r: bool)
      requires Valid()
      requires node !in Repr
      modifies this`length, this`nodes, this`Repr
      modifies At(|nodes|)`next, tail`prev, node`prev, node`next
      ensures Valid()
      ensures r
      ensures nodes == old(nodes) + [node] && Repr == old(Repr) + {node}
    {
      AddLast(node);
      return true;
    }

    /** Removes and returns the first live node; null when empty. */
    method PollFirst() returns (r: DLLNode?<A>)
      requires Valid()
      modifies this`length, this`nodes, this`Repr, head`next, At(2)`prev
      ensures Valid()
      ensures old(nodes) == [] ==> r == null && nodes == old(nodes) && Repr == old(Repr)
      ensures old(nodes) != [] ==> r == old(nodes[0]) && nodes == old(nodes[1..]) && Repr == old(Repr) - {r}
      ensures length == |nodes|
    {
      if length <= 0 {
        return null;
      }
      var first := PeekFirst();
      assert Rank(first) == 1 by {
        DistinctFirstIndex(Chain(), 1);
      }
      RemoveNode(first);
      r := first;
    }

    /** Removes and returns the last live node; null when empty. */
    method PollLast() returns (r: DLLNode?<A>)
      requires Valid()
      modifies this`length, this`nodes, this`Repr, At(|nodes| - 1)`next, tail`prev
      ensures Valid()
      ensures old(nodes) == [] ==> r == null && nodes == old(nodes) && Repr == old(Repr)
      ensures old(nodes) != [] ==> r == old(nodes[|nodes| - 1]) && nodes == old(nodes[..|nodes| - 1])
      ensures old(nodes) != [] ==> Repr == old(Repr) - {r}
      ensures length == |nodes|
      ensures old(nodes) == [] ==> tail.next == old(tail.next)
    {
      if length <= 0 {
        return null;
      }
      var last := PeekLast();
      assert Rank(last) == |nodes| by {
        DistinctFirstIndex(Chain(), |nodes|);
      }
      DistinctInner(head, nodes, tail);
      DistinctFirstIndex(nodes, |nodes| - 1);
      RemoveNode(last);
      assert RemoveAt(old(nodes), |old(nodes)| - 1) == old(nodes[..|nodes| - 1]);
      r := last;
    }

    /** `removeFirst()`: `pollFirst()` with NoSuchElementException for null. */
    method RemoveFirst() returns (r: Result<DLLNode<A>>)
      requires Valid()
      modifies this`length, this`nodes, this`Repr, head`next, At(2)`prev
      ensures Valid()
      ensures old(nodes) == [] ==> r == Throw(NoSuchElementException) && nodes == old(nodes)
      ensures old(nodes) != [] ==> r == Ok(old(nodes[0])) && nodes == old(nodes[1..])
      ensures Repr == if old(nodes) == [] then old(Repr) else old(Repr) - {old(nodes[0])}
    {
      var first := PollFirst();
      r := if first == null then Throw(NoSuchElementException) else Ok(first);
    }

    /** `removeLast()`: `pollLast()` with NoSuchElementException for null. */
    method RemoveLast() returns (r: Result<DLLNode<A>>)
      requires Valid()
      modifies this`length, this`nodes, this`Repr, At(|nodes| - 1)`next, tail`prev
      ensures Valid()
      ensures old(nodes) == [] ==> r == Throw(NoSuchElementException) && nodes == old(nodes)
      ensures old(nodes) != [] ==> r == Ok(old(nodes[|nodes| - 1])) && nodes == old(nodes[..|nodes| - 1])
      ensures Repr == if old(nodes) == [] then old(Repr) else old(Repr) - {old(nodes[|nodes| - 1])}
      ensures old(nodes) == [] ==> tail.next == old(tail.next)
    {
      var last := PollLast();
      r := if last == null then Throw(NoSuchElementException) else Ok(last);
    }

    method Size() returns (r: int)
      requires Valid()
      ensures r == |nodes|
    {
      r := length;
    }

    /** Identity search along the `next` links; true iff `o` is a live node. */
    method Contains(o: DLLNode?<A>) returns (b: bool)
      requires Valid()
      ensures b <==> o in nodes
    {
      assert Chain()[0] == head && head.next == Chain()[1];
      var node := head.next;
      ghost var i := 0;
      while node != tail
        invariant 0 <= i <= |nodes|
        invariant node == Chain()[i + 1]
        invariant o !in nodes[..i]
        decreases |nodes| - i
      {
        if node == o {
          return true;
        }
        assert nodes[..i + 1] == nodes[..i] + [node];
        node := node.next;
        i := i + 1;
      }
      assert Chain()[|nodes| + 1] == tail && nodes[..i] == nodes;
      return false;
    }

    /** Position of `o` among the live nodes by identity, or -1. */
    method IndexOf(o: DLLNode?<A>) returns (r: int)
      requires Valid()
      ensures r == FirstIndex(nodes, o)
    {
      assert Chain()[0] == head && head.next == Chain()[1];
      var i := 0;
      var node := head.next;
      while node != tail
        invariant 0 <= i <= |nodes|
        invariant node == Chain()[i + 1]
        invariant o !in nodes[..i]
        decreases |nodes| - i
      {
        if o == node {
          return i;
        }
        assert nodes[..i + 1] == nodes[..i] + [node];
        i := i + 1;
        node := node.next;
      }
      assert Chain()[|nodes| + 1] == tail && nodes[..i] == nodes;
      return -1;
    }

    /** Unlinks `o` if it is a live node, found by identity. */
    method RemoveFirstOccurrence(o: DLLNode?<A>) returns (found: bool)
      requires Valid()
      modifies this`length, this`nodes, this`Repr
      modifies At(Rank(o) - 1)`next, At(Rank(o) + 1)`prev
      ensures Valid()
      ensures found <==> o in old(nodes)
      ensures found ==> nodes == RemoveAt(old(nodes), FirstIndex(old(nodes), o)) && Repr == old(Repr) - {o}
      ensures !found ==> nodes == old(nodes) && Repr == old(Repr)
      ensures !found ==> head.prev == old(head.prev) && tail.next == old(tail.next)
    {
      assert Chain()[0] == head && head.next == Chain()[1];
      var node := head.next;
      ghost var i := 0;
      while node != tail
        invariant 0 <= i <= |nodes|
        invariant node == Chain()[i + 1]
        invariant o !in nodes[..i]
        invariant head.prev == old(head.prev) && tail.next == old(tail.next)
        decreases |nodes| - i
      {
        if node == o {
          RemoveNode(node);
          return true;
        }
        assert nodes[..i + 1] == nodes[..i] + [node];
        node := node.next;
        i := i + 1;
      }
      assert Chain()[|nodes| + 1] == tail && nodes[..i] == nodes;
      return false;
    }

    /** `removeLastOccurrence(o)`: `removeFirstOccurrence(o)`, which is
        right because a node occurs in the list at most once. */
    method RemoveLastOccurrence(o: DLLNode?<A>) returns (found: bool)
      requires Valid()
      modifies this`length, this`nodes, this`Repr
      modifies At(Rank(o) - 1)`next, At(Rank(o) + 1)`prev
      ensures Valid()
      ensures found <==> o in old(nodes)
      ensures found ==> nodes == RemoveAt(old(nodes), LastIndex(old(nodes), o)) && Repr == old(Repr) - {o}
      ensures !found ==> nodes == old(nodes) && Repr == old(Repr)
      ensures !found ==> head.prev == old(head.prev) && tail.next == old(tail.next)
    {
      DistinctInner(head, nodes, tail);
      DistinctLastIndex(nodes, o);
      found := RemoveFirstOccurrence(o);
    }

    /** `lastIndexOf(o)`: `indexOf(o)`, which is also the last position of
        `o` because a node occurs in the list at most once. */
    method LastIndexOf(o: DLLNode?<A>) returns (r: int)
      requires Valid()
      ensures r == LastIndex(nodes, o)
    {
      DistinctInner(head, nodes, tail);
      DistinctLastIndex(nodes, o);
      r := IndexOf(o);
    }

    /** Walks forward from the head counting positions; the `index`-th live
        node, or null when there is none. */
    method GetForward(index: int) returns (r: DLLNode?<A>)
      requires Valid()
      ensures r == if 0 <= index < |nodes| then nodes[index] else null
    {
      assert Chain()[0] == head && head.next == Chain()[1];
      var i := 0;
      var node := head.next;
      while node != tail
        invariant 0 <= i <= |nodes|
        invariant node == Chain()[i + 1]
        invariant !(0 <= index < i)
        decreases |nodes| - i
      {
        if index == i {
          return node;
        }
        i := i + 1;
        node := node.next;
      }
      assert Chain()[|nodes| + 1] == tail && nodes[..i] == nodes;
      return null;
    }

    /** Every object a frame may name is part of the list. */
    lemma FrameInRepr()
      requires Valid()
      ensures forall i :: At(i) in Repr
    {
    }

    /** The walk from the tail as written: the counter starts at `size() - 1`
        and is incremented at each step, so the `k`-th node from the back is
        matched against position `size() - 1 + k`. Only the last position is
        found within range. */
    method GetBackward(index: int) returns (r: DLLNode?<A>)
      requires Valid()
      ensures r == if |nodes| - 1 <= index < 2 * |nodes| - 1 then nodes[2 * |nodes| - 2 - index] else null
    {
      var i := length - 1;
      assert Chain()[|nodes| + 1] == tail && tail.prev == Chain()[|nodes|];
      var node := tail.prev;
      ghost var k := 0;
      while node != head
        invariant 0 <= k <= |nodes|
        invariant node == Chain()[|nodes| - k]
        invariant i == |nodes| - 1 + k
        invariant !(|nodes| - 1 <= index < |nodes| - 1 + k)
        decreases |nodes| - k
      {
        if index == i {
          return node;
        }
        i := i + 1;
        node := node.prev;
        k := k + 1;
      }
      assert Chain()[0] == head;
      return null;
    }

    /** The walk from the tail with the counter decremented at each step. */
    method GetBackwardCorrected(index: int) returns (r: DLLNode?<A>)
      requires Valid()
      ensures r == if 0 <= index < |nodes| then nodes[index] else null
    {
      var i := length - 1;
      assert Chain()[|nodes| + 1] == tail && tail.prev == Chain()[|nodes|];
      var node := tail.prev;
      while node != head
        invariant -1 <= i < |nodes|
        invariant node == Chain()[i + 1]
        invariant !(i < index < |nodes|)
        decreases i
      {
        if index == i {
          return node;
        }
        i := i - 1;
        node := node.prev;
      }
      assert Chain()[0] == head;
      return null;
    }

    /** `get(index)` as written: positions outside `[0, size)` throw; the
        front half is found by the forward walk, and of the back half only
        the last position is found; the others yield null. */
    method Get(index: int) returns (r: Result<DLLNode?<A>>)
      requires Valid()
      ensures !(0 <= index < |nodes|) ==> r == Throw(IndexOutOfBoundsException)
      ensures 0 <= index < |nodes| ==>
        r == Ok(if index < |nodes| - index || index == |nodes| - 1 then nodes[index] else null)
    {
      if index < 0 || index >= length {
        return Throw(IndexOutOfBoundsException);
      }
      var node;
      if index < length - index {
        node := GetForward(index);
      } else {
        node := GetBackward(index);
      }
      r := Ok(node);
    }

    /** `get(index)` over the corrected backward walk: every position in
        `[0, size)` yields its node. */
    method GetCorrected(index: int) returns (r: Result<DLLNode?<A>>)
      requires Valid()
      ensures r == if 0 <= index < |nodes| then Ok(nodes[index]) else Throw(IndexOutOfBoundsException)
    {
      if index < 0 || index >= length {
        return Throw(IndexOutOfBoundsException);
      }
      var node;
      if index < length - index {
        node := GetForward(index);
      } else {
        node := GetBackwardCorrected(index);
      }
      r := Ok(node);
    }
  }

  /** A list of `n` fresh nodes holding 0, 1, ..., n - 1. */
  method FreshList(n: nat) returns (list: DoublyLinkedList<int>)
    ensures fresh(list) && fresh(list.Repr) && list.Valid()
    ensures |list.nodes| == n
  {
    list := new DoublyLinkedList<int>();
    var i := 0;
    while i < n
      invariant 0 <= i <= n
      invariant fresh(list) && fresh(list.Repr) && list.Valid()
      invariant |list.nodes| == i
    {
      var node := new DLLNode(Some(i));
      list.AddLast(node);
      i := i + 1;
    }
  }

  /** A four-node list: `get(2)` lies in the back half, where the walk as
      written misses it and yields null; the corrected walk finds the node. */
  method GetBackwardCounterexample() returns (asWritten: Result<DLLNode?<int>>, corrected: Result<DLLNode?<int>>)
    ensures asWritten == Ok(null)
    ensures corrected.Ok? && corrected.value != null
  {
    var list := FreshList(4);
    asWritten := list.Get(2);
    corrected := list.GetCorrected(2);
  }
}
