/** The node of the intrusive doubly linked list: a mutable record holding an
    item and the two links. The list rewrites `prev`/`next` directly; callers
    of the list (the LRU cache) rewrite `element` through `SetItem`. */
module Nodes {
  import opened Wrappers

  class DLLNode<E> {
    /** The stored item; `None` is Java's `null` (the sentinels' item). */
    var element: Option<E>
    var prev: DLLNode?<E>
    var next: DLLNode?<E>

    /** `new DLLNode(item)`: stores `item`, both links unset. */
    constructor (item: Option<E>)
      ensures element == item
      ensures prev == null && next == null
    {
      element := item;
      prev := null;
      next := null;
    }

    /** `new DLLNode()`: stores null, both links unset (used for the sentinels). */
    constructor Empty()
      ensures element == None
      ensures prev == null && next == null
    {
      element := None;
      prev := null;
      next := null;
    }

    method GetNext() returns (r: DLLNode?<E>)
      ensures r == next
    {
      r := next;
    }

    method GetPrev() returns (r: DLLNode?<E>)
      ensures r == prev
    {
      r := prev;
    }

    method GetItem() returns (r: Option<E>)
      ensures r == element
    {
      r := element;
    }

    /** Replaces the item only; the links are outside the frame. */
    method SetItem(item: Option<E>)
      modifies this`element
      ensures element == item
    {
      element := item;
    }
  }
}
