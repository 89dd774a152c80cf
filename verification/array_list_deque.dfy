/** `ArrayListDeque`: a deque that is also a `List`, kept in an `ArrayList`
    in reverse order. The front of the deque is the last slot of the list;
    `toArrayI` maps deque index `i` to list index `size - 1 - i`. Elements may
    be Java's `null` (`None`); element comparison is Java's `equals`, taken
    here as Dafny equality. */
module ArrayListDeques {
  import opened Wrappers
  import opened Seqs

  class ArrayListDeque<E(==)> {
    /** The backing `ArrayList` (the field `array`), back of the deque first. */
    var backing: seq<Option<E>>

    /** The deque, front first: the backing list reversed. */
    function Contents(): (r: seq<Option<E>>)
      reads this
    {
      Reverse(backing)
    }

    /** `new ArrayListDeque()`: an empty deque. */
    constructor ()
      ensures Contents() == []
    {
      backing := [];
    }

    /** `new ArrayListDeque(c)`: the copy of `c` is reversed, so the deque
        lists `c` in its own order. */
    constructor FromCollection(c: seq<Option<E>>)
      ensures backing == Reverse(c)
      ensures Contents() == c
    {
      backing := Reverse(c);
    }

    /** The protected `new ArrayListDeque(list)`: adopts `list` as the
        backing list without reversing it. */
    constructor Wrap(list: seq<Option<E>>)
      ensures backing == list
      ensures Contents() == Reverse(list)
    {
      backing := list;
    }

    /** `size()`: the size of the backing list. */
    function Size(): (r: int)
      reads this
      ensures r == |Contents()|
    {
      |backing|
    }

    /** `lastI()`: the list index of the front of the deque, -1 when empty. */
    function LastI(): (r: int)
      reads this
      ensures r == |Contents()| - 1
      ensures Contents() != [] ==> backing[r] == Contents()[0]
    {
      |backing| - 1
    }

    /** `toArrayI(i)`: the list index of deque index `i`; it is a valid list
        index exactly when `i` is a valid deque index, and both name the
        same element. */
    function ToArrayI(i: int): (r: int)
      reads this
      ensures 0 <= r < |backing| <==> 0 <= i < |Contents()|
      ensures 0 <= i < |Contents()| ==> backing[r] == Contents()[i]
    {
      |backing| - 1 - i
    }

    /** `get(i)`: element `i` from the front; outside `[0, size)` the list
        throws. */
    function Get(i: int): (r: Result<Option<E>>)
      reads this
      ensures 0 <= i < |Contents()| ==> r == Ok(Contents()[i])
      ensures !(0 <= i < |Contents()|) ==> r == Throw(IndexOutOfBoundsException)
    {
      var k := ToArrayI(i);
      if 0 <= k < |backing| then Ok(backing[k]) else Throw(IndexOutOfBoundsException)
    }

    /** `set(i, e)`: replaces element `i` from the front and answers the old
        one; outside `[0, size)` the list throws and nothing changes. */
    method Set(i: int, e: Option<E>) returns (r: Result<Option<E>>)
      modifies this
      ensures r == old(Get(i))
      ensures r.Ok? ==> Contents() == old(Contents())[i := e]
      ensures r.Throw? ==> backing == old(backing)
    {
      r := Get(i);
      var k := ToArrayI(i);
      if 0 <= k < |backing| {
        backing := backing[k := e];
      }
    }

    /** `remove(int i)`: removes element `i` from the front and answers it;
        outside `[0, size)` the list throws and nothing changes. */
    method RemoveAtIndex(i: int) returns (r: Result<Option<E>>)
      modifies this
      ensures r == old(Get(i))
      ensures r.Ok? ==> Contents() == RemoveAt(old(Contents()), i)
      ensures r.Throw? ==> backing == old(backing)
    {
      r := Get(i);
      var k := ToArrayI(i);
      if 0 <= k < |backing| {
        backing := RemoveAt(backing, k);
      }
    }

    /** `addFirst(e)`: appends to the backing list, which is the front of the
        deque. */
    method AddFirst(e: Option<E>)
      modifies this
      ensures Contents() == [e] + old(Contents())
    {
      backing := backing + [e];
    }

    /** `addLast(e)`: inserts at index 0 of the backing list, the back of the
        deque. */
    method AddLast(e: Option<E>)
      modifies this
      ensures Contents() == old(Contents()) + [e]
    {
      backing := [e] + backing;
    }

    /** `offerFirst(e)`: `addFirst`, then `true`. */
    method OfferFirst(e: Option<E>) returns (r: bool)
      modifies this
      ensures r
      ensures Contents() == [e] + old(Contents())
    {
      AddFirst(e);
      return true;
    }

    /** `offerLast(e)`: `addLast`, then `true`. */
    method OfferLast(e: Option<E>) returns (r: bool)
      modifies this
      ensures r
      ensures Contents() == old(Contents()) + [e]
    {
      AddLast(e);
      return true;
    }

    /** `pollFirst()`: null on an empty deque, which is left alone; otherwise
        removes list index `lastI()`, the front of the deque. */
    method PollFirst() returns (r: Option<E>)
      modifies this
      ensures old(Contents()) == [] ==> r == None && backing == old(backing)
      ensures old(Contents()) != [] ==> r == old(Contents()[0]) && Contents() == old(Contents()[1..])
    {
      if |backing| == 0 {
        return None;
      }
      var k := LastI();
      r := backing[k];
      backing := RemoveAt(backing, k);
    }

    /** `pollLast()`: null on an empty deque, which is left alone; otherwise
        removes list index 0, the back of the deque. */
    method PollLast() returns (r: Option<E>)
      modifies this
      ensures old(Contents()) == [] ==> r == None && backing == old(backing)
      ensures old(Contents()) != [] ==>
        r == old(Contents()[|Contents()| - 1]) && Contents() == old(Contents()[..|Contents()| - 1])
    {
      if |backing| == 0 {
        return None;
      }
      r := backing[0];
      backing := RemoveAt(backing, 0);
    }

    /** `removeFirst()`: `pollFirst`, with a null answer turned into
        `NoSuchElementException`. A null element at the front is removed
        and still reported as missing. */
    method RemoveFirst() returns (r: Result<E>)
      modifies this
      ensures r == IfNullExcept(if old(Contents()) == [] then None else old(Contents()[0]))
      ensures old(Contents()) == [] ==> backing == old(backing)
      ensures old(Contents()) != [] ==> Contents() == old(Contents()[1..])
    {
      var e := PollFirst();
      r := IfNullExcept(e);
    }

    /** `removeLast()`: `pollLast`, with a null answer turned into
        `NoSuchElementException`. */
    method RemoveLast() returns (r: Result<E>)
      modifies this
      ensures r == IfNullExcept(if old(Contents()) == [] then None else old(Contents()[|Contents()| - 1]))
      ensures old(Contents()) == [] ==> backing == old(backing)
      ensures old(Contents()) != [] ==> Contents() == old(Contents()[..|Contents()| - 1])
    {
      var e := PollLast();
      r := IfNullExcept(e);
    }

    /** `peekFirst()`: the element at list index `lastI()`, or null when
        empty. */
    function PeekFirst(): (r: Option<E>)
      reads this
      ensures Contents() == [] ==> r == None
      ensures Contents() != [] ==> r == Contents()[0]
    {
      if |backing| == 0 then None else backing[LastI()]
    }

    /** `peekLast()`: the element at list index 0, or null when empty. */
    function PeekLast(): (r: Option<E>)
      reads this
      ensures Contents() == [] ==> r == None
      ensures Contents() != [] ==> r == Contents()[|Contents()| - 1]
    {
      if |backing| == 0 then None
      else backing[0]
    }

    /** `getFirst()`: `peekFirst`, with null turned into
        `NoSuchElementException`. */
    function GetFirst(): (r: Result<E>)
      reads this
      ensures r.Ok? <==> Contents() != [] && Contents()[0].Some?
      ensures r.Ok? ==> Some(r.value) == Contents()[0]
      ensures r.Throw? ==> r.ex == NoSuchElementException
    {
      IfNullExcept(PeekFirst())
    }

    /** `getLast()`: `peekLast`, with null turned into
        `NoSuchElementException`. */
    function GetLast(): (r: Result<E>)
      reads this
      ensures r.Ok? <==> Contents() != [] && Contents()[|Contents()| - 1].Some?
      ensures r.Ok? ==> Some(r.value) == Contents()[|Contents()| - 1]
      ensures r.Throw? ==> r.ex == NoSuchElementException
    {
      IfNullExcept(PeekLast())
    }

    /** `removeFirstOccurrence(o)`: scans the backing list downwards from
        `lastI()`, which is the deque from the front, and removes the first
        match. The source has one loop for `o == null` (compared with `==`)
        and one for the rest (compared with `equals`); both are the test
        `backing[i] == o` here. */
    method RemoveFirstOccurrence(o: Option<E>) returns (r: bool)
      modifies this
      ensures r <==> o in old(Contents())
      ensures r ==> Contents() == RemoveAt(old(Contents()), FirstIndex(old(Contents()), o))
      ensures !r ==> backing == old(backing)
    {
      ReverseHas(backing, o);
      var i := LastI();
      while i >= 0
        invariant -1 <= i < |backing|
        invariant forall j :: i < j < |backing| ==> backing[j] != o
      {
        if backing[i] == o {
          assert i == LastIndex(backing, o);
          ReverseRemoveLastMatch(backing, o);
          backing := RemoveAt(backing, i);
          return true;
        }
        i := i - 1;
      }
      return false;
    }

    /** `removeLastOccurrence(o)`: the list's own `remove(o)`, which drops
        its first match, the deque's last. */
    method RemoveLastOccurrence(o: Option<E>) returns (r: bool)
      modifies this
      ensures r <==> o in old(Contents())
      ensures r ==> Contents() == RemoveAt(old(Contents()), LastIndex(old(Contents()), o))
      ensures !r ==> backing == old(backing)
    {
      ReverseHas(backing, o);
      var k := FirstIndex(backing, o);
      if k < 0 {
        return false;
      }
      ReverseRemoveFirstMatch(backing, o);
      backing := RemoveAt(backing, k);
      return true;
    }

    /** `remove(o)`: the same list call as `removeLastOccurrence`, so it
        drops the deque's LAST match (see `RemoveObjectCorrected`). */
    method RemoveObject(o: Option<E>) returns (r: bool)
      modifies this
      ensures r <==> o in old(Contents())
      ensures r ==> Contents() == RemoveAt(old(Contents()), LastIndex(old(Contents()), o))
      ensures !r ==> backing == old(backing)
    {
      r := RemoveLastOccurrence(o);
    }

    /** `remove(o)` as the `List` and `Deque` contracts state it: the first
        match from the front, as `removeFirstOccurrence`. */
    method RemoveObjectCorrected(o: Option<E>) returns (r: bool)
      modifies this
      ensures r <==> o in old(Contents())
      ensures r ==> Contents() == RemoveAt(old(Contents()), FirstIndex(old(Contents()), o))
      ensures !r ==> backing == old(backing)
    {
      r := RemoveFirstOccurrence(o);
    }

    /** `add(e)`: `addLast`, then `true`. */
    method Add(e: Option<E>) returns (r: bool)
      modifies this
      ensures r
      ensures Contents() == old(Contents()) + [e]
    {
      AddLast(e);
      return true;
    }

    /** `offer(e)`: `offerLast(e)`. */
    method Offer(e: Option<E>) returns (r: bool)
      modifies this
      ensures r
      ensures Contents() == old(Contents()) + [e]
    {
      r := OfferLast(e);
    }

    /** `remove()`: `removeFirst()`. */
    method Remove() returns (r: Result<E>)
      modifies this
      ensures r == IfNullExcept(if old(Contents()) == [] then None else old(Contents()[0]))
      ensures old(Contents()) == [] ==> backing == old(backing)
      ensures old(Contents()) != [] ==> Contents() == old(Contents()[1..])
    {
      r := RemoveFirst();
    }

    /** `poll()`: `pollFirst()`. */
    method Poll() returns (r: Option<E>)
      modifies this
      ensures old(Contents()) == [] ==> r == None && backing == old(backing)
      ensures old(Contents()) != [] ==> r == old(Contents()[0]) && Contents() == old(Contents()[1..])
    {
      r := PollFirst();
    }

    /** `element()`: `getFirst()`. */
    function Element(): (r: Result<E>)
      reads this
      ensures r.Ok? <==> Contents() != [] && Contents()[0].Some?
      ensures r.Ok? ==> Some(r.value) == Contents()[0]
      ensures r.Throw? ==> r.ex == NoSuchElementException
    {
      GetFirst()
    }

    /** `peek()`: `peekFirst()`. */
    function Peek(): (r: Option<E>)
      reads this
      ensures Contents() == [] ==> r == None
      ensures Contents() != [] ==> r == Contents()[0]
    {
      PeekFirst()
    }

    /** `push(e)`: `addFirst(e)`. */
    method Push(e: Option<E>)
      modifies this
      ensures Contents() == [e] + old(Contents())
    {
      AddFirst(e);
    }

    /** `pop()`: `removeFirst()`. */
    method Pop() returns (r: Result<E>)
      modifies this
      ensures r == IfNullExcept(if old(Contents()) == [] then None else old(Contents()[0]))
      ensures old(Contents()) == [] ==> backing == old(backing)
      ensures old(Contents()) != [] ==> Contents() == old(Contents()[1..])
    {
      r := RemoveFirst();
    }

    /** `contains(o)`: the list's own membership test. */
    function Contains(o: Option<E>): (r: bool)
      reads this
      ensures r <==> o in Contents()
    {
      ReverseHas(backing, o);
      o in backing
    }

    /** `indexOf(o)`: `toArrayI` of the list's last match, which is the
        deque's first. When `o` is absent the list answers -1 and
        `toArrayI(-1)` is `size()`, not the -1 the `List` contract asks for
        (see `IndexOfCorrected`). */
    function IndexOf(o: Option<E>): (r: int)
      reads this
      ensures o in Contents() ==> r == FirstIndex(Contents(), o)
      ensures o !in Contents() ==> r == |Contents()|
    {
      LastIndexMirrorsFirst(backing, o);
      ReverseHas(backing, o);
      ToArrayI(LastIndex(backing, o))
    }

    /** `indexOf(o)` as the `List` contract states it: the first match from
        the front, -1 when there is none. */
    function IndexOfCorrected(o: Option<E>): (r: int)
      reads this
      ensures r == FirstIndex(Contents(), o)
      ensures r == -1 <==> o !in Contents()
    {
      var k := LastIndex(backing, o);
      LastIndexMirrorsFirst(backing, o);
      ReverseHas(backing, o);
      if k < 0 then -1 else ToArrayI(k)
    }

    /** `lastIndexOf(o)`: `toArrayI` of the list's first match, which is the
        deque's last; absent, it answers `size()` where the `List` contract
        asks for -1 (see `LastIndexOfCorrected`). */
    function LastIndexOf(o: Option<E>): (r: int)
      reads this
      ensures o in Contents() ==> r == LastIndex(Contents(), o)
      ensures o !in Contents() ==> r == |Contents()|
    {
      FirstIndexMirrorsLast(backing, o);
      ReverseHas(backing, o);
      ToArrayI(FirstIndex(backing, o))
    }

    /** `lastIndexOf(o)` as the `List` contract states it: the last match
        from the front, -1 when there is none. */
    function LastIndexOfCorrected(o: Option<E>): (r: int)
      reads this
      ensures r == LastIndex(Contents(), o)
      ensures r == -1 <==> o !in Contents()
    {
      var k := FirstIndex(backing, o);
      FirstIndexMirrorsLast(backing, o);
      ReverseHas(backing, o);
      if k < 0 then -1 else ToArrayI(k)
    }

    /** `subList(from, to)`: a new deque wrapping a copy of the backing
        slice `[size - to, size - from)`, which reversed is the deque's
        `[from, to)`. The list's range check throws
        `IndexOutOfBoundsException` when `to > size` or `from < 0` and
        then `IllegalArgumentException` when `from > to`. */
    method SubList(from: int, to: int) returns (r: Result<ArrayListDeque<E>>)
      ensures r.Throw? <==> !(0 <= from <= to <= |Contents()|)
      ensures r.Throw? ==> r.ex == if to > |Contents()| || from < 0 then IndexOutOfBoundsException else IllegalArgumentException
      ensures r.Ok? ==> fresh(r.value) && r.value.Contents() == Contents()[from..to]
    {
      var lo, hi := |backing| - to, |backing| - from;
      if lo < 0 || hi > |backing| {
        return Throw(IndexOutOfBoundsException);
      }
      if lo > hi {
        return Throw(IllegalArgumentException);
      }
      var d := new ArrayListDeque.Wrap(backing[lo..hi]);
      return Ok(d);
    }

    /** `clear()`. */
    method Clear()
      modifies this
      ensures Contents() == []
    {
      backing := [];
    }
  }

  /** `new ArrayListDeque(initSize)`: the backing list rejects a negative
      initial capacity; otherwise the deque starts empty. */
  method NewWithCapacity<E(==)>(initSize: int) returns (r: Result<ArrayListDeque<E>>)
    ensures r.Throw? <==> initSize < 0
    ensures r.Throw? ==> r.ex == IllegalArgumentException
    ensures r.Ok? ==> fresh(r.value) && r.value.Contents() == []
  {
    if initSize < 0 {
      return Throw(IllegalArgumentException);
    }
    var d := new ArrayListDeque();
    return Ok(d);
  }

  /** `push(e)` then `pop()` answers `e` (or throws if `e` is null) and
      leaves the deque as it was: last in, first out. */
  method PushThenPop<E(==)>(d: ArrayListDeque<E>, e: Option<E>) returns (r: Result<E>)
    modifies d
    ensures r == IfNullExcept(e)
    ensures d.Contents() == old(d.Contents())
  {
    d.Push(e);
    r := d.Pop();
  }

  /** `offer(e)` then `poll()` answers the old front, or `e` itself on an
      empty deque, and `e` ends up at the back: first in, first out. */
  method OfferThenPoll<E(==)>(d: ArrayListDeque<E>, e: Option<E>) returns (r: Option<E>)
    modifies d
    ensures r == if old(d.Contents()) == [] then e else old(d.Contents()[0])
    ensures d.Contents() == if old(d.Contents()) == [] then [] else old(d.Contents()[1..]) + [e]
  {
    var _ := d.Offer(e);
    r := d.Poll();
  }

  /** After `addFirst(e)`, `peekFirst()` answers `e`; after `addLast(e)`,
      `peekLast()` answers `e`. */
  method AddThenPeek<E(==)>(d: ArrayListDeque<E>, e: Option<E>, atFront: bool) returns (r: Option<E>)
    modifies d
    ensures r == e
    ensures |d.Contents()| == |old(d.Contents())| + 1
  {
    if atFront {
      d.AddFirst(e);
      r := d.PeekFirst();
    } else {
      d.AddLast(e);
      r := d.PeekLast();
    }
  }

  /** The `List` and `Deque` contracts have `remove(o)` drop the FIRST
      match from the front. On the deque `[1, 2, 1]`, `remove(Integer.valueOf(1))` drops the
      last one and leaves `[1, 2]`; the corrected method leaves `[2, 1]`. */
  method RemoveObjectCounterexample() returns (asWritten: seq<Option<int>>, corrected: seq<Option<int>>)
    ensures asWritten == [Some(1), Some(2)]
    ensures corrected == [Some(2), Some(1)]
  {
    var s := [Some(1), Some(2), Some(1)];
    assert LastIndex(s, Some(1)) == 2;
    assert FirstIndex(s, Some(1)) == 0;
    var d := new ArrayListDeque.FromCollection(s);
    var _ := d.RemoveObject(Some(1));
    asWritten := d.Contents();
    var c := new ArrayListDeque.FromCollection(s);
    var _ := c.RemoveObjectCorrected(Some(1));
    corrected := c.Contents();
  }

  /** On an empty deque `indexOf` and `lastIndexOf` answer 0, the size,
      where the `List` contract (and the corrected functions) answer -1. */
  method IndexOfCounterexample() returns (asWritten: int, asWrittenLast: int, corrected: int, correctedLast: int)
    ensures asWritten == 0 && asWrittenLast == 0
    ensures corrected == -1 && correctedLast == -1
  {
    var d := new ArrayListDeque<int>();
    asWritten := d.IndexOf(Some(1));
    asWrittenLast := d.LastIndexOf(Some(1));
    corrected := d.IndexOfCorrected(Some(1));
    correctedLast := d.LastIndexOfCorrected(Some(1));
  }
}
