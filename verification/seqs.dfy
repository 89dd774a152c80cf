/** Sequence vocabulary for the containers: positional insert and remove,
    first and last occurrence (Java's `indexOf`/`lastIndexOf`, -1 when
    absent), and reversal, which both array-backed deques use to relate their
    backing list to the deque order. */
module Seqs {

  /** No element occurs twice (identity of nodes in a linked list). */
  ghost predicate Distinct<T>(s: seq<T>) {
    forall i, j :: 0 <= i < j < |s| ==> s[i] != s[j]
  }

  /** `x` placed so that it becomes the element at position `i`. */
  function Insert<T>(s: seq<T>, i: int, x: T): seq<T>
    requires 0 <= i <= |s|
  {
    s[..i] + [x] + s[i..]
  }

  /** `s` without its element at position `i`, the rest in order. */
  function RemoveAt<T>(s: seq<T>, i: int): seq<T>
    requires 0 <= i < |s|
  {
    s[..i] + s[i + 1..]
  }

  /** Pointwise description of `RemoveAt`: the elements before `i` stay,
      the ones after it move down by one. */
  lemma RemoveAtIndexes<T>(s: seq<T>, i: int)
    requires 0 <= i < |s|
    ensures |RemoveAt(s, i)| == |s| - 1
    ensures forall k :: 0 <= k < |s| - 1 ==> RemoveAt(s, i)[k] == s[if k < i then k else k + 1]
  {
  }

  /** Pointwise description of `Insert`: the elements before `i` stay, `x`
      is at `i`, and the ones from `i` on move up by one. */
  lemma InsertIndexes<T>(s: seq<T>, i: int, x: T)
    requires 0 <= i <= |s|
    ensures |Insert(s, i, x)| == |s| + 1
    ensures forall k :: 0 <= k <= |s| ==> Insert(s, i, x)[k] == if k < i then s[k] else if k == i then x else s[k - 1]
  {
  }

  /** Inserting a new element keeps the elements distinct. */
  lemma DistinctInsert<T>(s: seq<T>, i: int, x: T)
    requires Distinct(s) && x !in s && 0 <= i <= |s|
    ensures Distinct(Insert(s, i, x))
  {
    var t := Insert(s, i, x);
    forall a, b | 0 <= a < b < |t| ensures t[a] != t[b] {
      if a != i && b != i {
        assert t[a] == s[if a < i then a else a - 1];
        assert t[b] == s[if b < i then b else b - 1];
      }
    }
  }

  /** A new element in front keeps the elements distinct. */
  lemma DistinctCons<T>(x: T, s: seq<T>)
    requires Distinct(s) && x !in s
    ensures Distinct([x] + s)
  {
    var t := [x] + s;
    forall a, b | 0 <= a < b < |t| ensures t[a] != t[b] {
      assert t[b] == s[b - 1];
      if 0 < a {
        assert t[a] == s[a - 1];
      }
    }
  }

  /** Removing an element keeps the rest distinct. */
  lemma DistinctRemoveAt<T>(s: seq<T>, i: int)
    requires Distinct(s) && 0 <= i < |s|
    ensures Distinct(RemoveAt(s, i))
    ensures s[i] !in RemoveAt(s, i)
  {
    var t := RemoveAt(s, i);
    forall a, b | 0 <= a < b < |t| ensures t[a] != t[b] {
      assert t[a] == s[if a < i then a else a + 1];
      assert t[b] == s[if b < i then b else b + 1];
    }
    forall a | 0 <= a < |t| ensures t[a] != s[i] {
      assert t[a] == s[if a < i then a else a + 1];
    }
  }

  /** Inserting inside a bracketed sequence is inserting one position further on. */
  lemma BracketInsert<T>(h: T, s: seq<T>, t: T, i: int, x: T)
    requires 0 <= i <= |s|
    ensures [h] + Insert(s, i, x) + [t] == Insert([h] + s + [t], i + 1, x)
  {
    var c := [h] + s + [t];
    assert c[..i + 1] == [h] + s[..i];
    assert c[i + 1..] == s[i..] + [t];
  }

  /** Removing inside a bracketed sequence is removing one position further on. */
  lemma BracketRemoveAt<T>(h: T, s: seq<T>, t: T, i: int)
    requires 0 <= i < |s|
    ensures [h] + RemoveAt(s, i) + [t] == RemoveAt([h] + s + [t], i + 1)
  {
    var c := [h] + s + [t];
    assert c[..i + 1] == [h] + s[..i];
    assert c[i + 2..] == s[i + 1..] + [t];
  }

  /** Position `a` of `x` put in front of `s` without its element `i`. */
  lemma ConsRemoveAtAt<T>(x: T, s: seq<T>, i: int, a: int)
    requires 0 <= i < |s| && 0 <= a < |s|
    ensures ([x] + RemoveAt(s, i))[a] == if a == 0 then x else s[if a <= i then a - 1 else a]
  {
  }

  /** Overwriting an element with a new one keeps the elements distinct. */
  lemma DistinctUpdate<T>(s: seq<T>, i: int, x: T)
    requires Distinct(s) && x !in s && 0 <= i < |s|
    ensures Distinct(s[i := x])
    ensures s[i] !in s[i := x]
  {
  }

  /** The inside of a bracketed sequence without repetitions has none either,
      and contains neither bracket. */
  lemma DistinctInner<T>(h: T, s: seq<T>, t: T)
    requires Distinct([h] + s + [t])
    ensures Distinct(s) && h !in s && t !in s && h != t
  {
    var c := [h] + s + [t];
    assert forall k :: 0 <= k < |s| ==> s[k] == c[k + 1];
    assert c[0] == h && c[|c| - 1] == t;
  }

  /** A sequence without repetitions has as many distinct elements as positions. */
  lemma {:induction false} DistinctCard<T>(s: seq<T>)
    requires Distinct(s)
    ensures |set x | x in s| == |s|
  {
    if s != [] {
      assert Distinct(s[1..]) by {
        forall a, b | 0 <= a < b < |s[1..]| ensures s[1..][a] != s[1..][b] {
          assert s[1..][a] == s[a + 1] && s[1..][b] == s[b + 1];
        }
      }
      DistinctCard(s[1..]);
      assert (set x | x in s) == {s[0]} + (set x | x in s[1..]);
      assert s[0] !in s[1..] by {
        forall a | 0 <= a < |s[1..]| ensures s[1..][a] != s[0] {
          assert s[1..][a] == s[a + 1];
        }
      }
    }
  }

  /** Position of the first occurrence of `x`, or -1 (Java's `indexOf`). */
  function FirstIndex<T(==)>(s: seq<T>, x: T): (r: int)
    ensures -1 <= r < |s|
    ensures r == -1 <==> x !in s
    ensures 0 <= r ==> s[r] == x && forall j :: 0 <= j < r ==> s[j] != x
  {
    if s == [] then -1
    else if s[0] == x then 0
    else
      var r := FirstIndex(s[1..], x);
      if r == -1 then -1 else r + 1
  }

  /** In a sequence without repetitions every element is its own first occurrence. */
  lemma DistinctFirstIndex<T>(s: seq<T>, i: int)
    requires Distinct(s) && 0 <= i < |s|
    ensures FirstIndex(s, s[i]) == i
  {
  }

  /** Position of the last occurrence of `x`, or -1 (Java's `lastIndexOf`). */
  function LastIndex<T(==)>(s: seq<T>, x: T): (r: int)
    ensures -1 <= r < |s|
    ensures r == -1 <==> x !in s
    ensures 0 <= r ==> s[r] == x && forall j :: r < j < |s| ==> s[j] != x
  {
    if s == [] then -1
    else if s[|s| - 1] == x then |s| - 1
    else
      assert forall y :: y in s[..|s| - 1] ==> y in s;
      LastIndex(s[..|s| - 1], x)
  }

  /** Without repetitions, the first and the last occurrence coincide. */
  lemma DistinctLastIndex<T>(s: seq<T>, x: T)
    requires Distinct(s)
    ensures LastIndex(s, x) == FirstIndex(s, x)
  {
  }

  /** The elements of `s` in the opposite order. */
  function Reverse<T>(s: seq<T>): (r: seq<T>)
    ensures |r| == |s|
  {
    seq(|s|, k requires 0 <= k < |s| => s[|s| - 1 - k])
  }


  /** A sequence and its reversal hold the same elements. */
  lemma ReverseHas<T>(s: seq<T>, x: T)
    ensures x in Reverse(s) <==> x in s
  {
    if x in s {
      var k :| 0 <= k < |s| && s[k] == x;
      assert Reverse(s)[|s| - 1 - k] == x;
    }
  }

  /** `r` mirrors `s` position by position. */
  ghost predicate Mirrored<T>(s: seq<T>, r: seq<T>) {
    && |r| == |s|
    && forall k :: 0 <= k < |s| ==> r[k] == s[|s| - 1 - k]
  }

  /** Of two sequences mirroring each other, the last match in one is the
      first match in the other, mirrored. */
  lemma MirroredIndexes<T>(s: seq<T>, r: seq<T>, x: T)
    requires Mirrored(s, r)
    ensures x in r <==> x in s
    ensures LastIndex(s, x) == if x in s then |s| - 1 - FirstIndex(r, x) else -1
  {
    if x in s {
      var l := LastIndex(s, x);
      assert r[|s| - 1 - l] == x;
    }
    if x in r {
      var f := FirstIndex(r, x);
      assert s[|s| - 1 - f] == x;
    }
  }

  /** The last occurrence in `s` is the first occurrence in its reversal, mirrored. */
  lemma LastIndexMirrorsFirst<T>(s: seq<T>, x: T)
    ensures LastIndex(s, x) == if x in s then |s| - 1 - FirstIndex(Reverse(s), x) else -1
  {
    MirroredIndexes(s, Reverse(s), x);
  }

  /** The first occurrence in `s` is the last occurrence in its reversal, mirrored. */
  lemma FirstIndexMirrorsLast<T>(s: seq<T>, x: T)
    ensures FirstIndex(s, x) == if x in s then |s| - 1 - LastIndex(Reverse(s), x) else -1
  {
    MirroredIndexes(Reverse(s), s, x);
  }

  /** Removing position `p` of `s` removes the mirrored position of the reversal. */
  lemma ReverseRemoveAt<T>(s: seq<T>, p: int)
    requires 0 <= p < |s|
    ensures Reverse(RemoveAt(s, p)) == RemoveAt(Reverse(s), |s| - 1 - p)
  {
    var lhs, rhs := Reverse(RemoveAt(s, p)), RemoveAt(Reverse(s), |s| - 1 - p);
    assert forall k :: 0 <= k < |lhs| ==> lhs[k] == rhs[k];
  }

  /** Removing the first match of `x` from `s` removes the last match from
      its reversal. */
  lemma ReverseRemoveFirstMatch<T>(s: seq<T>, x: T)
    requires x in s
    ensures x in Reverse(s)
    ensures Reverse(RemoveAt(s, FirstIndex(s, x))) == RemoveAt(Reverse(s), LastIndex(Reverse(s), x))
  {
    MirroredIndexes(Reverse(s), s, x);
    ReverseRemoveAt(s, FirstIndex(s, x));
  }

  /** Removing the last match of `x` from `s` removes the first match from
      its reversal. */
  lemma ReverseRemoveLastMatch<T>(s: seq<T>, x: T)
    requires x in s
    ensures x in Reverse(s)
    ensures Reverse(RemoveAt(s, LastIndex(s, x))) == RemoveAt(Reverse(s), FirstIndex(Reverse(s), x))
  {
    MirroredIndexes(s, Reverse(s), x);
    ReverseRemoveAt(s, LastIndex(s, x));
  }
}
