/**
 * The standard-library containers and algorithms the server's list code
 * relies on: std::list as a heap object whose contents are a sequence,
 * reversal (reverse iterators) and std::remove_if followed by erase.
 */
module Containers {

  /** A std::list<T>: an object updated in place; its contents in order are `elems`. */
  class LinkedList<T> {
    var elems: seq<T>

    constructor (s: seq<T>)
      ensures elems == s
    {
      elems := s;
    }
  }

  function Min(a: int, b: int): int { if a <= b then a else b }

  /** std::labs. */
  function Abs(x: int): nat { if x < 0 then -x else x }

  /** Non-decreasing order, the order of a sorted list. */
  ghost predicate Sorted(s: seq<int>)
  {
    forall i, j :: 0 <= i < j < |s| ==> s[i] <= s[j]
  }

  /**
   * The sequence a reverse iterator walks: position k of it is element
   * |s| - 1 - k of s.
   */
  function Reverse<T>(s: seq<T>): (r: seq<T>)
  {
    seq(|s|, k requires 0 <= k < |s| => s[|s| - 1 - k])
  }

  /** The elements of `s` that are not equal to `v`, in their order. */
  function WithoutValue<T(==)>(s: seq<T>, v: T): (r: seq<T>)
    ensures |r| <= |s|
  {
    if |s| == 0 then []
    else WithoutValue(s[..|s| - 1], v) + (if s[|s| - 1] != v then [s[|s| - 1]] else [])
  }

  /**
   * std::remove_if over [b, l) with an equality condition, then erase of the
   * leftover tail [newEnd, l): survivors are compacted towards b in order.
   */
  method RemoveIfEqual<T(==)>(list: LinkedList<T>, b: nat, l: nat, v: T)
    requires b <= l <= |list.elems|
    modifies list
    ensures list.elems == old(list.elems)[..b] + WithoutValue(old(list.elems)[b..l], v) + old(list.elems)[l..]
  {
    var newEnd := CompactWithout(list, b, l, v);
    list.elems := list.elems[..newEnd] + list.elems[l..];
  }

  /**
   * std::remove_if over [b, l) with an equality condition: the survivors are
   * moved, in order, to the front of the window, and the new end of the
   * survivors is returned; the elements after the window are untouched.
   */
  method CompactWithout<T(==)>(list: LinkedList<T>, b: nat, l: nat, v: T) returns (newEnd: nat)
    requires b <= l <= |list.elems|
    modifies list
    ensures b <= newEnd <= l <= |list.elems|
    ensures list.elems[..newEnd] == old(list.elems)[..b] + WithoutValue(old(list.elems)[b..l], v)
    ensures list.elems[l..] == old(list.elems)[l..]
  {
    ghost var s := list.elems;
    var w := b;
    var i := b;
    while i < l
      invariant i <= l && CompactedUpTo(list.elems, s, b, w, i, v)
    {
      w := CompactStep(list, s, b, w, i, v);
      i := i + 1;
    }
    newEnd := w;
  }

  /**
   * The state of the remove_if loop after i: the survivors of s[b..i] sit,
   * in order, at [b, w), and everything from i on is as it was.
   */
  ghost predicate CompactedUpTo<T>(elems: seq<T>, s: seq<T>, b: nat, w: nat, i: nat, v: T)
  {
    b <= w <= i <= |s| && |elems| == |s|
    && elems[..w] == s[..b] + WithoutValue(s[b..i], v)
    && elems[i..] == s[i..]
  }

  /** One turn of the remove_if loop: element i is moved to w unless it equals v. */
  method CompactStep<T(==)>(list: LinkedList<T>, ghost s: seq<T>, b: nat, w: nat, i: nat, v: T) returns (next: nat)
    requires i < |s| && CompactedUpTo(list.elems, s, b, w, i, v)
    modifies list
    ensures next == (if s[i] != v then w + 1 else w)
    ensures CompactedUpTo(list.elems, s, b, next, i + 1, v)
  {
    ghost var before := list.elems;
    ghost var kept := WithoutValue(s[b..i], v);
    var x := list.elems[i];
    assert x == s[i] by { assert before[i..][0] == s[i..][0]; }
    assert s[i + 1..] == before[i + 1..] by {
      assert before[i + 1..] == before[i..][1..];
      assert s[i + 1..] == s[i..][1..];
    }
    next := w;
    if x != v {
      UpdateAtEnd(before, w, x, i + 1);
      list.elems := list.elems[w := x];
      next := w + 1;
      assert list.elems[..next] == s[..b] + (kept + [x]);
    }
    assert list.elems[..next] == s[..b] + WithoutValue(s[b..i + 1], v) by {
      WithoutValueSnoc(s, b, i, v);
    }
  }

  /** Extending a window by one element extends its filtered form by that element unless it is v. */
  lemma WithoutValueSnoc<T>(s: seq<T>, b: nat, i: nat, v: T)
    requires b <= i < |s|
    ensures WithoutValue(s[b..i + 1], v) == WithoutValue(s[b..i], v) + (if s[i] != v then [s[i]] else [])
  {
    assert s[b..i + 1][..i - b] == s[b..i];
  }

  /** Writing x at w extends the prefix before w by x and leaves everything from j on alone. */
  lemma UpdateAtEnd<T>(a: seq<T>, w: nat, x: T, j: nat)
    requires w < j <= |a|
    ensures a[w := x][..w + 1] == a[..w] + [x]
    ensures a[w := x][j..] == a[j..]
  {
  }

  lemma {:induction false} WithoutValueAppend<T>(a: seq<T>, b: seq<T>, v: T)
    ensures WithoutValue(a + b, v) == WithoutValue(a, v) + WithoutValue(b, v)
    decreases |b|
  {
    if |b| == 0 {
      assert a + b == a;
    } else {
      assert (a + b)[..|a + b| - 1] == a + b[..|b| - 1];
      WithoutValueAppend(a, b[..|b| - 1], v);
    }
  }

  lemma {:induction false} WithoutValueNone<T>(s: seq<T>, v: T)
    requires forall k :: 0 <= k < |s| ==> s[k] != v
    ensures WithoutValue(s, v) == s
  {
    if |s| > 0 {
      WithoutValueNone(s[..|s| - 1], v);
    }
  }

  lemma {:induction false} WithoutValueAll<T>(s: seq<T>, v: T)
    requires forall k :: 0 <= k < |s| ==> s[k] == v
    ensures WithoutValue(s, v) == []
  {
    if |s| > 0 {
      WithoutValueAll(s[..|s| - 1], v);
    }
  }

  /** Filtering v out removes every occurrence of v and keeps the count of every other value. */
  lemma WithoutValueMultiset<T>(s: seq<T>, v: T)
    ensures multiset(WithoutValue(s, v)) == multiset(s)[v := 0]
  {
    forall y
      ensures multiset(WithoutValue(s, v))[y] == multiset(s)[v := 0][y]
    {
      WithoutValueCount(s, v, y);
    }
  }

  /** The count of y after filtering v out: none for v itself, unchanged for any other value. */
  lemma {:induction false} WithoutValueCount<T>(s: seq<T>, v: T, y: T)
    ensures multiset(WithoutValue(s, v))[y] == if y == v then 0 else multiset(s)[y]
  {
    if |s| > 0 {
      var init, last := s[..|s| - 1], s[|s| - 1];
      var kept := if last != v then [last] else [];
      assert s == init + [last];
      assert WithoutValue(s, v) == WithoutValue(init, v) + kept;
      WithoutValueCount(init, v, y);
    }
  }
}
