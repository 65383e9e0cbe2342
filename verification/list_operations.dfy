/**
 * The list operations of the server (ListOperations.hpp): window resolution,
 * positional, appending and sorted insertion, overwrite, range reads,
 * range removal, conditional removal and sorted intersection. Every
 * operation that the server runs on a std::list in place is a method on a
 * `LinkedList`; its new contents are stated against functions of the old
 * contents, and the properties of those functions are lemmas.
 *
 * Elements are unbounded integers (for the int64/uint64 lists) or any type
 * with equality; the sorted operations need an order and are stated on
 * integers.
 */
module ListOperations {
  import opened Wire
  import opened Containers

  /** The C++ element type a list or a condition is instantiated with. */
  datatype ElemType = Int64 | UInt64 | Float32 | Str

  /** The equality condition of a RemoveIf: it matches the elements equal to `val`. */
  datatype IsEqual<T(==)> = IsEqual(val: T)

  /** A validity flag and a resolved window [begin, last) of list indices. */
  datatype Indices = Indices(valid: bool, begin: int, last: int)

  // ---------------------------------------------------------------------
  // Window resolution
  // ---------------------------------------------------------------------

  /**
   * positionsToIndices: a start counted from the head (start >= 0) or from
   * the tail (start < 0) must name an element; the stop is clamped to the
   * size, and a missing stop means "to the tail".
   */
  function PositionsToIndices(start: int, end: int, hasStop: bool, size: nat): (r: Indices)
    ensures r.valid <==> (0 <= start < size || (start < 0 && -start <= size))
    ensures !r.valid ==> r.begin == 0 && r.last == 0
    ensures r.valid ==> 0 <= r.begin < size && 0 <= r.last <= size
    ensures r.valid && start >= 0 ==> r.begin == start
    ensures r.valid && start < 0 ==> r.begin == size + start
    ensures r.valid && !hasStop ==> r.last == size
    ensures r.valid && hasStop && end >= 0 ==> r.last == Min(size, end)
    ensures r.valid && hasStop && end < 0 && size + end >= 0 ==> r.last == size + end
  {
    if (start >= 0 && start >= size) || Abs(start) > size then Indices(false, 0, 0)
    else
      var end := if hasStop then end else size;
      var begin := if start < 0 then size + start else start;
      var last := if end < 0 then Min(size, Abs(size + end)) else Min(size, end);
      Indices(true, begin, last)
  }

  /**
   * A stop more than `size` places before the tail is not clamped to the
   * head: std::labs(size + stop) is taken, so the window reaches back into
   * the list again.
   */
  lemma StopBeforeHeadIsReflected(start: int, end: int, size: nat)
    requires size + end < 0 && 2 * size + end >= 0
    requires PositionsToIndices(start, end, true, size).valid
    ensures PositionsToIndices(start, end, true, size).last == -(size + end)
    ensures PositionsToIndices(start, end, true, size).last > 0
  {
  }

  /**
   * positionsToIterators: the window of positionsToIndices, usable only when
   * it is non-empty.
   */
  function PositionsToIterators(start: int, end: int, hasStop: bool, size: nat): (r: Indices)
    ensures r.valid ==> 0 <= r.begin < r.last <= size
    ensures var ix := PositionsToIndices(start, end, hasStop, size);
      r.valid == (ix.valid && ix.begin < ix.last) && (r.valid ==> r.begin == ix.begin && r.last == ix.last)
  {
    var ix := PositionsToIndices(start, end, hasStop, size);
    if !ix.valid || ix.begin >= ix.last then Indices(false, 0, 0) else ix
  }

  /**
   * positionToStartIterator: the index an insertion at `start` goes before;
   * a start that names no element means the end of the list.
   */
  function PositionToStartIterator(start: int, size: nat): (p: nat)
    ensures p <= size
    ensures 0 <= start < size ==> p == start
    ensures start < 0 && size + start >= 0 ==> p == size + start
    ensures start >= size || size + start < 0 ==> p == size
  {
    var w := PositionsToIterators(start, 0, false, size);
    if w.valid then w.begin else size
  }

  // ---------------------------------------------------------------------
  // Reading
  // ---------------------------------------------------------------------

  /** listToTypedVector(it, count): `count` elements from index `it` of the walked sequence. */
  method ListToTypedVector<T>(walk: seq<T>, it: nat, count: int) returns (out: seq<T>)
    requires it <= |walk|
    requires count <= 0 || it + count <= |walk|
    ensures count <= 0 ==> out == []
    ensures count > 0 ==> out == walk[it..it + count]
  {
    out := [];
    ghost var n := if count <= 0 then 0 else count;
    var i := 0;
    while i < count
      invariant 0 <= i <= n
      invariant out == walk[it..it + i]
    {
      out := out + [walk[it + i]];
      i := i + 1;
    }
  }

  /**
   * GetByRange: reply with the window read from the head (Base Head) or
   * from the tail (any other base); the reply is valid whenever the start
   * names an element, and an inverted window gives an empty vector.
   */
  method GetByRange<T>(list: LinkedList<T>, start: int, end: int, hasStop: bool, base: Base)
    returns (valid: bool, out: seq<T>)
    ensures var ix := PositionsToIndices(start, end, hasStop, |list.elems|);
      valid == ix.valid
      && out == if !valid || ix.last <= ix.begin then []
                else if base == Head then list.elems[ix.begin..ix.last]
                else Reverse(list.elems)[ix.begin..ix.last]
  {
    var ix := PositionsToIndices(start, end, hasStop, |list.elems|);
    valid := ix.valid;
    out := [];
    if valid {
      var count := ix.last - ix.begin;
      if base == Head {
        out := ListToTypedVector(list.elems, ix.begin, count);
      } else {
        out := ListToTypedVector(Reverse(list.elems), ix.begin, count);
      }
    }
  }

  /**
   * A window read from the tail is the mirrored window read from the head,
   * in reverse order.
   */
  lemma TailWindowIsMirroredHeadWindow<T>(s: seq<T>, b: nat, l: nat)
    requires b <= l <= |s|
    ensures Reverse(s)[b..l] == Reverse(s[|s| - l..|s| - b])
  {
    var lhs := Reverse(s)[b..l];
    var rhs := Reverse(s[|s| - l..|s| - b]);
    assert |lhs| == |rhs| == l - b;
    forall k | 0 <= k < l - b
      ensures lhs[k] == rhs[k]
    {
      assert lhs[k] == s[|s| - 1 - (b + k)];
    }
  }

  // ---------------------------------------------------------------------
  // Adding
  // ---------------------------------------------------------------------

  /**
   * Add<false> with a position: the items are inserted, in order, before
   * the element at `pos` (resolved like a start); an out-of-range position
   * appends.
   */
  method UnsortedAdd<T>(list: LinkedList<T>, items: seq<T>, pos: int) returns (size: nat)
    modifies list
    ensures var p := PositionToStartIterator(pos, |old(list.elems)|);
      list.elems == old(list.elems)[..p] + items + old(list.elems)[p..]
    ensures size == |list.elems| == |old(list.elems)| + |items|
  {
    var it := PositionToStartIterator(pos, |list.elems|);
    InsertItemsAt(list, items, it);
    size := |list.elems|;
  }

  /** The emplace loop of an add: each item goes before `it`, which then steps past it. */
  method InsertItemsAt<T>(list: LinkedList<T>, items: seq<T>, it: nat)
    requires it <= |list.elems|
    modifies list
    ensures list.elems == old(list.elems)[..it] + items + old(list.elems)[it..]
  {
    ghost var s := list.elems;
    var at := it;
    var i := 0;
    while i < |items|
      invariant 0 <= i <= |items| && at == it + i
      invariant list.elems == s[..it] + items[..i] + s[it..]
    {
      assert list.elems[..at] == s[..it] + items[..i];
      assert list.elems[at..] == s[it..];
      assert items[..i + 1] == items[..i] + [items[i]];
      list.elems := list.elems[..at] + [items[i]] + list.elems[at..];
      at := at + 1;
      i := i + 1;
    }
    assert items[..i] == items;
  }

  /** Add<false> in append mode: the items go after the tail, in order. */
  method UnsortedAppend<T>(list: LinkedList<T>, items: seq<T>) returns (size: nat)
    modifies list
    ensures list.elems == old(list.elems) + items
    ensures size == |list.elems|
  {
    ghost var s := list.elems;
    var i := 0;
    while i < |items|
      invariant 0 <= i <= |items|
      invariant list.elems == s + items[..i]
    {
      assert items[..i + 1] == items[..i] + [items[i]];
      list.elems := list.elems + [items[i]];
      i := i + 1;
    }
    assert items[..i] == items;
    size := |list.elems|;
  }

  /** std::lower_bound over [from, to): the first index whose element is not less than v. */
  function LowerBound(s: seq<int>, from: nat, to: nat, v: int): (r: nat)
    requires from <= to <= |s|
    ensures from <= r <= to
    ensures forall k :: from <= k < r ==> s[k] < v
    ensures r < to ==> v <= s[r]
    decreases (to as int) - from
  {
    if from == to || v <= s[from] then from else LowerBound(s, from + 1, to, v)
  }

  /** std::upper_bound over [from, to): the first index whose element is greater than v. */
  function UpperBound(s: seq<int>, from: nat, to: nat, v: int): (r: nat)
    requires from <= to <= |s|
    ensures from <= r <= to
    ensures forall k :: from <= k < r ==> s[k] <= v
    ensures r < to ==> v < s[r]
    decreases (to as int) - from
  {
    if from == to || v < s[from] then from else UpperBound(s, from + 1, to, v)
  }

  /**
   * Inserting v at the lower bound searched from `from` keeps a sorted list
   * sorted, provided nothing before `from` exceeds v.
   */
  lemma InsertAtLowerBoundKeepsSorted(s: seq<int>, from: nat, v: int)
    requires Sorted(s) && from <= |s|
    requires from > 0 ==> s[from - 1] <= v
    ensures var p := LowerBound(s, from, |s|, v);
      Sorted(s[..p] + [v] + s[p..])
  {
    var p := LowerBound(s, from, |s|, v);
    assert s[..p] + [v] + s[p..] == (s[..p] + [v]) + s[p..];
    SliceSorted(s, 0, p);
    SliceSorted(s, p, |s|);
    assert Sorted([v]);
    if p > 0 {
      assert s[p - 1] <= v by {
        if p - 1 < from {
          assert p - 1 == from - 1;
        }
      }
    }
    ConcatSorted(s[..p], [v]);
    ConcatSorted(s[..p] + [v], s[p..]);
  }

  /** Every slice of a sorted sequence is sorted. */
  lemma SliceSorted(s: seq<int>, lo: nat, hi: nat)
    requires Sorted(s) && lo <= hi <= |s|
    ensures Sorted(s[lo..hi])
  {
    forall i, j | 0 <= i < j < hi - lo
      ensures s[lo..hi][i] <= s[lo..hi][j]
    {
      assert s[lo..hi][i] == s[lo + i] && s[lo..hi][j] == s[lo + j];
    }
  }

  /** Two sorted sequences, the second starting no lower than the first ends, concatenate sorted. */
  lemma ConcatSorted(a: seq<int>, b: seq<int>)
    requires Sorted(a) && Sorted(b)
    requires |a| > 0 && |b| > 0 ==> a[|a| - 1] <= b[0]
    ensures Sorted(a + b)
  {
    var t := a + b;
    forall i, j | 0 <= i < j < |t|
      ensures t[i] <= t[j]
    {
      if i < |a| && j >= |a| {
        assert a[i] <= a[|a| - 1];
        assert b[0] <= b[j - |a|];
      }
    }
  }

  /** The head of a sorted sequence is its least element. */
  lemma SortedHeadIsLeast(a: seq<int>, x: int)
    requires Sorted(a) && x in a
    ensures a[0] <= x
  {
    var k :| 0 <= k < |a| && a[k] == x;
    if k > 0 {
      assert a[0] <= a[k];
    }
  }

  /** A value below the head of a sorted sequence does not occur in it. */
  lemma BelowHeadIsAbsent(a: seq<int>, x: int)
    requires Sorted(a) && |a| > 0 && x < a[0]
    ensures multiset(a)[x] == 0
  {
    forall k | 0 <= k < |a|
      ensures a[k] != x
    {
      if k > 0 {
        assert a[0] <= a[k];
      }
    }
    assert x !in a;
  }

  /** A sorted sequence stays sorted without its head. */
  lemma SortedTail(a: seq<int>)
    requires Sorted(a) && |a| > 0
    ensures Sorted(a[1..])
  {
    forall i, j | 0 <= i < j < |a| - 1
      ensures a[1..][i] <= a[1..][j]
    {
      assert a[i + 1] <= a[j + 1];
    }
  }

  /**
   * A sorted sequence is determined by its elements: whichever path
   * SortedAdd takes, its result is the one sorted arrangement of the old
   * elements and the items.
   */
  lemma {:induction false} SortedPermutationUnique(a: seq<int>, b: seq<int>)
    requires Sorted(a) && Sorted(b)
    requires multiset(a) == multiset(b)
    ensures a == b
    decreases |a|
  {
    assert |a| == |multiset(a)| == |multiset(b)| == |b|;
    if |a| > 0 {
      assert a[0] in multiset(b);
      assert b[0] in multiset(a);
      SortedHeadIsLeast(b, a[0]);
      SortedHeadIsLeast(a, b[0]);
      var x, ta, tb := a[0], a[1..], b[1..];
      assert a == [x] + ta;
      assert b == [x] + tb;
      assert multiset(ta) == multiset(tb) by {
        assert multiset(a) == multiset{x} + multiset(ta);
        assert multiset(b) == multiset{x} + multiset(tb);
        assert multiset(ta) == multiset(a) - multiset{x};
        assert multiset(tb) == multiset(b) - multiset{x};
      }
      SortedTail(a);
      SortedTail(b);
      SortedPermutationUnique(ta, tb);
    }
  }

  /** One std::lower_bound plus emplace step of a sorted add. */
  method InsertAtLowerBound(list: LinkedList<int>, from: nat, val: int) returns (p: nat)
    requires Sorted(list.elems) && from <= |list.elems|
    requires from > 0 ==> list.elems[from - 1] <= val
    modifies list
    ensures Sorted(list.elems)
    ensures multiset(list.elems) == multiset(old(list.elems)) + multiset{val}
    ensures |list.elems| == |old(list.elems)| + 1
    ensures from <= p < |list.elems| && list.elems[p] == val
  {
    p := LowerBound(list.elems, from, |list.elems|, val);
    InsertAtLowerBoundKeepsSorted(list.elems, from, val);
    assert list.elems == list.elems[..p] + list.elems[p..];
    list.elems := list.elems[..p] + [val] + list.elems[p..];
  }

  /**
   * Add<true>: the items join a sorted list, which stays sorted and gains
   * exactly the items. Unsorted items are placed one by one at their lower
   * bound; sorted items take doSourceListSortedAdd.
   */
  method SortedAdd(list: LinkedList<int>, items: seq<int>, itemsSorted: bool) returns (size: nat)
    requires Sorted(list.elems)
    requires itemsSorted ==> Sorted(items)
    modifies list
    ensures Sorted(list.elems)
    ensures multiset(list.elems) == multiset(old(list.elems)) + multiset(items)
    ensures size == |list.elems| == |old(list.elems)| + |items|
  {
    if itemsSorted {
      SortedSourceAdd(list, items);
    } else {
      ghost var s := list.elems;
      var i := 0;
      while i < |items|
        invariant 0 <= i <= |items|
        invariant Sorted(list.elems)
        invariant multiset(list.elems) == multiset(s) + multiset(items[..i])
        invariant |list.elems| == |s| + i
      {
        assert items[..i + 1] == items[..i] + [items[i]];
        var _ := InsertAtLowerBound(list, 0, items[i]);
        i := i + 1;
      }
      assert items[..i] == items;
    }
    size := |list.elems|;
  }

  /**
   * doSourceListSortedAdd: sorted items all at or below the head are
   * prepended, all at or above the tail are appended, and otherwise each
   * is placed at its lower bound searched from where the previous item
   * went. (With no items each branch changes nothing.)
   */
  method SortedSourceAdd(list: LinkedList<int>, items: seq<int>)
    requires Sorted(list.elems) && Sorted(items)
    modifies list
    ensures Sorted(list.elems)
    ensures multiset(list.elems) == multiset(old(list.elems)) + multiset(items)
    ensures |list.elems| == |old(list.elems)| + |items|
  {
    ghost var s := list.elems;
    if |items| > 0 && |list.elems| > 0 && items[|items| - 1] <= list.elems[0] {
      PrependAll(list, items);
      ConcatSorted(items, s);
    } else if |items| > 0 && |list.elems| > 0 && items[0] >= list.elems[|list.elems| - 1] {
      var _ := UnsortedAppend(list, items);
      ConcatSorted(s, items);
    } else {
      MergeFromLastInsert(list, items);
    }
  }

  /** The emplace_front loop: the items, last first, each go before the head. */
  method PrependAll(list: LinkedList<int>, items: seq<int>)
    modifies list
    ensures list.elems == items + old(list.elems)
  {
    ghost var s := list.elems;
    var i := |items|;
    while i > 0
      invariant 0 <= i <= |items|
      invariant list.elems == items[i..] + s
    {
      assert items[i - 1..] == [items[i - 1]] + items[i..];
      list.elems := [items[i - 1]] + list.elems;
      i := i - 1;
    }
  }

  /**
   * The general branch of doSourceListSortedAdd: each sorted item is placed
   * at its lower bound, searched from the position of the item before it.
   */
  method MergeFromLastInsert(list: LinkedList<int>, items: seq<int>)
    requires Sorted(list.elems) && Sorted(items)
    modifies list
    ensures Sorted(list.elems)
    ensures multiset(list.elems) == multiset(old(list.elems)) + multiset(items)
    ensures |list.elems| == |old(list.elems)| + |items|
  {
    ghost var s := list.elems;
    var it := 0;
    var i := 0;
    while i < |items|
      invariant MergedPrefix(list.elems, s, items, i, it)
    {
      it := MergeNext(list, s, items, i, it);
      i := i + 1;
    }
    assert items[..i] == items;
  }

  /**
   * After the first i items have been merged into s: the list is sorted,
   * holds s and those items, and `it` is where the last of them went.
   */
  ghost predicate MergedPrefix(elems: seq<int>, s: seq<int>, items: seq<int>, i: nat, it: nat)
  {
    i <= |items|
    && Sorted(elems)
    && multiset(elems) == multiset(s) + multiset(items[..i])
    && |elems| == |s| + i
    && (i == 0 ==> it == 0)
    && (i > 0 ==> it < |elems| && elems[it] == items[i - 1])
  }

  /** One step of the merge: item i goes to its lower bound searched from `it`. */
  method MergeNext(list: LinkedList<int>, ghost s: seq<int>, items: seq<int>, i: nat, it: nat) returns (next: nat)
    requires Sorted(items) && i < |items| && MergedPrefix(list.elems, s, items, i, it)
    modifies list
    ensures MergedPrefix(list.elems, s, items, i + 1, next)
  {
    assert items[..i + 1] == items[..i] + [items[i]];
    assert it > 0 ==> list.elems[it - 1] <= items[i] by {
      if it > 0 {
        assert list.elems[it - 1] <= list.elems[it];
        assert items[i - 1] <= items[i];
      }
    }
    next := InsertAtLowerBound(list, it, items[i]);
  }

  // ---------------------------------------------------------------------
  // Overwriting
  // ---------------------------------------------------------------------

  /** `s` with [b, l) replaced by the first l - b items. */
  function Overwrite<T>(s: seq<T>, b: nat, l: nat, items: seq<T>): (r: seq<T>)
    requires b <= l <= |s| && l - b <= |items|
    ensures |r| == |s|
    ensures forall k :: 0 <= k < |s| ==> r[k] == if b <= k < l then items[k - b] else s[k]
  {
    s[..b] + items[..l - b] + s[l..]
  }

  /**
   * The window Set writes, as the server computes it: a negative position
   * is moved by the size once here, and is then resolved again as a start
   * by positionsToIterators.
   */
  function SetWindow(pos: int, count: nat, size: nat): (r: Indices)
    ensures r.valid ==> 0 <= r.begin < r.last <= size && r.last - r.begin <= count
  {
    var p := if pos < 0 then size + pos else pos;
    PositionsToIterators(p, p + count, true, size)
  }

  /** A position that is more than `size` places before the tail still overwrites an element. */
  lemma SetWritesBeforeHead()
    ensures SetWindow(-7, 1, 5) == Indices(true, 3, 4)
    ensures CheckedSetWindow(-7, 1, 5).valid == false
  {
  }

  /**
   * The window Set is meant to write: a non-negative position from the head
   * or a negative one from the tail, naming an element, and as many places
   * as there are items, clipped to the tail.
   */
  function CheckedSetWindow(pos: int, count: nat, size: nat): (r: Indices)
    ensures r.valid <==> count > 0 && pos < size && size + pos >= 0
    ensures r.valid ==> r.begin == (if pos < 0 then size + pos else pos)
    ensures r.valid ==> r.last == Min(size, r.begin + count)
  {
    if size + pos < 0 then Indices(false, 0, 0) else SetWindow(pos, count, size)
  }

  /** The copy loop of Set over a resolved window. */
  method OverwriteWindow<T>(list: LinkedList<T>, items: seq<T>, w: Indices)
    requires w.valid ==> 0 <= w.begin <= w.last <= |list.elems| && w.last - w.begin <= |items|
    modifies list
    ensures list.elems == if w.valid then Overwrite(old(list.elems), w.begin, w.last, items) else old(list.elems)
  {
    if w.valid {
      ghost var s := list.elems;
      var it := w.begin;
      var i := 0;
      while it != w.last
        invariant w.begin <= it <= w.last && i == it - w.begin
        invariant list.elems == Overwrite(s, w.begin, it, items)
        decreases w.last - it
      {
        ghost var before := list.elems;
        list.elems := list.elems[it := items[i]];
        assert forall k :: 0 <= k < |s| ==> list.elems[k] == Overwrite(s, w.begin, it + 1, items)[k];
        it := it + 1;
        i := i + 1;
      }
    }
  }

  /** Set, as written: overwrite the window SetWindow resolves; nothing else changes. */
  method Set<T>(list: LinkedList<T>, items: seq<T>, pos: int)
    modifies list
    ensures var w := SetWindow(pos, |items|, |old(list.elems)|);
      list.elems == if w.valid then Overwrite(old(list.elems), w.begin, w.last, items) else old(list.elems)
  {
    var w := SetWindow(pos, |items|, |list.elems|);
    OverwriteWindow(list, items, w);
  }

  /** Set with the position resolved once: a position before the head overwrites nothing. */
  method SetChecked<T>(list: LinkedList<T>, items: seq<T>, pos: int)
    modifies list
    ensures var w := CheckedSetWindow(pos, |items|, |old(list.elems)|);
      list.elems == if w.valid then Overwrite(old(list.elems), w.begin, w.last, items) else old(list.elems)
  {
    var w := CheckedSetWindow(pos, |items|, |list.elems|);
    OverwriteWindow(list, items, w);
  }

  // ---------------------------------------------------------------------
  // Removing
  // ---------------------------------------------------------------------

  /**
   * Remove: erase the window when the start names an element (the whole
   * list is cleared when the window covers it). An inverted window is
   * undefined behaviour in the server and is excluded.
   */
  method Remove<T>(list: LinkedList<T>, start: int, end: int, hasStop: bool)
    requires var ix := PositionsToIndices(start, end, hasStop, |list.elems|);
      ix.valid ==> ix.begin <= ix.last
    modifies list
    ensures var ix := PositionsToIndices(start, end, hasStop, |old(list.elems)|);
      list.elems == if ix.valid then old(list.elems)[..ix.begin] + old(list.elems)[ix.last..]
                    else old(list.elems)
  {
    var ix := PositionsToIndices(start, end, hasStop, |list.elems|);
    if ix.valid {
      if ix.last - ix.begin == |list.elems| {
        list.elems := [];
      } else {
        list.elems := list.elems[..ix.begin] + list.elems[ix.last..];
      }
    }
  }

  /**
   * The elements equal to v removed from the window a RemoveIf resolves,
   * the rest keeping their order; a window that names nothing changes
   * nothing.
   */
  function WithoutValueInWindow<T(==)>(s: seq<T>, start: int, end: int, hasStop: bool, v: T): (r: seq<T>)
    ensures |r| <= |s|
  {
    var w := PositionsToIterators(start, end, hasStop, |s|);
    if w.valid then s[..w.begin] + WithoutValue(s[w.begin..w.last], v) + s[w.last..] else s
  }

  /**
   * A RemoveIf removes occurrences of v inside the window and nothing
   * else: every other value keeps its count, and v keeps only the
   * occurrences outside the window.
   */
  lemma WithoutValueInWindowCounts<T>(s: seq<T>, start: int, end: int, hasStop: bool, v: T)
    ensures var r := WithoutValueInWindow(s, start, end, hasStop, v);
      forall x :: x != v ==> multiset(r)[x] == multiset(s)[x]
    ensures var w := PositionsToIterators(start, end, hasStop, |s|);
      var r := WithoutValueInWindow(s, start, end, hasStop, v);
      w.valid ==> multiset(r)[v] == multiset(s[..w.begin] + s[w.last..])[v]
  {
    var w := PositionsToIterators(start, end, hasStop, |s|);
    if w.valid {
      FilteredWindowCounts(s, w.begin, w.last, v);
    }
  }

  /** Filtering v out of s[b..l) leaves every count of s except v's, which keeps only the outside part. */
  lemma FilteredWindowCounts<T>(s: seq<T>, b: nat, l: nat, v: T)
    requires b <= l <= |s|
    ensures multiset(s[..b] + WithoutValue(s[b..l], v) + s[l..]) == multiset(s)[v := multiset(s[..b] + s[l..])[v]]
  {
    var pre, win, post := s[..b], s[b..l], s[l..];
    assert s == pre + win + post;
    WithoutValueMultiset(win, v);
    assert multiset(pre + WithoutValue(win, v) + post) == multiset(pre) + multiset(win)[v := 0] + multiset(post);
    assert multiset(s) == multiset(pre) + multiset(win) + multiset(post);
    assert multiset(pre + post) == multiset(pre) + multiset(post);
  }

  /**
   * RemoveIf on an unsorted list: when the condition's type is the list's
   * element type and the window is non-empty, the elements equal to the
   * value inside the window are removed, keeping the order of the rest.
   */
  method UnsortedRemoveIf<T(==)>(list: LinkedList<T>, listType: ElemType, cond: IsEqual<T>, condType: ElemType,
                                 start: int, end: int, hasStop: bool) returns (size: nat)
    modifies list
    ensures list.elems == if listType == condType then WithoutValueInWindow(old(list.elems), start, end, hasStop, cond.val)
                          else old(list.elems)
    ensures size == |list.elems|
  {
    if listType == condType {
      var w := PositionsToIterators(start, end, hasStop, |list.elems|);
      if w.valid {
        RemoveIfEqual(list, w.begin, w.last, cond.val);
      }
    }
    size := |list.elems|;
  }

  /** std::equal_range over [b, l) followed by erase, skipped when the lower bound is the list's end. */
  function EraseEqualRange(s: seq<int>, b: nat, l: nat, v: int): (r: seq<int>)
    requires b <= l <= |s|
    ensures |r| <= |s|
  {
    var lo := LowerBound(s, b, l, v);
    var hi := UpperBound(s, b, l, v);
    assert lo <= hi;
    if lo != |s| then s[..lo] + s[hi..] else s
  }

  /**
   * On a sorted sequence equal_range splits [b, l) into the elements below
   * v, those equal to v, and those above v.
   */
  lemma EqualRangeSplit(s: seq<int>, b: nat, l: nat, v: int)
    requires Sorted(s) && b <= l <= |s|
    ensures LowerBound(s, b, l, v) <= UpperBound(s, b, l, v)
    ensures WithoutValue(s[b..l], v) == s[b..LowerBound(s, b, l, v)] + s[UpperBound(s, b, l, v)..l]
  {
    var lo := LowerBound(s, b, l, v);
    var hi := UpperBound(s, b, l, v);
    assert lo <= hi;
    assert s[b..l] == s[b..lo] + s[lo..hi] + s[hi..l];
    RunIsEqual(s, lo, hi, v);
    RunIsAbove(s, hi, l, v);
    WithoutThreeRuns(s[b..lo], s[lo..hi], s[hi..l], v);
  }

  /** Filtering v out of a run without v, a run of v and a run without v keeps the outer runs. */
  lemma WithoutThreeRuns(x: seq<int>, y: seq<int>, z: seq<int>, v: int)
    requires forall k :: 0 <= k < |x| ==> x[k] != v
    requires forall k :: 0 <= k < |y| ==> y[k] == v
    requires forall k :: 0 <= k < |z| ==> z[k] != v
    ensures WithoutValue(x + y + z, v) == x + z
  {
    calc {
      WithoutValue(x + y + z, v);
      { WithoutValueAppend(x + y, z, v); }
      WithoutValue(x + y, v) + WithoutValue(z, v);
      { WithoutValueAppend(x, y, v); }
      WithoutValue(x, v) + WithoutValue(y, v) + WithoutValue(z, v);
      { WithoutValueNone(x, v); WithoutValueAll(y, v); WithoutValueNone(z, v); }
      x + [] + z;
      { assert x + [] == x; }
      x + z;
    }
  }

  /** In a sorted sequence, a run that starts at or above v and stays at or below v equals v. */
  lemma RunIsEqual(s: seq<int>, lo: nat, hi: nat, v: int)
    requires Sorted(s) && lo <= hi <= |s|
    requires lo < hi ==> v <= s[lo]
    requires forall k :: lo <= k < hi ==> s[k] <= v
    ensures forall k :: 0 <= k < hi - lo ==> s[lo..hi][k] == v
  {
    forall k | 0 <= k < hi - lo
      ensures s[lo..hi][k] == v
    {
      assert s[lo..hi][k] == s[lo + k];
      if k > 0 {
        assert s[lo] <= s[lo + k];
      }
    }
  }

  /** In a sorted sequence, a run that starts above v stays above v. */
  lemma RunIsAbove(s: seq<int>, hi: nat, l: nat, v: int)
    requires Sorted(s) && hi <= l <= |s|
    requires hi < l ==> v < s[hi]
    ensures forall k :: 0 <= k < l - hi ==> s[hi..l][k] != v
  {
    forall k | 0 <= k < l - hi
      ensures s[hi..l][k] != v
    {
      assert s[hi..l][k] == s[hi + k];
      if k > 0 {
        assert s[hi] <= s[hi + k];
      }
    }
  }

  /**
   * On a sorted list the equal_range erase removes exactly the elements of
   * the window equal to v: the sorted and the unsorted RemoveIf agree.
   */
  lemma EraseEqualRangeIsFilter(s: seq<int>, b: nat, l: nat, v: int)
    requires Sorted(s) && b <= l <= |s|
    ensures EraseEqualRange(s, b, l, v) == s[..b] + WithoutValue(s[b..l], v) + s[l..]
  {
    EqualRangeSplit(s, b, l, v);
    var lo := LowerBound(s, b, l, v);
    var hi := UpperBound(s, b, l, v);
    Splice(s, b, lo, hi, l);
  }

  /** Cutting [lo, hi) out of s, seen through the window [b, l) that contains it. */
  lemma Splice(s: seq<int>, b: nat, lo: nat, hi: nat, l: nat)
    requires b <= lo <= hi <= l <= |s|
    ensures s[..lo] + s[hi..] == s[..b] + (s[b..lo] + s[hi..l]) + s[l..]
    ensures lo == |s| ==> s == s[..b] + (s[b..lo] + s[hi..l]) + s[l..]
  {
    assert s[..lo] == s[..b] + s[b..lo];
    assert s[hi..] == s[hi..l] + s[l..];
  }

  /** The equal_range erase keeps a sorted list sorted. */
  lemma EraseEqualRangeKeepsSorted(s: seq<int>, b: nat, l: nat, v: int)
    requires Sorted(s) && b <= l <= |s|
    ensures Sorted(EraseEqualRange(s, b, l, v))
  {
    var lo := LowerBound(s, b, l, v);
    var hi := UpperBound(s, b, l, v);
    if lo != |s| {
      assert lo <= hi;
      var r := s[..lo] + s[hi..];
      forall i, j | 0 <= i < j < |r|
        ensures r[i] <= r[j]
      {
        var i' := if i < lo then i else i - lo + hi;
        var j' := if j < lo then j else j - lo + hi;
        assert r[i] == s[i'] && r[j] == s[j'] && i' < j';
      }
    }
  }

  /**
   * RemoveIf on a sorted list: when the condition's type is the list's
   * element type and the window is non-empty, the run of elements equal to
   * the value inside the window is erased.
   */
  method SortedRemoveIf(list: LinkedList<int>, listType: ElemType, cond: IsEqual<int>, condType: ElemType,
                        start: int, end: int, hasStop: bool) returns (size: nat)
    modifies list
    ensures var w := PositionsToIterators(start, end, hasStop, |old(list.elems)|);
      list.elems == if listType == condType && w.valid then EraseEqualRange(old(list.elems), w.begin, w.last, cond.val)
                    else old(list.elems)
    ensures size == |list.elems|
  {
    if listType == condType {
      var w := PositionsToIterators(start, end, hasStop, |list.elems|);
      if w.valid {
        var lo := LowerBound(list.elems, w.begin, w.last, cond.val);
        var hi := UpperBound(list.elems, w.begin, w.last, cond.val);
        if lo != |list.elems| {
          list.elems := list.elems[..lo] + list.elems[hi..];
        }
      }
    }
    size := |list.elems|;
  }

  // ---------------------------------------------------------------------
  // Intersecting
  // ---------------------------------------------------------------------

  /**
   * std::set_intersection of two ranges: walk both, skip the smaller head,
   * and on equal heads keep the element of the first range.
   */
  function SetIntersection(a: seq<int>, b: seq<int>): (r: seq<int>)
    ensures |r| <= |a| && |r| <= |b|
    decreases |a| + |b|
  {
    if |a| == 0 || |b| == 0 then []
    else if a[0] < b[0] then SetIntersection(a[1..], b)
    else if b[0] < a[0] then SetIntersection(a, b[1..])
    else [a[0]] + SetIntersection(a[1..], b[1..])
  }

  /** Every element of the intersection is in both ranges. */
  lemma {:induction false} IntersectionElements(a: seq<int>, b: seq<int>)
    ensures forall x :: x in SetIntersection(a, b) ==> x in a && x in b
    decreases |a| + |b|
  {
    if |a| > 0 && |b| > 0 {
      if a[0] < b[0] {
        IntersectionElements(a[1..], b);
      } else if b[0] < a[0] {
        IntersectionElements(a, b[1..]);
      } else {
        IntersectionElements(a[1..], b[1..]);
      }
    }
  }

  /** The intersection of sorted ranges is sorted. */
  lemma {:induction false} IntersectionSorted(a: seq<int>, b: seq<int>)
    requires Sorted(a) && Sorted(b)
    ensures Sorted(SetIntersection(a, b))
    decreases |a| + |b|
  {
    if |a| > 0 && |b| > 0 {
      if a[0] < b[0] {
        IntersectionSorted(a[1..], b);
      } else if b[0] < a[0] {
        IntersectionSorted(a, b[1..]);
      } else {
        var rest := SetIntersection(a[1..], b[1..]);
        IntersectionSorted(a[1..], b[1..]);
        IntersectionElements(a[1..], b[1..]);
        forall k | 0 <= k < |rest|
          ensures a[0] <= rest[k]
        {
          assert rest[k] in rest;
          assert rest[k] in a[1..];
          var j :| 0 <= j < |a| - 1 && a[1..][j] == rest[k];
          assert a[j + 1] == rest[k];
          SortedHeadIsLeast(a, rest[k]);
        }
        ConcatSorted([a[0]], rest);
      }
    }
  }

  /**
   * On sorted ranges the intersection holds each value as many times as
   * the range holding it fewer times: the multiset intersection.
   */
  lemma {:induction false} IntersectionMultiset(a: seq<int>, b: seq<int>)
    requires Sorted(a) && Sorted(b)
    ensures multiset(SetIntersection(a, b)) == multiset(a) * multiset(b)
    decreases |a| + |b|
  {
    if |a| == 0 || |b| == 0 {
      assert multiset(a) * multiset(b) == multiset{};
    } else if a[0] < b[0] {
      SortedTail(a);
      IntersectionMultiset(a[1..], b);
      BelowHeadIsAbsent(b, a[0]);
      DropAbsentHead(a, multiset(b));
    } else if b[0] < a[0] {
      SortedTail(b);
      IntersectionMultiset(a, b[1..]);
      BelowHeadIsAbsent(a, b[0]);
      DropAbsentHead(b, multiset(a));
    } else {
      SortedTail(a);
      SortedTail(b);
      IntersectionMultiset(a[1..], b[1..]);
      KeepSharedHead(a, b);
    }
  }

  /** A head the other side lacks adds nothing to a multiset intersection, on either side of it. */
  lemma DropAbsentHead(a: seq<int>, q: multiset<int>)
    requires |a| > 0 && q[a[0]] == 0
    ensures multiset(a) * q == multiset(a[1..]) * q
    ensures q * multiset(a) == q * multiset(a[1..])
  {
    var p := multiset(a[1..]);
    assert multiset(a) == multiset{a[0]} + p by { assert a == [a[0]] + a[1..]; }
    forall y
      ensures (multiset(a) * q)[y] == (p * q)[y] && (q * multiset(a))[y] == (q * p)[y]
    {
    }
  }

  /** A head both sides share is kept once in their multiset intersection. */
  lemma KeepSharedHead(a: seq<int>, b: seq<int>)
    requires |a| > 0 && |b| > 0 && a[0] == b[0]
    ensures multiset(a) * multiset(b) == multiset{a[0]} + multiset(a[1..]) * multiset(b[1..])
  {
    var p, q := multiset(a[1..]), multiset(b[1..]);
    assert multiset(a) == multiset{a[0]} + p by { assert a == [a[0]] + a[1..]; }
    assert multiset(b) == multiset{a[0]} + q by { assert b == [b[0]] + b[1..]; }
    forall y
      ensures (multiset(a) * multiset(b))[y] == (multiset{a[0]} + p * q)[y]
    {
    }
  }

  /**
   * doIntersectToList: append the intersection of l1[b1..e1) and l2[b2..e2)
   * to a third list.
   */
  method DoIntersectToList(newList: LinkedList<int>, l1: LinkedList<int>, b1: nat, e1: nat,
                           l2: LinkedList<int>, b2: nat, e2: nat)
    requires newList != l1 && newList != l2
    requires b1 <= e1 <= |l1.elems| && b2 <= e2 <= |l2.elems|
    modifies newList
    ensures newList.elems == old(newList.elems) + SetIntersection(l1.elems[b1..e1], l2.elems[b2..e2])
  {
    ghost var start, s1, s2 := newList.elems, l1.elems, l2.elems;
    var i: nat, j: nat := b1, b2;
    while i < e1 && j < e2
      invariant l1.elems == s1 && l2.elems == s2
      invariant IntersectedUpTo(newList.elems, start, s1, b1, i, e1, s2, b2, j, e2)
      decreases (e1 - i) + (e2 - j)
    {
      IntersectAdvance(newList.elems, start, s1, b1, i, e1, s2, b2, j, e2);
      if l1.elems[i] < l2.elems[j] {
        i := i + 1;
      } else if l2.elems[j] < l1.elems[i] {
        j := j + 1;
      } else {
        newList.elems := newList.elems + [l1.elems[i]];
        i, j := i + 1, j + 1;
      }
    }
  }

  /** Each of the three moves of the intersection loop keeps its invariant. */
  lemma IntersectAdvance(acc: seq<int>, start: seq<int>, s1: seq<int>, b1: nat, i: nat, e1: nat,
                         s2: seq<int>, b2: nat, j: nat, e2: nat)
    requires i < e1 && j < e2 && IntersectedUpTo(acc, start, s1, b1, i, e1, s2, b2, j, e2)
    ensures s1[i] < s2[j] ==> IntersectedUpTo(acc, start, s1, b1, i + 1, e1, s2, b2, j, e2)
    ensures s2[j] < s1[i] ==> IntersectedUpTo(acc, start, s1, b1, i, e1, s2, b2, j + 1, e2)
    ensures s1[i] == s2[j] ==> IntersectedUpTo(acc + [s1[i]], start, s1, b1, i + 1, e1, s2, b2, j + 1, e2)
  {
    IntersectWindowStep(s1, i, e1, s2, j, e2);
    if s1[i] == s2[j] {
      var rest := SetIntersection(s1[i + 1..e1], s2[j + 1..e2]);
      assert (acc + [s1[i]]) + rest == acc + ([s1[i]] + rest);
    }
  }

  /**
   * The intersection loop after reaching i and j: what has been appended,
   * followed by the intersection of what is left, is the whole intersection.
   */
  ghost predicate IntersectedUpTo(acc: seq<int>, start: seq<int>, s1: seq<int>, b1: nat, i: nat, e1: nat,
                                  s2: seq<int>, b2: nat, j: nat, e2: nat)
  {
    b1 <= i <= e1 <= |s1| && b2 <= j <= e2 <= |s2|
    && acc + SetIntersection(s1[i..e1], s2[j..e2]) == start + SetIntersection(s1[b1..e1], s2[b2..e2])
  }

  /** One step of the merge-style intersection of the windows [i, e1) and [j, e2). */
  lemma IntersectWindowStep(s1: seq<int>, i: nat, e1: nat, s2: seq<int>, j: nat, e2: nat)
    requires i < e1 <= |s1| && j < e2 <= |s2|
    ensures SetIntersection(s1[i..e1], s2[j..e2])
      == if s1[i] < s2[j] then SetIntersection(s1[i + 1..e1], s2[j..e2])
         else if s2[j] < s1[i] then SetIntersection(s1[i..e1], s2[j + 1..e2])
         else [s1[i]] + SetIntersection(s1[i + 1..e1], s2[j + 1..e2])
  {
    assert s1[i..e1][0] == s1[i] && s1[i..e1][1..] == s1[i + 1..e1];
    assert s2[j..e2][0] == s2[j] && s2[j..e2][1..] == s2[j + 1..e2];
  }

  /**
   * intersect into a new list: when both windows are non-empty, the
   * intersection of the two windows is appended to `newList`.
   */
  method IntersectToList(newList: LinkedList<int>, l1: LinkedList<int>, l2: LinkedList<int>, r1: Range, r2: Range)
    requires newList != l1 && newList != l2
    modifies newList
    ensures var w1 := PositionsToIterators(r1.start, r1.stop, r1.hasStop, |l1.elems|);
      var w2 := PositionsToIterators(r2.start, r2.stop, r2.hasStop, |l2.elems|);
      newList.elems == old(newList.elems)
                       + if w1.valid && w2.valid
                         then SetIntersection(l1.elems[w1.begin..w1.last], l2.elems[w2.begin..w2.last])
                         else []
  {
    var w1 := PositionsToIterators(r1.start, r1.stop, r1.hasStop, |l1.elems|);
    var w2 := PositionsToIterators(r2.start, r2.stop, r2.hasStop, |l2.elems|);
    if w1.valid && w2.valid {
      DoIntersectToList(newList, l1, w1.begin, w1.last, l2, w2.begin, w2.last);
    }
  }

  /**
   * intersect into the response buffer: a vector (possibly empty) is
   * emitted exactly when both windows are non-empty.
   */
  method IntersectToBuffer(l1: LinkedList<int>, l2: LinkedList<int>, r1: Range, r2: Range)
    returns (emitted: bool, items: seq<int>)
    ensures var w1 := PositionsToIterators(r1.start, r1.stop, r1.hasStop, |l1.elems|);
      var w2 := PositionsToIterators(r2.start, r2.stop, r2.hasStop, |l2.elems|);
      emitted == (w1.valid && w2.valid)
      && items == if emitted then SetIntersection(l1.elems[w1.begin..w1.last], l2.elems[w2.begin..w2.last]) else []
  {
    var w1 := PositionsToIterators(r1.start, r1.stop, r1.hasStop, |l1.elems|);
    var w2 := PositionsToIterators(r2.start, r2.stop, r2.hasStop, |l2.elems|);
    emitted := w1.valid && w2.valid;
    items := [];
    if emitted {
      var result := new LinkedList<int>([]);
      DoIntersectToList(result, l1, w1.begin, w1.last, l2, w2.begin, w2.last);
      items := result.elems;
    }
  }

  /** A window of a sorted list is sorted, so the intersection lemmas apply to list windows. */
  lemma WindowOfSortedIsSorted(s: seq<int>, b: nat, l: nat)
    requires Sorted(s) && b <= l <= |s|
    ensures Sorted(s[b..l])
  {
  }
}
