/**
 * The list types of the server (List.hpp): the variant of typed lists an
 * FcList holds, and the older visitor operations defined beside it
 * (positional add, range read, range removal and conditional removal).
 * Their window arithmetic is the one positionsToIterators computes, so it
 * is taken from ListOperations rather than written a second time.
 */
module List {
  import opened Wire
  import opened Containers
  import opened ListOperations

  /**
   * The std::variant of typed lists. The int64 and uint64 lists both hold
   * unbounded integers here; float lists are not part of this model.
   */
  datatype ListVariant =
    | IntList(ints: LinkedList<int>)
    | UIntList(uints: LinkedList<int>)
    | StringList(strings: LinkedList<string>)

  /** The list object an alternative holds. */
  function Cell(l: ListVariant): object
  {
    match l
    case IntList(c) => c
    case UIntList(c) => c
    case StringList(c) => c
  }

  /** The FlexBuffers vector type of each alternative. */
  function TypeOf(l: ListVariant): FlexType
  {
    match l
    case IntList(_) => FBT_VECTOR_INT
    case UIntList(_) => FBT_VECTOR_UINT
    case StringList(_) => FBT_VECTOR_KEY
  }

  /** listToTypedVector(begin, end): the elements from `begin` up to `end`. */
  method ListToTypedVector<T>(walk: seq<T>, begin: nat, end: nat) returns (out: seq<T>)
    requires begin <= end <= |walk|
    ensures out == walk[begin..end]
  {
    out := [];
    var it := begin;
    while it != end
      invariant begin <= it <= end
      invariant out == walk[begin..it]
      decreases end - it
    {
      out := out + [walk[it]];
      it := it + 1;
    }
  }

  /**
   * Where Add inserts: after min(pos, size) elements counted from the head
   * (Base Head), before min(pos, size) elements counted from the tail
   * (Base Tail), and at the head for an unset base.
   */
  function AddPosition(base: Base, pos: nat, size: nat): (p: nat)
    ensures p <= size
    ensures base == Head ==> p == Min(pos, size)
    ensures base == Tail ==> size - p == Min(pos, size)
    ensures base == NoBase ==> p == 0
  {
    var shift := Min(pos, size);
    if base == Head then shift else if base == Tail then size - shift else 0
  }

  /**
   * Counting from the tail is counting the rest from the head: a Tail add
   * at pos goes where a Head add at size - pos goes.
   */
  lemma TailAddMirrorsHeadAdd(pos: nat, size: nat)
    requires pos <= size
    ensures AddPosition(Tail, pos, size) == AddPosition(Head, size - pos, size)
  {
  }

  /**
   * Add: the items are inserted in order at AddPosition. A negative
   * position moves the iterator before the head, which is undefined
   * behaviour, and is excluded.
   */
  method Add<T>(list: LinkedList<T>, items: seq<T>, base: Base, pos: int)
    requires pos >= 0
    modifies list
    ensures var p := AddPosition(base, pos, |old(list.elems)|);
      list.elems == old(list.elems)[..p] + items + old(list.elems)[p..]
  {
    var it := AddPosition(base, pos, |list.elems|);
    InsertItemsAt(list, items, it);
  }

  /**
   * GetByRange: a vector is built only for a non-empty window, read from
   * the head (Base Head) or from the tail (any other base).
   */
  method GetByRange<T>(list: LinkedList<T>, start: int, end: int, hasStop: bool, base: Base)
    returns (createdBuffer: bool, out: seq<T>)
    ensures var w := PositionsToIterators(start, end, hasStop, |list.elems|);
      createdBuffer == w.valid
      && out == if !w.valid then []
                else if base == Head then list.elems[w.begin..w.last]
                else Reverse(list.elems)[w.begin..w.last]
  {
    var w := PositionsToIterators(start, end, hasStop, |list.elems|);
    createdBuffer := false;
    out := [];
    if w.valid {
      createdBuffer := true;
      var count := w.last - w.begin;
      if base == Head {
        out := ListOperations.ListToTypedVector(list.elems, w.begin, count);
      } else {
        out := ListOperations.ListToTypedVector(Reverse(list.elems), w.begin, count);
      }
    }
  }

  /**
   * The two GetByRange versions send the same elements; they differ only in
   * that the newer one also answers valid, with an empty vector, for an
   * empty window whose start names an element.
   */
  lemma GetByRangeVersionsAgree(start: int, end: int, hasStop: bool, size: nat)
    ensures var w := PositionsToIterators(start, end, hasStop, size);
      var ix := PositionsToIndices(start, end, hasStop, size);
      (w.valid ==> ix.valid && ix.begin == w.begin && ix.last == w.last)
      && (ix.valid && !w.valid ==> ix.last <= ix.begin)
  {
  }

  /**
   * Remove: a non-empty window is erased (the list is cleared when the
   * window is the whole list); otherwise nothing changes.
   */
  method Remove<T>(list: LinkedList<T>, start: int, end: int, hasStop: bool)
    modifies list
    ensures var w := PositionsToIterators(start, end, hasStop, |old(list.elems)|);
      list.elems == if w.valid then old(list.elems)[..w.begin] + old(list.elems)[w.last..] else old(list.elems)
  {
    var size := |list.elems|;
    var w := PositionsToIterators(start, end, hasStop, size);
    if w.valid {
      if w.begin == 0 && w.last == size {
        list.elems := [];
      } else {
        list.elems := list.elems[..w.begin] + list.elems[w.last..];
      }
    }
  }

  /** The condition of a RemoveIf, one alternative per value type. */
  datatype Condition =
    | EqInt64(i: IsEqual<int>)
    | EqUInt64(u: IsEqual<int>)
    | EqFloat(f: IsEqual<FloatBits>)
    | EqString(s: IsEqual<string>)

  /** doRemove: std::remove_if over the window, then erase of the left-over tail. */
  method DoRemove<T(==)>(list: LinkedList<T>, cond: IsEqual<T>, start: int, end: int, hasStop: bool)
    modifies list
    ensures list.elems == WithoutValueInWindow(old(list.elems), start, end, hasStop, cond.val)
  {
    var w := PositionsToIterators(start, end, hasStop, |list.elems|);
    if w.valid {
      RemoveIfEqual(list, w.begin, w.last, cond.val);
    }
  }

  /**
   * RemoveIf visiting a list: only a condition of the list's own element
   * type acts; any other leaves the list as it was.
   */
  method RemoveIf(l: ListVariant, cond: Condition, start: int, end: int, hasStop: bool)
    modifies Cell(l)
    ensures l.IntList? ==>
      l.ints.elems == if cond.EqInt64? then WithoutValueInWindow(old(l.ints.elems), start, end, hasStop, cond.i.val)
                      else old(l.ints.elems)
    ensures l.UIntList? ==>
      l.uints.elems == if cond.EqUInt64? then WithoutValueInWindow(old(l.uints.elems), start, end, hasStop, cond.u.val)
                       else old(l.uints.elems)
    ensures l.StringList? ==>
      l.strings.elems == if cond.EqString? then WithoutValueInWindow(old(l.strings.elems), start, end, hasStop, cond.s.val)
                         else old(l.strings.elems)
  {
    match l
    case IntList(c) =>
      if cond.EqInt64? {
        DoRemove(c, cond.i, start, end, hasStop);
      }
    case UIntList(c) =>
      if cond.EqUInt64? {
        DoRemove(c, cond.u, start, end, hasStop);
      }
    case StringList(c) =>
      if cond.EqString? {
        DoRemove(c, cond.s, start, end, hasStop);
      }
  }

  /** FcList: a typed list together with the FlexBuffers vector type that describes it. */
  class FcList {
    const flexType: FlexType
    const list: ListVariant

    /** The type tag names the alternative the list holds. */
    ghost predicate Valid()
    {
      flexType == TypeOf(list)
    }

    constructor OfInts(l: LinkedList<int>)
      ensures list == IntList(l) && flexType == FBT_VECTOR_INT
      ensures Valid()
    {
      flexType := FBT_VECTOR_INT;
      list := IntList(l);
    }

    constructor OfUInts(l: LinkedList<int>)
      ensures list == UIntList(l) && flexType == FBT_VECTOR_UINT
      ensures Valid()
    {
      flexType := FBT_VECTOR_UINT;
      list := UIntList(l);
    }

    constructor OfStrings(l: LinkedList<string>)
      ensures list == StringList(l) && flexType == FBT_VECTOR_KEY
      ensures Valid()
    {
      flexType := FBT_VECTOR_KEY;
      list := StringList(l);
    }

    /** type(): the tag, which for a valid FcList describes the list it holds. */
    function Type(): (t: FlexType)
      ensures Valid() ==> t == TypeOf(list)
    {
      flexType
    }
  }
}
