/**
 * The Python client's list API (list.py): the argument checks each call
 * makes, the local short-circuit for ranges it can tell are empty, and the
 * request it sends. Building the FlatBuffers bytes and the transport are
 * left out: a sent request is the plain Request value.
 */
module ClientList {
  import opened Wire
  import opened Containers
  import opened ListOperations
  import opened ClientCommon

  // ---------------------------------------------------------------------
  // List creation
  // ---------------------------------------------------------------------

  /** str.lower() on one character, for the ASCII letters. */
  function LowerChar(c: char): char
  {
    if 'A' <= c <= 'Z' then (c as int + 32) as char else c
  }

  /**
   * str.lower() as far as the type names need it: ASCII letters only. No
   * other character lowers to a single letter of "int", "float" or "str".
   */
  function Lower(s: string): (r: string)
    ensures |r| == |s|
    ensures forall i :: 0 <= i < |s| ==> r[i] == LowerChar(s[i])
  {
    if |s| == 0 then [] else [LowerChar(s[0])] + Lower(s[1..])
  }

  /** Lowering twice is lowering once. */
  lemma {:induction false} LowerIdempotent(s: string)
    ensures Lower(Lower(s)) == Lower(s)
  {
    if |s| > 0 {
      LowerIdempotent(s[1..]);
      assert Lower(s)[1..] == Lower(s[1..]);
    }
  }

  /** The list type _create sends for a type name: 'int', 'float' or 'str' in any case. */
  function ListTypeFor(name: string): (t: Option<ListType>)
    ensures t.Some? <==> Lower(name) in {"int", "float", "str"}
    ensures t == Some(IntType) <==> Lower(name) == "int"
    ensures t != Some(UIntType)
  {
    var l := Lower(name);
    if l == "int" then Some(IntType)
    else if l == "float" then Some(FloatType)
    else if l == "str" then Some(StringType)
    else None
  }

  /** The type name is matched without regard to case. */
  lemma TypeNameIgnoresCase(name: string)
    ensures ListTypeFor(Lower(name)) == ListTypeFor(name)
  {
    LowerIdempotent(name);
  }

  /**
   * _create (UnsortedList.create with isSorted false, SortedList.create with
   * true): an unknown type name raises; otherwise ListCreate is sent, and a
   * Duplicate reply is allowed exactly when fail_on_duplicate is off.
   */
  function Create(name: string, typeName: string, isSorted: bool, failOnDuplicate: bool): (a: Action<()>)
    ensures a.Raise? <==> ListTypeFor(typeName).None?
    ensures a.Raise? ==> a.err == ValueError("listType invalid")
    ensures a.Send? ==>
      a.request == Request(Some(ListIdent), ListCreate(name, ListTypeFor(typeName).value, isSorted))
      && a.check == Expect(RspListCreate, !failOnDuplicate)
    ensures a.Send? ==> a.request.body.listType != UIntType
  {
    match ListTypeFor(typeName)
    case None => Raise(ValueError("listType invalid"))
    case Some(t) => Send(Request(Some(ListIdent), ListCreate(name, t, isSorted)), Expect(RspListCreate, !failOnDuplicate))
  }

  // ---------------------------------------------------------------------
  // Ranges
  // ---------------------------------------------------------------------

  /**
   * _is_range_valid: the checks that need no list size. No stop is valid;
   * start == stop is not; with both strictly negative or both strictly
   * positive, start after stop is not; anything else is.
   */
  function IsRangeValid(start: int, stop: Option<int>): (v: bool)
    ensures stop.None? ==> v
    ensures stop.Some? ==>
      (v <==> start != stop.value && !(((start < 0 && stop.value < 0) || (start > 0 && stop.value > 0)) && start > stop.value))
  {
    if stop.None? then true
    else if start == stop.value then false
    else if (start < 0 && stop.value < 0) || (start > 0 && stop.value > 0) then
      if start > stop.value then false else true
    else true
  }

  /**
   * The short-circuit only drops ranges the server resolves to no element,
   * for any list size, as long as the stop does not lie before the head.
   */
  lemma InvalidRangeIsEmptyOnServer(start: int, stop: int, size: nat)
    requires !IsRangeValid(start, Some(stop))
    requires stop >= 0 || size + stop >= 0
    ensures !PositionsToIterators(start, stop, true, size).valid
  {
    var ix := PositionsToIndices(start, stop, true, size);
    if ix.valid {
      if start >= 0 {
        assert ix.last <= stop;
      } else {
        assert ix.last == size + stop;
      }
    }
  }

  /**
   * A stop before the head is where the two disagree: the client drops
   * (-2, -5) as inverted, while the server reads the whole of a
   * two-element list for it.
   */
  lemma ReflectedStopDefeatsShortCircuit()
    ensures !IsRangeValid(-2, Some(-5))
    ensures PositionsToIterators(-2, -5, true, 2) == Indices(true, 0, 2)
  {
  }

  /** The Range table a call builds: stop 0 and hasStop false for no stop. */
  function EncodeRange(start: int, stop: Option<int>): (r: Range)
    ensures r.start == start && r.hasStop == stop.Some?
    ensures !r.hasStop ==> r.stop == 0
    ensures RangeStop(r) == stop
  {
    Range(start, if stop.Some? then stop.value else 0, stop.Some?)
  }

  /** The stop a Range carries, as the server reads it. */
  function RangeStop(r: Range): Option<int>
  {
    if r.hasStop then Some(r.stop) else None
  }

  /** Every Range the client can build is the encoding of its own start and stop. */
  lemma EncodeRangeOfDecoded(r: Range)
    requires !r.hasStop ==> r.stop == 0
    ensures EncodeRange(r.start, RangeStop(r)) == r
  {
  }

  /** get_n's stop: none for a count of None or 0, else start + count. */
  function StopFor(start: int, count: Option<int>): (stop: Option<int>)
    ensures stop.None? <==> count.None? || count == Some(0)
    ensures stop.Some? ==> stop.value - start == count.value
  {
    if count.None? || count == Some(0) then None else Some(start + count.value)
  }

  /**
   * On the server, get_n from an element `start` reads `count` elements, or
   * as many as there are up to the tail; with no count, all of them.
   */
  lemma GetNWindow(start: nat, count: nat, size: nat)
    requires start < size
    ensures var stop := StopFor(start, Some(count));
      var ix := PositionsToIndices(start, if stop.Some? then stop.value else 0, stop.Some?, size);
      ix.valid && ix.begin == start && ix.last - ix.begin == if count == 0 then size - start else Min(count, size - start)
  {
  }

  // ---------------------------------------------------------------------
  // Reading
  // ---------------------------------------------------------------------

  /** _do_get_range: an empty name raises; otherwise ListGetRange is sent. */
  function DoGetRange(name: string, base: Base, start: int, stop: Option<int>): (a: Action<seq<PyValue>>)
    ensures a.Raise? <==> |name| == 0
    ensures a.Raise? ==> a.err == ValueError("name is empty")
    ensures a.Send? ==>
      a.request == Request(Some(ListIdent), ListGetRange(name, EncodeRange(start, stop), base))
      && a.check == Expect(RspListGetRange, false)
    ensures !a.Return?
  {
    match RaiseIf(|name| == 0, "name is empty")
    case Some(e) => Raise(e)
    case None => Send(Request(Some(ListIdent), ListGetRange(name, EncodeRange(start, stop), base)), Expect(RspListGetRange, false))
  }

  /** get_n: `count` items from `start`, read from the head; no local range check. */
  function GetN(name: string, start: int, count: Option<int>): (a: Action<seq<PyValue>>)
    ensures !a.Return?
    ensures a.Send? ==> a.request.body.ListGetRange? && a.request.body.base == Head && RangeStop(a.request.body.range) == StopFor(start, count)
  {
    DoGetRange(name, Head, start, StopFor(start, count))
  }

  /** get_n_reverse: `count` items from `start`, read from the tail. */
  function GetNReverse(name: string, start: int, count: Option<int>): (a: Action<seq<PyValue>>)
    ensures !a.Return?
    ensures a.Send? ==> a.request.body.ListGetRange? && a.request.body.base == Tail && RangeStop(a.request.body.range) == StopFor(start, count)
  {
    DoGetRange(name, Tail, start, StopFor(start, count))
  }

  /** get_head / get_tail: the one-element window at the head or at the tail. */
  function GetEnd(name: string, fromTail: bool): (a: Action<seq<PyValue>>)
    ensures a.Send? ==> a.request.body.ListGetRange? && a.request.body.range == Range(0, 1, true)
    ensures a.Send? ==> a.request.body.ListGetRange? && a.request.body.base == if fromTail then Tail else Head
  {
    if fromTail then GetNReverse(name, 0, Some(1)) else GetN(name, 0, Some(1))
  }

  /** What get_head / get_tail return from the items they receive: the first, or None. */
  function FirstOrNone(items: seq<PyValue>): (r: Option<PyValue>)
    ensures r.None? <==> |items| == 0
    ensures r.Some? ==> r.value == items[0]
  {
    if |items| > 0 then Some(items[0]) else None
  }

  /**
   * get_range (from the head) and get_range_reverse (from the tail): a range
   * the local check rejects returns [] without sending anything.
   */
  function GetRange(name: string, start: int, stop: Option<int>, fromTail: bool): (a: Action<seq<PyValue>>)
    ensures a == Return([]) <==> !IsRangeValid(start, stop)
    ensures IsRangeValid(start, stop) ==> a == DoGetRange(name, if fromTail then Tail else Head, start, stop)
  {
    if !IsRangeValid(start, stop) then Return([])
    else DoGetRange(name, if fromTail then Tail else Head, start, stop)
  }

  // ---------------------------------------------------------------------
  // Removing
  // ---------------------------------------------------------------------

  /** remove: raise_if_not raises whatever the range, so nothing is ever sent. */
  function Remove(name: string, start: int, stop: Option<int>): (a: Action<()>)
    ensures a == Raise(ValueError("range invalid"))
  {
    match RaiseIfNot(IsRangeValid(start, stop), "range invalid")
    case Some(e) => Raise(e)
    case None => Send(Request(Some(ListIdent), ListRemove(name, EncodeRange(start, stop), Head)), Expect(RspListRemove, false))
  }

  /** The tag of a request value. */
  function TagOf(v: TaggedValue): ValueTag
  {
    match v
    case IntValue(_) => IntValueTag
    case StringValue(_) => StringValueTag
    case FloatValue(_) => FloatValueTag
  }

  /**
   * remove_if_eq's value tagging, in the order of its isinstance checks: an
   * int (a bool is one, as 0 or 1), a str, a float; anything else is None.
   */
  function TagValue(val: PyValue): (r: Option<TaggedValue>)
    ensures r.Some? <==> val.PyBool? || val.PyInt? || val.PyStr? || val.PyFloat?
    ensures val.PyInt? ==> r == Some(IntValue(val.i))
    ensures val.PyBool? ==> r == Some(IntValue(if val.b then 1 else 0))
    ensures val.PyStr? ==> r == Some(StringValue(val.s))
    ensures val.PyFloat? ==> r == Some(FloatValue(val.f))
  {
    match val
    case PyBool(b) => Some(IntValue(if b then 1 else 0))
    case PyInt(i) => Some(IntValue(i))
    case PyStr(s) => Some(StringValue(s))
    case PyFloat(f) => Some(FloatValue(f))
    case _ => None
  }

  /**
   * remove_if_eq: raise_if_not raises first, whatever the range, so the
   * None check, the tagging and the request are never reached.
   */
  function RemoveIfEq(name: string, start: int, stop: Option<int>, val: PyValue): (a: Action<()>)
    ensures a == Raise(ValueError("range invalid"))
  {
    match RaiseIfNot(IsRangeValid(start, stop), "range invalid")
    case Some(e) => Raise(e)
    case None =>
      match RaiseIf(val.PyNone?, "val cannot be none")
      case Some(e) => Raise(e)
      case None =>
        match TagValue(val)
        case None => Raise(ValueError("val not supported type"))
        case Some(v) =>
          Send(Request(Some(ListIdent), ListRemoveIf(name, EncodeRange(start, stop), TagOf(v), v)),
               Expect(RspListRemoveIf, false))
  }

  // ---------------------------------------------------------------------
  // Adding
  // ---------------------------------------------------------------------

  /** _do_add: no items or a negative position raise before anything is built. */
  function DoAdd(name: string, items: seq<PyValue>, pos: int, base: Base, itemsSorted: bool): (a: Action<()>)
    ensures a.Send? <==> |items| > 0 && pos >= 0
    ensures |items| == 0 ==> a == Raise(ValueError("items cannot be empty"))
    ensures |items| > 0 && pos < 0 ==> a == Raise(ValueError("pos negative"))
    ensures a.Send? ==>
      a.request == Request(Some(ListIdent), ListAdd(name, items, pos, base, itemsSorted))
      && a.check == Expect(RspListAdd, false)
  {
    match RaiseIf(|items| == 0, "items cannot be empty")
    case Some(e) => Raise(e)
    case None =>
      match RaiseIf(pos < 0, "pos negative")
      case Some(e) => Raise(e)
      case None => Send(Request(Some(ListIdent), ListAdd(name, items, pos, base, itemsSorted)), Expect(RspListAdd, false))
  }

  /**
   * UnsortedList.add: Tail is chosen for a negative position, but _do_add
   * rejects that position, so only Head adds are ever sent.
   */
  function UnsortedAdd(name: string, items: seq<PyValue>, pos: int): (a: Action<()>)
    ensures pos < 0 ==> a.Raise?
    ensures a.Send? ==> a.request.body.ListAdd? && a.request.body.base == Head && a.request.body.position == pos
  {
    DoAdd(name, items, pos, if pos < 0 then Tail else Head, false)
  }

  /** add_head / add_tail: position 0 from the head or from the tail. */
  function AddAtEnd(name: string, items: seq<PyValue>, atTail: bool): (a: Action<()>)
    ensures a.Send? <==> |items| > 0
    ensures a.Send? ==> a.request.body.ListAdd? && a.request.body.position == 0 && a.request.body.base == if atTail then Tail else Head
  {
    DoAdd(name, items, 0, if atTail then Tail else Head, false)
  }

  /** SortedList.add: position and base are fixed, only itemsSorted is passed on. */
  function SortedAdd(name: string, items: seq<PyValue>, itemsSorted: bool): (a: Action<()>)
    ensures a.Send? <==> |items| > 0
    ensures a.Send? ==> a.request.body == ListAdd(name, items, 0, Head, itemsSorted)
  {
    DoAdd(name, items, 0, Head, itemsSorted)
  }

  // ---------------------------------------------------------------------
  // Intersecting
  // ---------------------------------------------------------------------

  /** The destination intersect names: only a non-empty new_list_name. */
  function Destination(newListName: Option<string>): (d: Option<string>)
    ensures d.Some? <==> newListName.Some? && |newListName.value| > 0
    ensures d.Some? ==> d == newListName
  {
    if newListName.Some? && |newListName.value| > 0 then newListName else None
  }

  /**
   * SortedList.intersect: both list names must be non-empty; the request
   * carries both ranges and the destination, if any.
   */
  function Intersect(list1: string, list2: string, l1Start: int, l1Stop: Option<int>,
                     l2Start: int, l2Stop: Option<int>, newListName: Option<string>): (a: Action<()>)
    ensures a.Send? <==> |list1| > 0 && |list2| > 0
    ensures |list1| == 0 ==> a == Raise(ValueError("name1 empty"))
    ensures |list1| > 0 && |list2| == 0 ==> a == Raise(ValueError("name2 empty"))
    ensures a.Send? ==>
      a.request == Request(Some(ListIdent), ListIntersect(list1, list2, EncodeRange(l1Start, l1Stop),
                                                         EncodeRange(l2Start, l2Stop), Destination(newListName)))
      && a.check == Expect(RspListIntersect, false)
  {
    match RaiseIf(|list1| == 0, "name1 empty")
    case Some(e) => Raise(e)
    case None =>
      match RaiseIf(|list2| == 0, "name2 empty")
      case Some(e) => Raise(e)
      case None =>
        Send(Request(Some(ListIdent), ListIntersect(list1, list2, EncodeRange(l1Start, l1Stop),
                                                    EncodeRange(l2Start, l2Stop), Destination(newListName))),
             Expect(RspListIntersect, false))
  }

  /** What intersect returns from the reply's items: them, unless a destination list was named. */
  function IntersectResult(newListName: Option<string>, items: seq<PyValue>): (r: Option<seq<PyValue>>)
    ensures r.Some? <==> Destination(newListName).None?
    ensures r.Some? ==> r.value == items
  {
    if Destination(newListName).None? then Some(items) else None
  }
}
