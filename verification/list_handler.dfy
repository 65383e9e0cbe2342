/**
 * The list registry of the server (ListHandler.cpp): named FcLists created
 * by ListCreate and looked up by ListAdd, each request answered with a
 * status and an empty body.
 */
module ListHandler {
  import opened Wire
  import opened Containers
  import opened List

  /** The reply createEmptyBodyResponse finishes. */
  function EmptyBody(status: Status, bodyType: ResponseBody): Response
  {
    Response(status, bodyType, NoBody)
  }

  class ListHandler {
    var lists: map<string, FcList>

    /** Every registered list carries the type tag of the list it holds. */
    ghost predicate Valid()
      reads this
    {
      forall n :: n in lists ==> lists[n].Valid()
    }

    constructor ()
      ensures lists == map[] && Valid()
    {
      lists := map[];
    }

    /**
     * ListCreate: an Int or UInt list is registered under a new name and the
     * reply is Ok; an existing name keeps its list and the reply is
     * Duplicate (try_emplace); any other type creates nothing and is Fail.
     */
    method HandleCreate(name: string, listType: ListType) returns (rsp: Response)
      modifies this
      ensures rsp.bodyType == RspListCreate && rsp.body == NoBody
      ensures (listType == IntType || listType == UIntType) && name !in old(lists) ==>
        rsp.status == Ok
        && lists.Keys == old(lists).Keys + {name}
        && (forall n :: n in old(lists) ==> lists[n] == old(lists)[n])
        && fresh(lists[name])
        && lists[name].flexType == (if listType == IntType then FBT_VECTOR_INT else FBT_VECTOR_UINT)
        && (listType == IntType ==> lists[name].list.IntList? && lists[name].list.ints.elems == [])
        && (listType == UIntType ==> lists[name].list.UIntList? && lists[name].list.uints.elems == [])
      ensures (listType == IntType || listType == UIntType) && name in old(lists) ==>
        rsp.status == Duplicate && lists == old(lists)
      ensures listType != IntType && listType != UIntType ==> rsp.status == Fail && lists == old(lists)
      ensures old(Valid()) ==> Valid()
    {
      var status := Ok;
      if listType == IntType {
        var created := new LinkedList<int>([]);
        var l := new FcList.OfInts(created);
        if name !in lists {
          lists := lists[name := l];
        } else {
          status := Duplicate;
        }
      } else if listType == UIntType {
        var created := new LinkedList<int>([]);
        var l := new FcList.OfUInts(created);
        if name !in lists {
          lists := lists[name := l];
        } else {
          status := Duplicate;
        }
      } else {
        status := Fail;
      }
      rsp := EmptyBody(status, RspListCreate);
    }

    /**
     * ListAdd: an unknown name is Fail; otherwise the reply is Ok. The items
     * are added to a copy of the stored list (the lambda captures the list
     * by value), so no registered list changes either way.
     */
    method HandleAdd(name: string, items: seq<int>) returns (rsp: Response)
      ensures name !in lists ==> rsp == EmptyBody(Fail, RspListAdd)
      ensures name in lists ==> rsp == EmptyBody(Ok, RspListAdd)
    {
      if name !in lists {
        rsp := EmptyBody(Fail, RspListAdd);
      } else {
        rsp := EmptyBody(Ok, RspListAdd);
      }
    }
  }
}
