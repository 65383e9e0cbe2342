/**
 * The key/value request handlers of the server (KvHandler.cpp): each one
 * works on the handler's CacheMap and answers with a status and a body
 * type. The request's FlexBuffers map arrives here already read into
 * typed entries; an exception while reading it is the `failAt` parameter.
 */
module KvHandler {
  import opened Wire
  import opened CacheMap

  /** The FlexBuffers type a scalar carries, which picks its extractor in setOrAdd. */
  function ScalarTypeOf(s: FlexScalar): ScalarType
  {
    match s
    case FlexInt(_) => FBT_INT
    case FlexUInt(_) => FBT_UINT
    case FlexFloat(_) => FBT_FLOAT
    case FlexBool(_) => FBT_BOOL
    case FlexString(_) => FBT_STRING
  }

  /** What setOrAdd stores for a scalar: its value and the extractor of its type. */
  function Cached(s: FlexScalar): (c: CachedValue)
    ensures Reads(c.extract, c.value)
  {
    CachedValue(AsValue(s), ExtractorFor(ScalarTypeOf(s)))
  }

  /** The map after storing the entries in order, overwriting (set) or not (add). */
  function Stored(m: map<string, CachedValue>, isSet: bool, es: seq<FlexEntry>): map<string, CachedValue>
  {
    if |es| == 0 then m
    else
      var before := Stored(m, isSet, es[..|es| - 1]);
      var e := es[|es| - 1];
      if isSet || e.key !in before then before[e.key := Cached(e.value)] else before
  }

  /** The keys of some request entries. */
  function KeysOf(es: seq<FlexEntry>): set<string>
  {
    set j | 0 <= j < |es| :: es[j].key
  }

  /** Storing adds exactly the entries' keys. */
  lemma {:induction false} StoredKeys(m: map<string, CachedValue>, isSet: bool, es: seq<FlexEntry>)
    ensures Stored(m, isSet, es).Keys == m.Keys + KeysOf(es)
  {
    if |es| > 0 {
      StoredKeys(m, isSet, es[..|es| - 1]);
      assert KeysOf(es) == KeysOf(es[..|es| - 1]) + {es[|es| - 1].key} by {
        forall k | k in KeysOf(es)
          ensures k in KeysOf(es[..|es| - 1]) + {es[|es| - 1].key}
        {
          var j :| 0 <= j < |es| && es[j].key == k;
          if j < |es| - 1 {
            assert es[..|es| - 1][j] == es[j];
          }
        }
      }
    }
  }

  /**
   * A key the entries do not name keeps its value; with add, so does every
   * key that was already stored.
   */
  lemma {:induction false} StoredKeeps(m: map<string, CachedValue>, isSet: bool, es: seq<FlexEntry>, k: string)
    requires k in m && (!isSet || forall j :: 0 <= j < |es| ==> es[j].key != k)
    ensures k in Stored(m, isSet, es) && Stored(m, isSet, es)[k] == m[k]
  {
    if |es| > 0 {
      StoredKeeps(m, isSet, es[..|es| - 1], k);
    }
  }

  /** With set, a key ends up with the value of the last entry that names it. */
  lemma {:induction false} SetLastWins(m: map<string, CachedValue>, es: seq<FlexEntry>, j: nat)
    requires j < |es| && forall i :: j < i < |es| ==> es[i].key != es[j].key
    ensures es[j].key in Stored(m, true, es) && Stored(m, true, es)[es[j].key] == Cached(es[j].value)
  {
    if j < |es| - 1 {
      SetLastWins(m, es[..|es| - 1], j);
    }
  }

  /** With add, a key that was not stored gets the value of the first entry that names it. */
  lemma {:induction false} AddFirstWins(m: map<string, CachedValue>, es: seq<FlexEntry>, j: nat)
    requires j < |es| && es[j].key !in m && forall i :: 0 <= i < j ==> es[i].key != es[j].key
    ensures es[j].key in Stored(m, false, es) && Stored(m, false, es)[es[j].key] == Cached(es[j].value)
  {
    var k := es[j].key;
    if j < |es| - 1 {
      AddFirstWins(m, es[..|es| - 1], j);
    } else {
      AbsentUntilNamed(m, es[..j], k);
    }
  }

  /** With add, a key not stored and not named by the entries is still absent. */
  lemma {:induction false} AbsentUntilNamed(m: map<string, CachedValue>, es: seq<FlexEntry>, k: string)
    requires k !in m && forall i :: 0 <= i < |es| ==> es[i].key != k
    ensures k !in Stored(m, false, es)
  {
    if |es| > 0 {
      AbsentUntilNamed(m, es[..|es| - 1], k);
    }
  }

  /** Whatever the handlers store can be read back by its own extractor. */
  lemma {:induction false} StoredConsistent(m: map<string, CachedValue>, isSet: bool, es: seq<FlexEntry>)
    requires Consistent(m)
    ensures Consistent(Stored(m, isSet, es))
  {
    if |es| > 0 {
      StoredConsistent(m, isSet, es[..|es| - 1]);
    }
  }

  /** The reply createEmptyBodyResponse finishes. */
  function EmptyBody(status: Status, bodyType: ResponseBody): Response
  {
    Response(status, bodyType, NoBody)
  }

  class KvHandler {
    const cache: Cache

    constructor ()
      ensures fresh(cache) && cache.m == map[]
    {
      cache := new Cache();
    }

    /**
     * KVSet (isSet) and KVAdd: the entries are stored in order until reading
     * the request throws at entry `failAt`; the reply is Ok, or Fail after an
     * exception, and its body type is KVSet for both requests.
     */
    method HandleSetOrAdd(isSet: bool, entries: seq<FlexEntry>, failAt: Option<nat>) returns (rsp: Response)
      modifies cache
      ensures var n := if failAt.Some? && failAt.value < |entries| then failAt.value else |entries|;
        cache.m == Stored(old(cache.m), isSet, entries[..n])
      ensures rsp == EmptyBody(if failAt.Some? && failAt.value < |entries| then Fail else Ok, RspKVSet)
      ensures Consistent(old(cache.m)) ==> Consistent(cache.m)
    {
      var n := if failAt.Some? && failAt.value < |entries| then failAt.value else |entries|;
      var i := 0;
      while i < n
        invariant 0 <= i <= n
        invariant cache.m == Stored(old(cache.m), isSet, entries[..i])
      {
        var e := entries[i];
        assert entries[..i + 1][..i] == entries[..i];
        cache.SetOrAdd(isSet, ScalarTypeOf(e.value), e.key, AsValue(e.value));
        i := i + 1;
      }
      if Consistent(old(cache.m)) {
        StoredConsistent(old(cache.m), isSet, entries[..n]);
      }
      rsp := EmptyBody(if n < |entries| then Fail else Ok, RspKVSet);
    }

    /**
     * KVGet: no keys vector is Fail; otherwise Ok with the entries of the
     * stored keys, or Fail when an extractor throws. The map is not changed.
     */
    method HandleGet(keys: Option<seq<string>>) returns (rsp: Response)
      ensures keys.None? ==> rsp == EmptyBody(Fail, RspKVGet)
      ensures keys.Some? && Lookup(cache.m, keys.value).None? ==> rsp == EmptyBody(Fail, RspKVGet)
      ensures keys.Some? && Lookup(cache.m, keys.value).Some? ==>
        rsp == Response(Ok, RspKVGet, KvGetBody(Lookup(cache.m, keys.value).value))
      ensures keys.Some? && Consistent(cache.m) ==>
        rsp.status == Ok && EntryKeys(rsp.body.entries) == Present(cache.m, keys.value)
    {
      if keys.None? {
        rsp := EmptyBody(Fail, RspKVGet);
      } else {
        var found := cache.Get(keys.value);
        if found.None? {
          rsp := EmptyBody(Fail, RspKVGet);
        } else {
          rsp := Response(Ok, RspKVGet, KvGetBody(found.value));
        }
        if Consistent(cache.m) {
          LookupOfConsistent(cache.m, keys.value);
        }
      }
    }

    /** KVRmv: always Ok; the listed keys are erased only when a keys vector is present. */
    method HandleRmv(keys: Option<seq<string>>) returns (rsp: Response)
      modifies cache
      ensures keys.Some? ==> cache.m == old(cache.m) - (set k | k in keys.value)
      ensures keys.None? ==> cache.m == old(cache.m)
      ensures rsp == EmptyBody(Ok, RspKVRmv)
    {
      if keys.Some? {
        cache.Remove(keys.value);
      }
      rsp := EmptyBody(Ok, RspKVRmv);
    }

    /** KVCount: Ok with the number of stored keys. */
    method HandleCount() returns (rsp: Response)
      ensures rsp.status == Ok && rsp.bodyType == RspKVCount
      ensures rsp.body == KvCountBody(|cache.m.Keys|)
    {
      rsp := Response(Ok, RspKVCount, KvCountBody(cache.Count()));
    }

    /** KVContains: no keys vector is Fail; otherwise Ok with the requested keys that are stored. */
    method HandleContains(keys: Option<seq<string>>) returns (rsp: Response)
      ensures keys.None? ==> rsp == EmptyBody(Fail, RspKVContains)
      ensures keys.Some? ==> rsp == Response(Ok, RspKVContains, KvContainsBody(Present(cache.m, keys.value)))
      ensures keys.Some? ==> forall k :: k in rsp.body.keys <==> k in keys.value && k in cache.m
    {
      if keys.None? {
        rsp := EmptyBody(Fail, RspKVContains);
      } else {
        var present := cache.Contains(keys.value);
        rsp := Response(Ok, RspKVContains, KvContainsBody(present));
      }
    }
  }
}
