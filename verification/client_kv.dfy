/**
 * The Python client's key/value API (kv.py): argument checks, key
 * normalisation, the request each call sends and how it reads the reply.
 * These calls set no ident on the request and do not check the reply's
 * status; only `count` lets an exception after the checks escape.
 */
module ClientKv {
  import opened Wire
  import opened ClientCommon
  import KvHandler

  /**
   * The keys get and remove send: `keys` when it is non-empty, else the
   * single `key`; None (a ValueError) when neither is given.
   */
  function NormaliseKeys(key: Option<string>, keys: seq<string>): (r: Option<seq<string>>)
    ensures r.None? <==> key.None? && |keys| == 0
    ensures r.Some? ==> |r.value| > 0
    ensures |keys| > 0 ==> r == Some(keys)
    ensures |keys| == 0 && key.Some? ==> r == Some([key.value])
  {
    if |keys| > 0 then Some(keys)
    else if key.Some? then Some([key.value])
    else None
  }

  /** A request of the KV calls: the ident is left unset. */
  function KvRequest(body: RequestBody): Request
  {
    Request(None, body)
  }

  /** get: raises when no key is given, before any request is built; else sends KVGet. */
  function Get(key: Option<string>, keys: seq<string>): (a: Action<Option<seq<FlexEntry>>>)
    ensures a.Raise? <==> key.None? && |keys| == 0
    ensures a.Raise? ==> a.err == ValueError("key or keys must be set")
    ensures a.Send? ==> a.request == KvRequest(KVGet(NormaliseKeys(key, keys).value)) && a.check == NoCheck
    ensures a.Send? && |keys| > 0 ==> a.request.body.keys == keys
  {
    match RaiseIf(key.None? && |keys| == 0, "key or keys must be set")
    case Some(e) => Raise(e)
    case None => Send(KvRequest(KVGet(NormaliseKeys(key, keys).value)), NoCheck)
  }

  /**
   * What get returns for a reply (None when the transport raised): the
   * entries of a KVGet body; None for another body type, and None when the
   * body is missing, since that exception is swallowed.
   */
  function GetResult(reply: Option<Response>): (r: Option<seq<FlexEntry>>)
    ensures r.Some? <==> reply.Some? && reply.value.bodyType == RspKVGet && reply.value.body.KvGetBody?
    ensures r.Some? ==> r.value == reply.value.body.entries
  {
    if reply.Some? && reply.value.bodyType == RspKVGet && reply.value.body.KvGetBody? then Some(reply.value.body.entries)
    else None
  }

  /**
   * Against the server's KVGet replies: get returns exactly the entries an Ok
   * reply carries, and None for the Fail reply, whose body is empty.
   */
  lemma GetResultOfServerReplies(entries: seq<FlexEntry>)
    ensures GetResult(Some(Response(Ok, RspKVGet, KvGetBody(entries)))) == Some(entries)
    ensures GetResult(Some(KvHandler.EmptyBody(Fail, RspKVGet))) == None
  {
  }

  /** remove: the checks and key normalisation of get, then KVRmv; it returns nothing. */
  function Remove(key: Option<string>, keys: seq<string>): (a: Action<()>)
    ensures a.Raise? <==> key.None? && |keys| == 0
    ensures a.Raise? ==> a.err == ValueError("key or keys must be set")
    ensures a.Send? ==> a.request == KvRequest(KVRmv(NormaliseKeys(key, keys).value)) && a.check == NoCheck
  {
    match RaiseIf(key.None? && |keys| == 0, "key or keys must be set")
    case Some(e) => Raise(e)
    case None => Send(KvRequest(KVRmv(NormaliseKeys(key, keys).value)), NoCheck)
  }

  /** count: always sends KVCount. */
  function Count(): (a: Action<Option<nat>>)
    ensures a == Send(KvRequest(KVCount), NoCheck)
  {
    Send(KvRequest(KVCount), NoCheck)
  }

  /**
   * What count does with a reply: outside any try block, a transport error
   * or a KVCount reply without a count body raises; a KVCount body gives the
   * count; any other body type gives None.
   */
  function CountResult(reply: Option<Response>): (r: Outcome<Option<nat>>)
    ensures reply.None? ==> r == Raised(TransportError)
    ensures reply.Some? && reply.value.bodyType != RspKVCount ==> r == Returned(None)
    ensures reply.Some? && reply.value.bodyType == RspKVCount ==>
      (r.Returned? <==> reply.value.body.KvCountBody?)
    ensures r.Returned? && r.value.Some? ==> reply.Some? && reply.value.body == KvCountBody(r.value.value)
  {
    match reply
    case None => Raised(TransportError)
    case Some(rsp) =>
      if rsp.bodyType != RspKVCount then Returned(None)
      else if rsp.body.KvCountBody? then Returned(Some(rsp.body.count))
      else Raised(MissingBody)
  }

  /** contains: an empty key list raises; otherwise KVContains is sent. */
  function Contains(keys: seq<string>): (a: Action<Option<seq<string>>>)
    ensures a.Raise? <==> |keys| == 0
    ensures a.Raise? ==> a.err == ValueError("keys is empty")
    ensures a.Send? ==> a.request == KvRequest(KVContains(keys)) && a.check == NoCheck
  {
    match RaiseIf(|keys| == 0, "keys is empty")
    case Some(e) => Raise(e)
    case None => Send(KvRequest(KVContains(keys)), NoCheck)
  }

  /** What contains returns: the keys of a KVContains body, else None (errors are swallowed). */
  function ContainsResult(reply: Option<Response>): (r: Option<seq<string>>)
    ensures r.Some? <==> reply.Some? && reply.value.bodyType == RspKVContains && reply.value.body.KvContainsBody?
    ensures r.Some? ==> r.value == reply.value.body.keys
  {
    if reply.Some? && reply.value.bodyType == RspKVContains && reply.value.body.KvContainsBody? then
      Some(reply.value.body.keys)
    else None
  }

  /** set (isSet) and add: an empty dict raises; otherwise KVSet or KVAdd carries the pairs. */
  function SetAdd(kv: seq<KvPair>, isSet: bool): (a: Action<()>)
    ensures a.Raise? <==> |kv| == 0
    ensures a.Raise? ==> a.err == ValueError("keys empty")
    ensures a.Send? ==> a.request == KvRequest(if isSet then KVSet(kv) else KVAdd(kv)) && a.check == NoCheck
  {
    match RaiseIf(|kv| == 0, "keys empty")
    case Some(e) => Raise(e)
    case None => Send(KvRequest(if isSet then KVSet(kv) else KVAdd(kv)), NoCheck)
  }
}
