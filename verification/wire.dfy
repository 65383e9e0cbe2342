/**
 * Shapes shared by the server and the Python client: the envelope enums,
 * the request bodies, the response envelope and the list addressing types.
 * Field-level only; the FlatBuffers/FlexBuffers byte layout is a library
 * and is not modelled.
 */
module Wire {

  datatype Option<T> = None | Some(value: T)

  /** Response status of every reply. */
  datatype Status = Ok | Fail | ParseError | CommandUnknown | Duplicate

  /** The response body-type discriminant. */
  datatype ResponseBody =
    | RspNone
    | RspKVSet | RspKVGet | RspKVRmv | RspKVAdd | RspKVCount | RspKVContains | RspKVClear | RspKVClearSet
    | RspListCreate | RspListAdd | RspListDelete | RspListGetRange | RspListRemove | RspListRemoveIf | RspListIntersect

  /** The subsystem a request is addressed to. */
  datatype Ident = KV | ListIdent

  /** Origin of a non-negative list position; the server also has an unset value (Base_None). */
  datatype Base = NoBase | Head | Tail

  /** Element type of a list as named in ListCreate. */
  datatype ListType = IntType | UIntType | FloatType | StringType

  /** A half-open [start, stop) window; stop is meaningful only when hasStop. */
  datatype Range = Range(start: int, stop: int, hasStop: bool)

  /** The FlexBuffers vector type tags that an FcList carries. */
  datatype FlexType = FBT_VECTOR_INT | FBT_VECTOR_UINT | FBT_VECTOR_FLOAT | FBT_VECTOR_KEY

  /** A floating-point number, carried by its bit pattern only: no arithmetic is modelled on it. */
  datatype FloatBits = FloatBits(bits: bv64)

  /** Value tags of a ListRemoveIf request (fc.request.Value). */
  datatype ValueTag = IntValueTag | StringValueTag | FloatValueTag

  /** A value as a ListRemoveIf request carries it. */
  datatype TaggedValue = IntValue(i: int) | StringValue(s: string) | FloatValue(f: FloatBits)

  /** A value of the Python client: what the client's isinstance checks distinguish. */
  datatype PyValue = PyNone | PyBool(b: bool) | PyInt(i: int) | PyFloat(f: FloatBits) | PyStr(s: string) | PyOther

  /** A FlexBuffers map entry the client encodes for KVSet / KVAdd. */
  datatype KvPair = KvPair(key: string, value: PyValue)

  /** Request bodies, one variant per request type. */
  datatype RequestBody =
    | KVSet(kv: seq<KvPair>)
    | KVAdd(kv: seq<KvPair>)
    | KVGet(keys: seq<string>)
    | KVRmv(keys: seq<string>)
    | KVCount
    | KVContains(keys: seq<string>)
    | ListCreate(name: string, listType: ListType, sorted: bool)
    | ListAdd(name: string, items: seq<PyValue>, position: int, base: Base, itemsSorted: bool)
    | ListDelete(names: seq<string>)
    | ListGetRange(name: string, range: Range, base: Base)
    | ListRemove(name: string, range: Range, base: Base)
    | ListRemoveIf(name: string, range: Range, valueType: ValueTag, value: TaggedValue)
    | ListIntersect(list1Name: string, list2Name: string, list1Range: Range, list2Range: Range,
                    newListName: Option<string>)

  /** The request envelope; `ident` is None when the client leaves it at the schema default. */
  datatype Request = Request(ident: Option<Ident>, body: RequestBody)

  /** A scalar as the server's FlexBuffers builder emits it. */
  datatype FlexScalar =
    | FlexInt(i: int) | FlexUInt(u: nat) | FlexFloat(f: FloatBits) | FlexBool(b: bool) | FlexString(s: string)

  /** One key/value entry of a FlexBuffers map built for a KVGet reply. */
  datatype FlexEntry = FlexEntry(key: string, value: FlexScalar)

  /** Response payloads; NoBody is what createEmptyBodyResponse sends. */
  datatype Body =
    | NoBody
    | KvGetBody(entries: seq<FlexEntry>)
    | KvCountBody(count: nat)
    | KvContainsBody(keys: seq<string>)

  datatype Response = Response(status: Status, bodyType: ResponseBody, body: Body)
}
