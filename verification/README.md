# fcache core model

fcache is an in-memory cache server. It has two parts:

- **Key/value store.** String keys map to typed scalars.
- **Named lists.** Lists of 64-bit signed or unsigned integers, floats or strings, kept unsorted or sorted.

Clients send FlatBuffers requests and get back a status and a typed body. Lists are addressed by Python-style windows `[start, stop)`, counted from the head or, with a negative index, from the tail. Sorted lists also support sorted insertion, removal of equal runs and intersection.

This project models the core of the server and of the Python client.

**Server side:**

- `ListOperations` models `ListOperations.hpp`: window resolution, positional, appending and sorted adds, overwrite (`Set`), range reads, range removal, conditional removal and sorted intersection.
- `List` models the older operation set in `List.hpp` and the `FcList` wrapper.
- `CacheMap` models the key/value map of `Map.hpp`.
- `MapExtractors` models the byte-level extractors of `Map.cpp`.
- `KvHandler` and `ListHandler` model the request handlers of `KvHandler.cpp` and `ListHandler.cpp`.

**Client side:**

- `ClientCommon` models `common.py`.
- `ClientList` models `list.py`.
- `ClientKv` models `kv.py`.

**Shared modules:**

- `Wire` holds the request and response vocabulary.
- `Containers` holds `LinkedList<T>`, which stands for `std::list`: a class whose `elems` sequence the list operations update in place. It also holds the sequence helpers.

**How the server is modelled.** Every server operation that mutates a `std::list` or the cache map is a method with a `modifies` clause. Its `ensures` gives the new contents as a function of the old ones. The properties those functions promise are lemmas: sortedness, permutation, "only the window changes", round-trips and counts.

**How the client is modelled.** A client call is a pure function returning an `Action`. An action either raises, returns without a request, or sends a request together with the reply check the call names (the expected body type and whether a duplicate is allowed). That check is recorded and not applied: the `sendCmd` of `client.py` takes only the request and calls `raise_if_fail` without an expected body type. What a call makes of the reply is a separate function of `Option<Response>`, where `None` means the transport raised.

## Model

| member | source | states |
|---|---|---|
| ListOperations.PositionsToIndices | server/include/fc/ListOperations.hpp:24-39 | valid exactly when the start names an element (from the head, or from the tail when negative); begin is the resolved start; last is the size without a stop, min(size, stop) for a non-negative stop, size+stop for a negative stop inside the list |
| ListOperations.StopBeforeHeadIsReflected | server/include/fc/ListOperations.hpp:33-35 | a stop before the head (size+stop < 0) is reflected by the absolute value into a positive last of -(size+stop) instead of an empty window |
| ListOperations.PositionsToIterators | server/include/fc/ListOperations.hpp:42-68 | valid only for a non-empty window inside the list, and then agrees with positionsToIndices |
| ListOperations.PositionToStartIterator | server/include/fc/ListOperations.hpp:71-78 | a start inside the list (from the head or the tail) resolves to that element; anything else resolves to end() |
| ListOperations.ListToTypedVector | server/include/fc/ListOperations.hpp:10-21 | emits exactly the count elements from the iterator on; nothing for a non-positive count |
| ListOperations.GetByRange | server/include/fc/ListOperations.hpp:256-277 | the reply is valid exactly when positionsToIndices is; it carries the window read from the head, or from the reversed list for a tail base; an inverted window gives an empty vector |
| ListOperations.TailWindowIsMirroredHeadWindow | server/include/fc/ListOperations.hpp:269-273 | reading [b, l) from crbegin() yields the mirrored head window [size-l, size-b) in reverse order |
| ListOperations.UnsortedAdd | server/include/fc/ListOperations.hpp:143-154 | the items are inserted in order before the element the position names (or at the tail when it names none); the size grows by the item count and is returned |
| ListOperations.InsertItemsAt | server/include/fc/ListOperations.hpp:148-152 | list becomes prefix + items + suffix around the insertion point |
| ListOperations.UnsortedAppend | server/include/fc/ListOperations.hpp:107-115 | the items are appended after the old contents and the new size is returned |
| ListOperations.LowerBound | server/include/fc/ListOperations.hpp:135-140 | the first index in [from, to) whose element is not below v: everything before it is below v |
| ListOperations.UpperBound | server/include/fc/ListOperations.hpp:385 | the first index in [from, to) whose element is above v: everything before it is at most v |
| ListOperations.InsertAtLowerBoundKeepsSorted | server/include/fc/ListOperations.hpp:135-140 | inserting v at its lower bound keeps a sorted list sorted |
| ListOperations.SortedPermutationUnique | server/include/fc/ListOperations.hpp:126-141 | two sorted sequences with the same multiset are equal, so every sorted add has one possible result |
| ListOperations.InsertAtLowerBound | server/include/fc/ListOperations.hpp:135-140 | one item is inserted at its lower bound from the hint on: the list stays sorted, gains exactly that item, and the item sits at the returned position at or after the hint |
| ListOperations.SortedAdd | server/include/fc/ListOperations.hpp:126-141 | Add<true>: the list stays sorted, its multiset gains exactly the items, and the returned size is the old size plus the item count |
| ListOperations.SortedSourceAdd | server/include/fc/ListOperations.hpp:159-186 | with sorted items the list stays sorted, is a permutation of old + items, and grows by the item count |
| ListOperations.PrependAll | server/include/fc/ListOperations.hpp:165-169 | the items are placed before the old contents, in order |
| ListOperations.MergeFromLastInsert | server/include/fc/ListOperations.hpp:175-185 | the per-item lower-bound merge, starting from the last insertion point, keeps the list sorted and adds exactly the items |
| ListOperations.Overwrite | server/include/fc/ListOperations.hpp:222-226 | positions in [b, l) take the items in order; all other positions keep their values; the length is unchanged |
| ListOperations.SetWindow | server/include/fc/ListOperations.hpp:215-228 | a window Set resolves always lies inside the list and is no longer than the item count |
| ListOperations.SetWritesBeforeHead | server/include/fc/ListOperations.hpp:215-228 | on a list of 5, Set at position -7 with one item overwrites index 3, while the single-resolution window is invalid |
| ListOperations.CheckedSetWindow | server/include/fc/ListOperations.hpp:199-236 | valid exactly when there are items and the position names an element; it starts at that element and is clamped to the size |
| ListOperations.OverwriteWindow | server/include/fc/ListOperations.hpp:222-226 | a valid window is overwritten with the items; an invalid one changes nothing |
| ListOperations.Set | server/include/fc/ListOperations.hpp:199-236 | as written: the window SetWindow resolves is overwritten; nothing else changes |
| ListOperations.SetChecked | server/include/fc/ListOperations.hpp:199-236 | corrected: the window CheckedSetWindow resolves is overwritten; a position before the head changes nothing |
| ListOperations.Remove | server/include/fc/ListOperations.hpp:289-325 | the resolved window is erased (cleared when it is the whole list); an invalid start changes nothing |
| ListOperations.WithoutValueInWindow | server/include/fc/ListOperations.hpp:372-394 | removing matches from the window never lengthens the list |
| ListOperations.WithoutValueInWindowCounts | server/include/fc/ListOperations.hpp:388-392 | every value other than v keeps its count; v survives only outside the window |
| ListOperations.UnsortedRemoveIf | server/include/fc/ListOperations.hpp:342-401 | when the condition type is the list's element type, the elements equal to v in the window are removed and the rest keep their order; otherwise nothing changes; the returned size is the new size |
| ListOperations.EraseEqualRange | server/include/fc/ListOperations.hpp:381-387 | erasing the equal range never lengthens the list |
| ListOperations.EqualRangeSplit | server/include/fc/ListOperations.hpp:385 | in a sorted window, filtering v out equals cutting out [lower_bound, upper_bound) |
| ListOperations.EraseEqualRangeIsFilter | server/include/fc/ListOperations.hpp:381-387 | on a sorted list, erasing equal_range equals removing every element equal to v from the window |
| ListOperations.EraseEqualRangeKeepsSorted | server/include/fc/ListOperations.hpp:381-387 | erasing the equal range keeps a sorted list sorted |
| ListOperations.SortedRemoveIf | server/include/fc/ListOperations.hpp:342-401 | for a matching condition type and a non-empty window, the equal range of v in the window is erased; otherwise nothing changes; the returned size is the new size |
| ListOperations.SetIntersection | server/include/fc/ListOperations.hpp:416-418 | the std::set_intersection output is no longer than either input |
| ListOperations.IntersectionElements | server/include/fc/ListOperations.hpp:416-418 | every output element occurs in both inputs |
| ListOperations.IntersectionSorted | server/include/fc/ListOperations.hpp:416-418 | the intersection of sorted inputs is sorted |
| ListOperations.IntersectionMultiset | server/include/fc/ListOperations.hpp:416-418 | for sorted inputs the output multiset is the multiset intersection: each value appears min(count in a, count in b) times |
| ListOperations.DoIntersectToList | server/include/fc/ListOperations.hpp:436-444 | the intersection of the two windows is appended to the new list |
| ListOperations.IntersectWindowStep | server/include/fc/ListOperations.hpp:436-444 | each turn of the set_intersection walk drops the smaller head, or emits a shared head and drops both |
| ListOperations.IntersectToList | server/include/fc/ListOperations.hpp:448-462 | when both windows are non-empty, their intersection is appended to the destination list; otherwise it is unchanged |
| ListOperations.IntersectToBuffer | server/include/fc/ListOperations.hpp:466-480 | a vector is emitted exactly when both windows are non-empty, and it holds their intersection |
| ListOperations.WindowOfSortedIsSorted | server/include/fc/ListOperations.hpp:455-460 | a window of a sorted list is sorted, so the intersect inputs meet set_intersection's requirement |
| Containers.WithoutValue | server/include/fc/ListOperations.hpp:390 | std::remove_if output is no longer than its input |
| Containers.CompactWithout | server/include/fc/ListOperations.hpp:390 | the remove_if loop moves the kept elements of [b, l) forward in order, returns the new end, and leaves the tail from l alone |
| Containers.RemoveIfEqual | server/include/fc/ListOperations.hpp:390-391 | remove_if plus erase on [b, l): prefix + filtered window + suffix |
| Containers.WithoutValueAppend | server/include/fc/ListOperations.hpp:390 | filtering distributes over concatenation |
| Containers.WithoutValueMultiset | server/include/fc/ListOperations.hpp:390 | filtering removes every occurrence of v and keeps every other count |
| Containers.WithoutValueCount | server/include/fc/ListOperations.hpp:390 | after filtering, v occurs nowhere and every other value occurs as often as before |
| List.ListToTypedVector | server/include/fc/List.hpp:28-39 | emits exactly the elements from begin up to end |
| List.AddPosition | server/include/fc/List.hpp:88-95 | a head base advances min(pos, size) from the head; a tail base leaves min(pos, size) elements after the point; no base inserts at the head |
| List.TailAddMirrorsHeadAdd | server/include/fc/List.hpp:92-95 | inserting pos from the tail is inserting size-pos from the head |
| List.Add | server/include/fc/List.hpp:85-102 | the items are inserted in order at the resolved position; nothing else changes |
| List.GetByRange | server/include/fc/List.hpp:127-169 | a buffer is created exactly for a non-empty window, holding the window read from the head or from the tail |
| List.GetByRangeVersionsAgree | server/include/fc/List.hpp:127-169 | whenever this version sends a window, the newer ListOperations version sends the same one; it only adds empty replies for inverted windows |
| List.Remove | server/include/fc/List.hpp:193-226 | a non-empty window is erased; otherwise the list is unchanged |
| List.DoRemove | server/include/fc/List.hpp:296-331 | the elements equal to the value inside the window are removed, keeping the order of the rest |
| List.RemoveIf | server/include/fc/List.hpp:269-291 | only a condition of the list's own element type acts; any other leaves every list unchanged |
| List.FcList.OfInts | server/include/fc/List.hpp:346-348 | an int list is tagged FBT_VECTOR_INT |
| List.FcList.OfUInts | server/include/fc/List.hpp:349-351 | a uint list is tagged FBT_VECTOR_UINT |
| List.FcList.OfStrings | server/include/fc/List.hpp:355-357 | a string list is tagged FBT_VECTOR_KEY |
| List.FcList.Type | server/include/fc/List.hpp:359 | the tag agrees with the kind of list held |
| CacheMap.Extract | server/include/fc/Map.hpp:135-158 | an extractor adds an entry exactly when the value holds the alternative it reads; the entry has the key and the stored value |
| CacheMap.Present | server/include/fc/Map.hpp:107-124 | contains answers at most as many keys as were asked |
| CacheMap.PresentExactly | server/include/fc/Map.hpp:107-124 | a key is answered exactly when it was asked and is stored |
| CacheMap.EntryKeys | server/include/fc/Map.hpp:53-68 | the keys of the reply entries, in order |
| CacheMap.LookupOfConsistent | server/include/fc/Map.hpp:53-68 | on a map whose extractors match their values, get never fails; it answers the asked keys that are stored, in request order, each with its stored value |
| CacheMap.LookupFailureSticks | server/include/fc/Map.hpp:53-68 | once an extractor throws on a prefix of the keys, the whole get fails |
| CacheMap.Cache.constructor | server/include/fc/Map.hpp:23-25 | a new map is empty |
| CacheMap.Cache.SetOrAdd | server/include/fc/Map.hpp:28-50 | set overwrites the key; add stores only an absent key and leaves an existing one unchanged; both pair the value with the extractor of its type and keep the map consistent |
| CacheMap.Cache.Get | server/include/fc/Map.hpp:53-68 | the reply is the lookup of the keys; the map is unchanged |
| CacheMap.Cache.Remove | server/include/fc/Map.hpp:71-77 | exactly the listed keys are erased; absent keys are ignored and other keys are untouched |
| CacheMap.Cache.Clear | server/include/fc/Map.hpp:80-98 | reports not-valid with size 0 and changes nothing |
| CacheMap.Cache.Count | server/include/fc/Map.hpp:101-104 | the number of stored keys |
| CacheMap.Cache.Contains | server/include/fc/Map.hpp:107-124 | the asked keys that are stored, in request order, and no others |
| MapExtractors.DecodeLE | server/src/Map.cpp:6-18 | a little-endian word of k bytes is below 256^k |
| MapExtractors.EncodeLE | server/src/Map.cpp:6-18 | the encoding has the requested width |
| MapExtractors.DecodeEncodeLE | server/src/Map.cpp:6-18 | decoding an encoded number that fits the width gives the number back |
| MapExtractors.EncodeDecodeLE | server/src/Map.cpp:6-18 | encoding a decoded word at its width gives the bytes back |
| MapExtractors.Int64RoundTrip | server/src/Map.cpp:82-85 | two's-complement int64 bytes decode back to the integer |
| MapExtractors.DecodeAll | server/src/Map.cpp:6-18 | a buffer of whole elements decodes to |data|/width values |
| MapExtractors.DecodeAllAt | server/src/Map.cpp:11-16 | value j is decoded from bytes [j*width, (j+1)*width) |
| MapExtractors.ToTypedVector | server/src/Map.cpp:6-18 | the loop stepping by the element width decodes every element in order |
| MapExtractors.DecodeOneMore | server/src/Map.cpp:11-16 | each step of that loop decodes the next element and keeps a whole number of elements to go |
| MapExtractors.Int64VectorRoundTrip | server/src/Map.cpp:82-85 | a vector of int64 values encoded and decoded gives the values back |
| MapExtractors.ExtractIntV | server/src/Map.cpp:82-85 | every 8-byte word becomes one int64, in order |
| MapExtractors.ExtractUIntV | server/src/Map.cpp:88-91 | every 8-byte word becomes one uint64 below 2^64, in order |
| MapExtractors.ExtractBoolV | server/src/Map.cpp:100-103 | one bool per byte, true exactly for a non-zero byte |
| MapExtractors.ExtractBlob | server/src/Map.cpp:45-53 | the blob has the length its 4-byte little-endian prefix states |
| MapExtractors.BlobRoundTrip | server/src/Map.cpp:45-53 | a length-prefixed blob is read back exactly, whatever follows |
| MapExtractors.NulIndex | server/src/Map.cpp:58-59 | the scan for the terminator stops at a NUL, or at the end of the buffer; a buffer ending in NUL always yields one |
| MapExtractors.BeforeNulIndex | server/src/Map.cpp:58-59 | no NUL lies between the start and the terminator found |
| MapExtractors.NulIndexAt | server/src/Map.cpp:58-59 | the terminator found is the first NUL after the start |
| MapExtractors.ExtractString | server/src/Map.cpp:56-61 | the string read at i is followed by a NUL in the buffer |
| MapExtractors.ExtractStringIsNulFree | server/src/Map.cpp:56-61 | the string read holds no NUL |
| MapExtractors.ExtractStringOf | server/src/Map.cpp:56-61 | a NUL-free string followed by NUL is read back exactly |
| MapExtractors.SplitFromIsNulFree | server/src/Map.cpp:64-79 | each piece of a NUL-terminated buffer is NUL-free |
| MapExtractors.SplitFromStep | server/src/Map.cpp:72-76 | a NUL-free string stored at i and terminated splits off as the first piece, and the split goes on after its NUL |
| MapExtractors.JoinNulEndsWithNul | server/src/Map.cpp:64-79 | a joined buffer is empty or ends in NUL, as the loop expects |
| MapExtractors.SplitJoinAt | server/src/Map.cpp:64-79 | splitting from k recovers the NUL-free strings joined at k |
| MapExtractors.SplitJoinNul | server/src/Map.cpp:64-79 | NUL-free strings joined with terminators split back into the same strings |
| MapExtractors.JoinSplitFrom | server/src/Map.cpp:64-79 | splitting from i and rejoining gives the buffer from i back |
| MapExtractors.JoinSplitNul | server/src/Map.cpp:64-79 | splitting a NUL-terminated buffer and rejoining gives the buffer back |
| MapExtractors.ReadOneMore | server/src/Map.cpp:72-76 | reading the string at i moves it from the strings still to read to the strings read |
| MapExtractors.ExtractStringV | server/src/Map.cpp:64-79 | the loop yields exactly the NUL-terminated strings of the buffer, in order |
| MapExtractors.ExtractFixed | server/src/Map.cpp:21-42 | a fixed-type extractor adds an entry exactly for a value of its own type, carrying the key and the value |
| KvHandler.Cached | server/include/fc/Map.hpp:31-44 | the extractor chosen from a scalar's FlexBuffers type reads the stored value |
| KvHandler.StoredKeys | server/src/KvHandler.cpp:9-44 | after set or add the stored keys are the old keys plus the request's keys |
| KvHandler.StoredKeeps | server/src/KvHandler.cpp:28-44 | a key the request does not name keeps its value; with add, every stored key keeps its value |
| KvHandler.SetLastWins | server/src/KvHandler.cpp:9-25 | with set, a key ends with the value of the last entry naming it |
| KvHandler.AddFirstWins | server/src/KvHandler.cpp:28-44 | with add, a new key gets the value of the first entry naming it |
| KvHandler.AbsentUntilNamed | server/src/KvHandler.cpp:28-44 | add creates no key the request does not name |
| KvHandler.StoredConsistent | server/src/KvHandler.cpp:9-44 | storing keeps every value readable by its extractor |
| KvHandler.KvHandler.constructor | server/include/fc/KvHandler.hpp:15 | the handler starts with an empty map |
| KvHandler.KvHandler.HandleSetOrAdd | server/src/KvHandler.cpp:9-44 | the entries before the first read failure are stored; the reply is Fail after a failure, else Ok; the body type is KVSet for both requests; consistency is kept |
| KvHandler.KvHandler.HandleGet | server/src/KvHandler.cpp:47-75 | no keys vector or a throwing extractor gives Fail/KVGet with an empty body; otherwise Ok/KVGet with the found entries, which for a consistent map are exactly the asked keys that are stored |
| KvHandler.KvHandler.HandleRmv | server/src/KvHandler.cpp:78-92 | always Ok/KVRmv; the listed keys are erased when a keys vector is present |
| KvHandler.KvHandler.HandleCount | server/src/KvHandler.cpp:95-100 | Ok/KVCount with the number of stored keys |
| KvHandler.KvHandler.HandleContains | server/src/KvHandler.cpp:103-114 | no keys vector gives Fail; otherwise Ok with exactly the asked keys that are stored |
| ListHandler.ListHandler.constructor | server/include/fc/ListHandler.hpp:19 | no lists are registered |
| ListHandler.ListHandler.HandleCreate | server/src/ListHandler.cpp:11-34 | an int or uint list under a new name is registered empty with its type tag and the reply is Ok; an existing name gives Duplicate and keeps its list; any other type gives Fail and registers nothing |
| ListHandler.ListHandler.HandleAdd | server/src/ListHandler.cpp:37-72 | an unknown name gives Fail; otherwise Ok; no registered list changes, because the items go to a copy |
| ClientCommon.RaiseIf | apis/python/fc/common.py:61-63 | raises ValueError(msg) exactly when the condition holds |
| ClientCommon.RaiseIfNot | apis/python/fc/common.py:66-68 | raises ValueError(msg) whatever the condition |
| ClientCommon.RaiseIfEmpty | apis/python/fc/common.py:46-48 | raises exactly for the empty string |
| ClientCommon.RaiseIfLt | apis/python/fc/common.py:51-53 | raises exactly when value < maxValue |
| ClientCommon.RaiseIfEqual | apis/python/fc/common.py:56-58 | raises exactly when the values are equal |
| ClientCommon.NewResponseError | apis/python/fc/common.py:12-19 | as written: bodyType and status are stored as given, but the message never describes the error |
| ClientCommon.StatusError | apis/python/fc/common.py:21-23 | carries the given status and body type |
| ClientCommon.BodyTypeError | apis/python/fc/common.py:25-28 | carries the body type and no status |
| ClientCommon.MessagesAreSwapped | apis/python/fc/common.py:12-16 | the status error's message speaks of the body type, and the body-type error's message speaks of a missing status |
| ClientCommon.IntendedResponseError | apis/python/fc/common.py:12-19 | corrected: the message names the status when there is one, else the unexpected body type |
| ClientCommon.RaiseIfFail | apis/python/fc/common.py:38-43 | as written: nothing is raised exactly for an Ok reply of the expected body type; a non-Ok status raises statusError with that status; a wrong body type raises bodyTypeError without a status; every error raised carries the swapped message |
| ClientCommon.IntendedRaiseIfFail | apis/python/fc/common.py:38-43 | corrected: every error raised names its cause |
| ClientCommon.IntendedRaiseIfFailAgrees | apis/python/fc/common.py:12-19 | the corrected check raises for the same replies with the same status and body type, and only the message differs |
| ClientList.Lower | apis/python/fc/list.py:25-32 | lower-casing keeps the length and lowers each character |
| ClientList.LowerIdempotent | apis/python/fc/list.py:25-32 | lower-casing twice is lower-casing once |
| ClientList.ListTypeFor | apis/python/fc/list.py:25-32 | a type name is accepted exactly when it is int, float or str in any case; only int maps to the int type, and uint is never produced |
| ClientList.TypeNameIgnoresCase | apis/python/fc/list.py:25-32 | a type name and its lower-case form choose the same list type |
| ClientList.Create | apis/python/fc/list.py:23-50 | an unknown type raises "listType invalid"; otherwise ListCreate is sent and a Duplicate reply is allowed exactly when fail_on_duplicate is off |
| ClientList.IsRangeValid | apis/python/fc/list.py:249-258 | no stop is valid; start == stop is not; two same-sign non-zero bounds with start after stop are not; everything else is |
| ClientList.InvalidRangeIsEmptyOnServer | apis/python/fc/list.py:249-258 | every range the client refuses (with a stop inside the list) would name an empty window on the server |
| ClientList.ReflectedStopDefeatsShortCircuit | apis/python/fc/list.py:101-104 | (-2, -5) is refused by the client, yet on a list of 2 the server would resolve it to the whole list |
| ClientList.EncodeRange | apis/python/fc/list.py:195-199 | the request range keeps the start, sets has_stop exactly when a stop is given, and decodes back to the stop |
| ClientList.EncodeRangeOfDecoded | apis/python/fc/list.py:195-199 | a well-formed request range re-encodes to itself |
| ClientList.StopFor | apis/python/fc/list.py:86-93 | get_n sends a stop exactly when the count is given and non-zero, and then stop - start equals the count |
| ClientList.GetNWindow | apis/python/fc/list.py:86-93 | from a start inside the list, get_n's window on the server holds min(count, size-start) elements |
| ClientList.DoGetRange | apis/python/fc/list.py:187-217 | an empty name raises "name is empty"; otherwise ListGetRange is sent with the base and encoded range, expecting a ListGetRange body |
| ClientList.GetN | apis/python/fc/list.py:86-93 | reads from the head, with the stop derived from the count |
| ClientList.GetNReverse | apis/python/fc/list.py:96-98 | reads from the tail, with the stop derived from the count |
| ClientList.GetEnd | apis/python/fc/list.py:76-83 | get_head and get_tail ask for the window [0, 1) from the head or the tail |
| ClientList.FirstOrNone | apis/python/fc/list.py:76-83 | the first item, or None for an empty reply |
| ClientList.GetRange | apis/python/fc/list.py:101-110 | returns [] without a request exactly for an invalid range; otherwise it is _do_get_range with the head or tail base |
| ClientList.Remove | apis/python/fc/list.py:113-133 | always raises "range invalid", because raise_if_not always raises |
| ClientList.TagValue | apis/python/fc/list.py:146-166 | bool, int, str and float values get a tag, with bool sent as the int 0 or 1; any other value gets none |
| ClientList.RemoveIfEq | apis/python/fc/list.py:136-183 | always raises "range invalid" before the value is examined |
| ClientList.DoAdd | apis/python/fc/list.py:220-246 | sends ListAdd exactly when there are items and the position is not negative; otherwise raises "items cannot be empty" or "pos negative" |
| ClientList.UnsortedAdd | apis/python/fc/list.py:285-286 | a negative position raises; a sent add has a head base and the given position |
| ClientList.AddAtEnd | apis/python/fc/list.py:289-294 | add_head and add_tail send position 0 with a head or tail base |
| ClientList.SortedAdd | apis/python/fc/list.py:307-308 | sends the items at position 0 from the head, with the items_sorted flag |
| ClientList.Destination | apis/python/fc/list.py:324-326 | a destination list is named exactly when new_list_name is a non-empty string |
| ClientList.Intersect | apis/python/fc/list.py:311-359 | an empty first or second name raises; otherwise ListIntersect is sent with both ranges and the destination |
| ClientList.IntersectResult | apis/python/fc/list.py:355-359 | the items are returned exactly when no destination list was named |
| ClientKv.NormaliseKeys | apis/python/fc/kv.py:38-41 | keys when non-empty, else [key]; nothing when neither is given |
| ClientKv.Get | apis/python/fc/kv.py:37-63 | raises exactly when neither key nor keys is given, before any request; otherwise sends KVGet with the normalised keys and no ident |
| ClientKv.GetResult | apis/python/fc/kv.py:56-63 | returns the entries exactly for a KVGet body; any other outcome, including a transport error, gives None |
| ClientKv.GetResultOfServerReplies | apis/python/fc/kv.py:56-63 | against the server's replies: the entries of an Ok reply, and None for a Fail reply |
| ClientKv.Remove | apis/python/fc/kv.py:66-85 | the same checks and normalisation as get, then KVRmv |
| ClientKv.Count | apis/python/fc/kv.py:88-93 | always sends KVCount |
| ClientKv.CountResult | apis/python/fc/kv.py:94-100 | a transport error or a KVCount reply without a body raises; a KVCount body gives the count; another body type gives None |
| ClientKv.Contains | apis/python/fc/kv.py:103-104 | raises exactly on empty keys; otherwise sends KVContains |
| ClientKv.ContainsResult | apis/python/fc/kv.py:118-130 | the keys of a KVContains body; anything else gives None |
| ClientKv.SetAdd | apis/python/fc/kv.py:159-179 | raises exactly on an empty dict; otherwise sends KVSet or KVAdd with the pairs |

## Left out
- The `ReplyCheck` carried by a sent `Action` is recorded and not applied: the client's `sendCmd` (client.py) takes neither the expected body type nor `allowDuplicate`, so no member interprets `Expect`.
- `IsEqual` in ListOperations.hpp holds a `const T&` reference, while the one in List.hpp holds a copy. Both are modelled as a copy of the value, so a referent that changes while the condition is alive is not captured.

- Transport (`client.py`, `connection.py`), sockets and asyncio are left out. What the server answers is a parameter: `Option<Response>`, with `None` for an exception.
- `kv.py` imports `CreateKvArray` and calls `sendCmd2`, which are not defined in `common.py` or `client.py`. The request they would carry is modelled as its fields.
- The class `KV_Old` in `kv.py` is left out. It is legacy code built on a `cmds` table that the shown client does not have.
- FlatBuffers and FlexBuffers encoding is left out: the builders, `_createStrings`, `_complete_request` and `createKvMap`. Requests and replies are datatypes. `Map.cpp`'s byte-level readers are modelled on byte sequences.
- Floating point is left out: `FloatList`, `extractFloat` and `toTypedVector<float>`. A float is an opaque `FloatBits` value, and no ordering is assumed on it.
- Integers are unbounded: int64 and uint64 wrap-around and narrowing casts are not modelled. The only exception is the byte readers in `MapExtractors`, which are exact two's complement.
- ListOperations.SortedAdd: the sorted operations (sorted add, equal-range removal, intersection) are stated on integer lists only. String ordering is not modelled.
- `AddHead`, called from `ListHandler.cpp:53`, is not part of this model, so its effect is kept abstract. In any case it acts on a by-value copy, so the registered list does not change.
- The `ListDelete` and `ListGetRange` handlers are declared in `ListHandler.hpp` but not defined in `ListHandler.cpp`, so they are not modelled. The client's `delete` and `delete_all` are left out for the same reason.
- Logging (`PLOGD`, `logger.error`) is left out.
- `Server.cpp`, `Common.cpp` and `fcache.cpp` (dispatch and startup) are not part of this model.
- ClientCommon.RaiseIf: the `errorType` parameter is not modelled; every modelled call uses the default `ValueError`.
- KvHandler.KvHandler.HandleSetOrAdd: the helper that reads the FlexBuffers map into keys and values is not part of this model. The entries arrive already typed, and an exception while reading them is the parameter `failAt`.
- CacheMap.Cache.Clear: the source body builds nothing and reports failure. It is modelled as exactly that.
- List.Add requires `pos >= 0`: a negative shift would advance a list iterator backwards past `begin()`, which is undefined behaviour.
- ListOperations.Remove requires that a valid window is not inverted: `erase` on an inverted iterator range is undefined behaviour.
- ListOperations.ListToTypedVector requires the counted elements to exist: walking past `end()` is undefined behaviour.
- ClientList.Lower lowers ASCII letters only. Python's `str.lower` also folds other scripts, which is the same for the accepted names `int`, `float` and `str`.
- `Map.hpp` declares extractors that receive the variant, while `Map.cpp` defines byte-level readers. The two are kept in separate modules, `CacheMap` and `MapExtractors`, and are not reconciled.
- `positionsToIndices` applies `labs` to a stop before the head, which reflects the stop into the list instead of emptying the window. This is modelled as written: StopBeforeHeadIsReflected and ReflectedStopDefeatsShortCircuit show it.

## Findings

| source | as written | input that shows it | evidently intended | confidence | as-written member | corrected member |
|---|---|---|---|---|---|---|
| server/include/fc/ListOperations.hpp:215-228 | Set turns a negative position into size+pos and then resolves it again as a start, so a position before the head is wrapped twice | list of 5 elements, pos -7, one item: index 3 is overwritten | a position before the head names no element, so nothing is written | not executed | ListOperations.Set (with ListOperations.SetWritesBeforeHead) | ListOperations.SetChecked (with ListOperations.CheckedSetWindow) |
| apis/python/fc/common.py:12-16 | ResponseError picks the status message when status is None and the body-type message otherwise | statusError(bodyType, Fail) produces a message about an unexpected body type | the message names the status when there is one, else the body type | not executed | ClientCommon.NewResponseError (with ClientCommon.MessagesAreSwapped) | ClientCommon.IntendedResponseError (used by ClientCommon.IntendedRaiseIfFail, related to the as-written ClientCommon.RaiseIfFail by ClientCommon.IntendedRaiseIfFailAgrees) |
