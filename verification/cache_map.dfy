/**
 * The key/value store of the server (Map.hpp): a hash map from keys to a
 * cached value and the static extractor that writes that value into a
 * FlexBuffers reply map. The hash map is a Dafny `map`; the reply map is
 * the sequence of entries the extractors add, in the order they add them.
 */
module CacheMap {
  import opened Wire

  /** The stored value: std::variant<std::string, int64_t, uint64_t, double, bool>. */
  datatype ValueVariant = VString(s: string) | VInt(i: int) | VUInt(u: nat) | VDouble(d: FloatBits) | VBool(b: bool)

  /** The FlexBuffers scalar types setOrAdd is instantiated with. */
  datatype ScalarType = FBT_INT | FBT_UINT | FBT_FLOAT | FBT_BOOL | FBT_STRING

  /** The static extractor a cached value carries. */
  datatype Extractor = ExtractInt | ExtractUInt | ExtractFloat | ExtractBool | ExtractString

  datatype CachedValue = CachedValue(value: ValueVariant, extract: Extractor)

  /** The extractor setOrAdd pairs with each FlexBuffers type. */
  function ExtractorFor(t: ScalarType): Extractor
  {
    match t
    case FBT_INT => ExtractInt
    case FBT_UINT => ExtractUInt
    case FBT_FLOAT => ExtractFloat
    case FBT_BOOL => ExtractBool
    case FBT_STRING => ExtractString
  }

  /** The variant alternative each extractor reads with std::get. */
  predicate Reads(e: Extractor, v: ValueVariant)
  {
    match e
    case ExtractInt => v.VInt?
    case ExtractUInt => v.VUInt?
    case ExtractFloat => v.VDouble?
    case ExtractBool => v.VBool?
    case ExtractString => v.VString?
  }

  /** The stored value a FlexBuffers scalar carries. */
  function AsValue(s: FlexScalar): ValueVariant
  {
    match s
    case FlexInt(i) => VInt(i)
    case FlexUInt(u) => VUInt(u)
    case FlexFloat(f) => VDouble(f)
    case FlexBool(b) => VBool(b)
    case FlexString(str) => VString(str)
  }

  /**
   * Running a static extractor: the entry it adds to the reply map, or None
   * when std::get finds another alternative and throws bad_variant_access.
   */
  function Extract(e: Extractor, key: string, v: ValueVariant): (r: Option<FlexEntry>)
    ensures r.Some? <==> Reads(e, v)
    ensures r.Some? ==> r.value.key == key && AsValue(r.value.value) == v
  {
    match e
    case ExtractInt => if v.VInt? then Some(FlexEntry(key, FlexInt(v.i))) else None
    case ExtractUInt => if v.VUInt? then Some(FlexEntry(key, FlexUInt(v.u))) else None
    case ExtractFloat => if v.VDouble? then Some(FlexEntry(key, FlexFloat(v.d))) else None
    case ExtractBool => if v.VBool? then Some(FlexEntry(key, FlexBool(v.b))) else None
    case ExtractString => if v.VString? then Some(FlexEntry(key, FlexString(v.s))) else None
  }

  /** Every stored value can be read by the extractor stored with it. */
  ghost predicate Consistent(m: map<string, CachedValue>)
  {
    forall k :: k in m ==> Reads(m[k].extract, m[k].value)
  }

  /** The requested keys that are stored, in request order (repeats kept). */
  function Present(m: map<string, CachedValue>, keys: seq<string>): (r: seq<string>)
    ensures |r| <= |keys|
  {
    if |keys| == 0 then []
    else Present(m, keys[..|keys| - 1]) + (if keys[|keys| - 1] in m then [keys[|keys| - 1]] else [])
  }

  /** A key is reported present exactly when it was requested and is stored. */
  lemma {:induction false} PresentExactly(m: map<string, CachedValue>, keys: seq<string>, k: string)
    ensures k in Present(m, keys) <==> k in keys && k in m
  {
    if |keys| > 0 {
      PresentExactly(m, keys[..|keys| - 1], k);
      assert keys == keys[..|keys| - 1] + [keys[|keys| - 1]];
    }
  }

  /**
   * The entries get adds, in request order: one per stored key, none for a
   * missing key; None once an extractor throws.
   */
  function Lookup(m: map<string, CachedValue>, keys: seq<string>): (r: Option<seq<FlexEntry>>)
  {
    if |keys| == 0 then Some([])
    else
      match Lookup(m, keys[..|keys| - 1])
      case None => None
      case Some(entries) =>
        var k := keys[|keys| - 1];
        if k !in m then Some(entries)
        else match Extract(m[k].extract, k, m[k].value)
          case None => None
          case Some(e) => Some(entries + [e])
  }

  /** The keys of a sequence of reply entries. */
  function EntryKeys(entries: seq<FlexEntry>): (r: seq<string>)
    ensures |r| == |entries|
    ensures forall j :: 0 <= j < |entries| ==> r[j] == entries[j].key
  {
    if |entries| == 0 then [] else EntryKeys(entries[..|entries| - 1]) + [entries[|entries| - 1].key]
  }

  /**
   * On a consistent map get never throws: it replies with exactly the
   * requested keys that are stored, in request order, each with the value
   * stored under it.
   */
  lemma {:induction false} LookupOfConsistent(m: map<string, CachedValue>, keys: seq<string>)
    requires Consistent(m)
    ensures Lookup(m, keys).Some?
    ensures EntryKeys(Lookup(m, keys).value) == Present(m, keys)
    ensures forall e :: e in Lookup(m, keys).value ==> e.key in m && AsValue(e.value) == m[e.key].value
  {
    if |keys| > 0 {
      LookupOfConsistent(m, keys[..|keys| - 1]);
      var entries := Lookup(m, keys[..|keys| - 1]).value;
      var k := keys[|keys| - 1];
      if k in m {
        var e := Extract(m[k].extract, k, m[k].value).value;
        assert EntryKeys(entries + [e]) == EntryKeys(entries) + [k];
      }
    }
  }

  /** Once an extractor has thrown, the rest of the keys do not matter. */
  lemma {:induction false} LookupFailureSticks(m: map<string, CachedValue>, keys: seq<string>, i: nat)
    requires i <= |keys| && Lookup(m, keys[..i]) == None
    ensures Lookup(m, keys) == None
    decreases |keys| - i
  {
    if i < |keys| {
      assert keys[..i + 1][..i] == keys[..i];
      LookupFailureSticks(m, keys, i + 1);
    } else {
      assert keys[..i] == keys;
    }
  }

  /** CacheMap: the store, updated in place. */
  class Cache {
    var m: map<string, CachedValue>

    constructor ()
      ensures m == map[]
    {
      m := map[];
    }

    /**
     * setOrAdd: with IsSet the value (and the extractor of its type) is
     * stored, replacing any previous one (insert_or_assign); without it the
     * key is stored only if absent (try_emplace).
     */
    method SetOrAdd(isSet: bool, t: ScalarType, key: string, v: ValueVariant)
      modifies this
      ensures isSet ==> m == old(m)[key := CachedValue(v, ExtractorFor(t))]
      ensures !isSet && key in old(m) ==> m == old(m)
      ensures !isSet && key !in old(m) ==> m == old(m)[key := CachedValue(v, ExtractorFor(t))]
      ensures Consistent(old(m)) && Reads(ExtractorFor(t), v) ==> Consistent(m)
    {
      var extract := ExtractorFor(t);
      if isSet {
        m := m[key := CachedValue(v, extract)];
      } else if key !in m {
        m := m[key := CachedValue(v, extract)];
      }
    }

    /** get: the reply entries for the stored keys among `keys`; None when an extractor throws. */
    method Get(keys: seq<string>) returns (r: Option<seq<FlexEntry>>)
      ensures r == Lookup(m, keys)
    {
      var entries := [];
      var i := 0;
      while i < |keys|
        invariant 0 <= i <= |keys|
        invariant Lookup(m, keys[..i]) == Some(entries)
      {
        var k := keys[i];
        assert keys[..i + 1][..i] == keys[..i];
        if k in m {
          var cached := m[k];
          var e := Extract(cached.extract, k, cached.value);
          if e.None? {
            LookupFailureSticks(m, keys, i + 1);
            return None;
          }
          entries := entries + [e.value];
        }
        i := i + 1;
      }
      assert keys[..i] == keys;
      r := Some(entries);
    }

    /** remove: every listed key is erased; absent keys are ignored and other keys kept. */
    method Remove(keys: seq<string>)
      modifies this
      ensures m == old(m) - (set k | k in keys)
    {
      var i := 0;
      while i < |keys|
        invariant 0 <= i <= |keys|
        invariant m == old(m) - (set k | k in keys[..i])
      {
        assert keys[..i + 1] == keys[..i] + [keys[i]];
        m := m - {keys[i]};
        i := i + 1;
      }
      assert keys[..i] == keys;
    }

    /** clear: not implemented; it reports failure and an empty count, and changes nothing. */
    method Clear() returns (valid: bool, size: nat)
      ensures !valid && size == 0
    {
      return false, 0;
    }

    /** count: the number of stored keys. */
    function Count(): (n: nat)
      reads this
      ensures n == |m.Keys|
    {
      |m|
    }

    /** contains: the requested keys that are stored, in request order. */
    method Contains(keys: seq<string>) returns (keysExist: seq<string>)
      ensures keysExist == Present(m, keys)
      ensures forall k :: k in keysExist <==> k in keys && k in m
    {
      keysExist := [];
      var i := 0;
      while i < |keys|
        invariant 0 <= i <= |keys|
        invariant keysExist == Present(m, keys[..i])
      {
        assert keys[..i + 1][..i] == keys[..i];
        if keys[i] in m {
          keysExist := keysExist + [keys[i]];
        }
        i := i + 1;
      }
      assert keys[..i] == keys;
      forall k
        ensures k in keysExist <==> k in keys && k in m
      {
        PresentExactly(m, keys, k);
      }
    }
  }
}
