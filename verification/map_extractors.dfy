/**
 * The stored-value decoders of the server (Map.cpp): how a cached byte
 * buffer becomes the elements of a FlexBuffers vector, a blob or strings,
 * and the fixed-value extractors. The FlexBuffers builder is left out: each
 * decoder returns the values it would add, in order, under the given key.
 */
module MapExtractors {
  import opened Wire

  newtype byte = x: int | 0 <= x < 256

  /** 256 to the power k. */
  function Pow256(k: nat): (p: nat)
    ensures p > 0
  {
    if k == 0 then 1 else 256 * Pow256(k - 1)
  }

  /** The unsigned value of bytes in little-endian order, as memcpy on the server's hosts reads them. */
  function DecodeLE(bs: seq<byte>): (n: nat)
    ensures n < Pow256(|bs|)
  {
    if |bs| == 0 then 0 else bs[0] as nat + 256 * DecodeLE(bs[1..])
  }

  /** The `width` little-endian bytes of n (modulo 256^width). */
  function EncodeLE(n: nat, width: nat): (bs: seq<byte>)
    ensures |bs| == width
  {
    if width == 0 then [] else [(n % 256) as byte] + EncodeLE(n / 256, width - 1)
  }

  /** Encoding a value that fits and decoding it gives the value back. */
  lemma {:induction false} DecodeEncodeLE(n: nat, width: nat)
    requires n < Pow256(width)
    ensures DecodeLE(EncodeLE(n, width)) == n
  {
    if width > 0 {
      DecodeEncodeLE(n / 256, width - 1);
      assert EncodeLE(n, width)[1..] == EncodeLE(n / 256, width - 1);
    }
  }

  /** Decoding bytes and encoding the value at the same width gives the bytes back. */
  lemma {:induction false} EncodeDecodeLE(bs: seq<byte>)
    ensures EncodeLE(DecodeLE(bs), |bs|) == bs
  {
    if |bs| > 0 {
      EncodeDecodeLE(bs[1..]);
      var n := DecodeLE(bs);
      assert n % 256 == bs[0] as nat && n / 256 == DecodeLE(bs[1..]);
    }
  }

  const TWO_63: nat := 0x8000_0000_0000_0000
  const TWO_64: nat := 0x1_0000_0000_0000_0000

  /** An int64_t read from eight bytes: two's complement. */
  function ToInt64(bs: seq<byte>): (x: int)
  {
    var u := DecodeLE(bs);
    if u < TWO_63 then u else u - TWO_64
  }

  /** The eight bytes of an int64_t. */
  function FromInt64(x: int): (bs: seq<byte>)
    requires -(TWO_63 as int) <= x < TWO_63
    ensures |bs| == 8
  {
    EncodeLE(if x >= 0 then x else x + TWO_64, 8)
  }

  /** A uint64_t read from eight bytes. */
  function ToUInt64(bs: seq<byte>): (u: nat)
  {
    DecodeLE(bs)
  }

  /** A bool read from its byte: any non-zero byte reads as true. */
  function ToBool(bs: seq<byte>): (b: bool)
  {
    |bs| > 0 && bs[0] != 0
  }

  /** Every int64_t survives being written to bytes and read back. */
  lemma Int64RoundTrip(x: int)
    requires -(TWO_63 as int) <= x < TWO_63
    ensures ToInt64(FromInt64(x)) == x
  {
    assert Pow256(8) == TWO_64;
    DecodeEncodeLE(if x >= 0 then x else x + TWO_64, 8);
  }

  /**
   * The values a buffer of consecutive `width`-byte elements holds, in
   * order; the buffer must be a whole number of elements.
   */
  function DecodeAll<T>(data: seq<byte>, width: nat, decode: seq<byte> -> T): (r: seq<T>)
    requires width > 0 && |data| % width == 0
    ensures |r| == |data| / width
    decreases |data|
  {
    if |data| == 0 then []
    else
      WholeChunksStep(|data|, width);
      [decode(data[..width])] + DecodeAll(data[width..], width, decode)
  }

  /** A non-zero multiple of w is at least w away from zero. */
  lemma {:induction false} MultipleBounds(k: int, w: nat)
    ensures k >= 1 ==> k * w >= w
    ensures k <= -1 ==> k * w + w <= 0
    ensures k == 0 ==> k * w == 0
  {
    if w > 0 {
      MultipleBounds(k, w - 1);
      assert k * w == k * (w - 1) + k;
    }
  }

  /** An exact multiple divides without remainder. */
  lemma DivExact(x: int, w: nat, a: int)
    requires w > 0 && x == a * w
    ensures x / w == a && x % w == 0
  {
    var d, r := x / w, x % w;
    assert x == d * w + r;
    assert (a - d) * w == a * w - d * w;
    MultipleBounds(a - d, w);
  }

  /** Removing one element from a whole number of elements leaves a whole number, one fewer. */
  lemma WholeChunksStep(n: nat, width: nat)
    requires width > 0 && n > 0 && n % width == 0
    ensures n >= width && (n - width) % width == 0 && (n - width) / width == n / width - 1
  {
    var q := n / width;
    assert n == q * width;
    MultipleBounds(q, width);
    assert (q - 1) * width == q * width - width;
    DivExact(n - width, width, q - 1);
  }

  /** Element j of the decoded vector is the decoding of the j-th `width` bytes. */
  lemma {:induction false} DecodeAllAt<T>(data: seq<byte>, width: nat, decode: seq<byte> -> T, j: nat)
    requires width > 0 && |data| % width == 0 && j < |data| / width
    ensures (j + 1) * width <= |data|
    ensures DecodeAll(data, width, decode)[j] == decode(data[j * width..(j + 1) * width])
    decreases j
  {
    WholeChunksStep(|data|, width);
    MulSucc(j, width);
    if j > 0 {
      var rest := data[width..];
      DecodeAllAt(rest, width, decode, j - 1);
      var lo := (j - 1) * width;
      MulSucc(j - 1, width);
      assert j * width == lo + width && (j + 1) * width == lo + 2 * width;
      assert rest[lo..lo + width] == data[lo + width..lo + 2 * width];
      assert DecodeAll(data, width, decode)[j] == DecodeAll(rest, width, decode)[j - 1];
    }
  }

  /** One more multiple is w more. */
  lemma MulSucc(k: int, w: int)
    ensures (k + 1) * w == k * w + w
  {
  }

  /**
   * toTypedVector<T>: walk the buffer in steps of sizeof(T), reading one
   * element per step.
   */
  method ToTypedVector<T>(data: seq<byte>, width: nat, decode: seq<byte> -> T) returns (out: seq<T>)
    requires width > 0 && |data| % width == 0
    ensures out == DecodeAll(data, width, decode)
  {
    out := [];
    var i := 0;
    assert data[0..] == data;
    while i < |data|
      invariant DecodedUpTo(data, width, decode, i, out)
      decreases |data| - i
    {
      DecodeOneMore(data, width, decode, i, out);
      out := out + [decode(data[i..i + width])];
      i := i + width;
    }
    assert data[i..] == [];
  }

  /** The loop of toTypedVector after i bytes: `out` followed by the rest of the buffer decoded is the whole vector. */
  ghost predicate DecodedUpTo<T>(data: seq<byte>, width: nat, decode: seq<byte> -> T, i: nat, out: seq<T>)
  {
    width > 0 && |data| % width == 0 && i <= |data| && (|data| - i) % width == 0
    && out + DecodeAll(data[i..], width, decode) == DecodeAll(data, width, decode)
  }

  /** Decoding the element at i moves it from the elements still to read to the elements read. */
  lemma DecodeOneMore<T>(data: seq<byte>, width: nat, decode: seq<byte> -> T, i: nat, out: seq<T>)
    requires i < |data| && DecodedUpTo(data, width, decode, i, out)
    ensures i + width <= |data|
    ensures DecodedUpTo(data, width, decode, i + width, out + [decode(data[i..i + width])])
  {
    WholeChunksStep(|data| - i, width);
    var d := data[i..];
    assert d[width..] == data[i + width..];
    assert d[..width] == data[i..i + width];
    var x := decode(data[i..i + width]);
    var rest := DecodeAll(data[i + width..], width, decode);
    assert DecodeAll(d, width, decode) == [x] + rest;
    assert (out + [x]) + rest == out + ([x] + rest);
  }

  /** The bytes of a vector of int64_t values. */
  function EncodeInt64s(xs: seq<int>): (data: seq<byte>)
    requires forall j :: 0 <= j < |xs| ==> -(TWO_63 as int) <= xs[j] < TWO_63
    ensures |data| == 8 * |xs|
  {
    if |xs| == 0 then [] else FromInt64(xs[0]) + EncodeInt64s(xs[1..])
  }

  /** extractIntV reads back exactly the int64_t values that were written. */
  lemma {:induction false} Int64VectorRoundTrip(xs: seq<int>)
    requires forall j :: 0 <= j < |xs| ==> -(TWO_63 as int) <= xs[j] < TWO_63
    ensures |EncodeInt64s(xs)| % 8 == 0
    ensures DecodeAll(EncodeInt64s(xs), 8, ToInt64) == xs
  {
    if |xs| > 0 {
      var data := EncodeInt64s(xs);
      Int64VectorRoundTrip(xs[1..]);
      assert data[..8] == FromInt64(xs[0]);
      assert data[8..] == EncodeInt64s(xs[1..]);
      Int64RoundTrip(xs[0]);
    }
  }

  /** extractIntV: the buffer as consecutive int64_t values. */
  method ExtractIntV(data: seq<byte>) returns (out: seq<int>)
    requires |data| % 8 == 0
    ensures out == DecodeAll(data, 8, ToInt64)
    ensures |out| == |data| / 8
  {
    out := ToTypedVector(data, 8, ToInt64);
  }

  /** extractUIntV: the buffer as consecutive uint64_t values. */
  method ExtractUIntV(data: seq<byte>) returns (out: seq<nat>)
    requires |data| % 8 == 0
    ensures out == DecodeAll(data, 8, ToUInt64)
    ensures forall j :: 0 <= j < |out| ==> out[j] < TWO_64
  {
    out := ToTypedVector(data, 8, ToUInt64);
    forall j | 0 <= j < |out|
      ensures out[j] < TWO_64
    {
      DecodeAllAt(data, 8, ToUInt64, j);
      MulSucc(j, 8);
      var word := data[j * 8..(j + 1) * 8];
      assert |word| == 8;
      assert out[j] == DecodeLE(word);
      assert Pow256(8) == TWO_64;
    }
  }

  /** extractBoolV: the buffer as consecutive one-byte bools. */
  method ExtractBoolV(data: seq<byte>) returns (out: seq<bool>)
    ensures |out| == |data|
    ensures forall j :: 0 <= j < |data| ==> out[j] == (data[j] != 0)
  {
    out := ToTypedVector(data, 1, ToBool);
    forall j | 0 <= j < |data|
      ensures out[j] == (data[j] != 0)
    {
      DecodeAllAt(data, 1, ToBool, j);
      assert data[j * 1..(j + 1) * 1] == [data[j]];
    }
  }

  /**
   * extractBlob: a 32-bit little-endian length n, then the blob is the n
   * bytes that follow it.
   */
  function ExtractBlob(data: seq<byte>): (blob: seq<byte>)
    requires |data| >= 4 && |data| >= 4 + DecodeLE(data[..4])
    ensures |blob| == DecodeLE(data[..4])
  {
    data[4..4 + DecodeLE(data[..4])]
  }

  /** A blob stored with its length in front is read back whole, whatever follows it. */
  lemma BlobRoundTrip(b: seq<byte>, rest: seq<byte>)
    requires |b| < Pow256(4)
    ensures var data := EncodeLE(|b|, 4) + b + rest;
      |data| >= 4 && |data| >= 4 + DecodeLE(data[..4]) && ExtractBlob(data) == b
  {
    var data := EncodeLE(|b|, 4) + b + rest;
    assert data[..4] == EncodeLE(|b|, 4);
    DecodeEncodeLE(|b|, 4);
    assert data[4..4 + |b|] == b;
  }

  /** No byte of s is NUL. */
  predicate NulFree(s: seq<byte>)
  {
    forall k :: 0 <= k < |s| ==> s[k] != 0
  }

  /** The buffer is empty or its last byte is NUL. */
  predicate EndsWithNul(data: seq<byte>)
  {
    |data| == 0 || data[|data| - 1] == 0
  }

  /**
   * The offset of the first NUL byte at or after i, as strlen counts from
   * buffer + i; |data| when there is none.
   */
  function NulIndex(data: seq<byte>, i: nat): (n: nat)
    requires i <= |data|
    ensures i <= n <= |data|
    ensures n < |data| ==> data[n] == 0
    ensures i < |data| && EndsWithNul(data) ==> n < |data|
    decreases |data| - i
  {
    if i == |data| || data[i] == 0 then i else NulIndex(data, i + 1)
  }

  /** No byte between i and the first NUL is NUL. */
  lemma {:induction false} BeforeNulIndex(data: seq<byte>, i: nat)
    requires i <= |data|
    ensures NulFree(data[i..NulIndex(data, i)])
    decreases |data| - i
  {
    if i < |data| && data[i] != 0 {
      BeforeNulIndex(data, i + 1);
      assert data[i..NulIndex(data, i)] == [data[i]] + data[i + 1..NulIndex(data, i + 1)];
    }
  }

  /** A NUL at j with none between i and j is the first NUL at or after i. */
  lemma {:induction false} NulIndexAt(data: seq<byte>, i: nat, j: nat)
    requires i <= j < |data| && data[j] == 0 && NulFree(data[i..j])
    ensures NulIndex(data, i) == j
    decreases j - i
  {
    if i < j {
      assert data[i..j][0] == data[i];
      assert data[i + 1..j] == data[i..j][1..];
      NulIndexAt(data, i + 1, j);
    }
  }

  /** The buffer holds a NUL byte at or after i. */
  predicate HoldsNul(data: seq<byte>, i: nat)
  {
    i <= |data| && NulIndex(data, i) < |data|
  }

  /**
   * extractString on buffer + i: a std::string_view, which ends at the first
   * NUL byte; the buffer must hold one.
   */
  function ExtractString(data: seq<byte>, i: nat): (s: seq<byte>)
    requires HoldsNul(data, i)
    ensures i + |s| < |data| && data[i + |s|] == 0
  {
    data[i..NulIndex(data, i)]
  }

  /** The string read is the bytes before the first NUL: it holds no NUL itself. */
  lemma ExtractStringIsNulFree(data: seq<byte>, i: nat)
    requires HoldsNul(data, i)
    ensures NulFree(ExtractString(data, i))
  {
    BeforeNulIndex(data, i);
  }

  /** A NUL-free string followed by NUL reads back as that string. */
  lemma ExtractStringOf(s: seq<byte>, rest: seq<byte>)
    requires NulFree(s)
    ensures HoldsNul(s + [0] + rest, 0)
    ensures ExtractString(s + [0] + rest, 0) == s
  {
    var d := s + [0] + rest;
    assert d[0..|s|] == s;
    assert d[|s|] == 0;
    NulIndexAt(d, 0, |s|);
  }

  /** The strings of a buffer of NUL-terminated strings from offset i, in order. */
  function SplitFrom(data: seq<byte>, i: nat): (strs: seq<seq<byte>>)
    requires i <= |data| && EndsWithNul(data)
    decreases |data| - i
  {
    if i == |data| then []
    else
      var s := ExtractString(data, i);
      [s] + SplitFrom(data, i + |s| + 1)
  }

  /** The strings of a buffer of NUL-terminated strings, in order. */
  function SplitNul(data: seq<byte>): seq<seq<byte>>
    requires EndsWithNul(data)
  {
    SplitFrom(data, 0)
  }

  /** Every string split from the buffer is NUL-free. */
  lemma {:induction false} SplitFromIsNulFree(data: seq<byte>, i: nat)
    requires i <= |data| && EndsWithNul(data)
    ensures forall j :: 0 <= j < |SplitFrom(data, i)| ==> NulFree(SplitFrom(data, i)[j])
    decreases |data| - i
  {
    if i < |data| {
      var s := ExtractString(data, i);
      ExtractStringIsNulFree(data, i);
      SplitFromIsNulFree(data, i + |s| + 1);
    }
  }

  /** The NUL-free strings, each followed by a NUL byte. */
  function JoinNul(strs: seq<seq<byte>>): (data: seq<byte>)
  {
    if |strs| == 0 then [] else strs[0] + [0] + JoinNul(strs[1..])
  }

  /** A NUL-free string s stored at i and followed by a NUL is the first string split from i. */
  lemma SplitFromStep(data: seq<byte>, i: nat, s: seq<byte>)
    requires EndsWithNul(data) && i + |s| < |data|
    requires data[i..i + |s|] == s && data[i + |s|] == 0 && NulFree(s)
    ensures SplitFrom(data, i) == [s] + SplitFrom(data, i + |s| + 1)
  {
    NulIndexAt(data, i, i + |s|);
  }

  /** A joined buffer ends with NUL. */
  lemma {:induction false} JoinNulEndsWithNul(strs: seq<seq<byte>>)
    ensures EndsWithNul(JoinNul(strs))
  {
    if |strs| > 0 {
      JoinNulEndsWithNul(strs[1..]);
      var rest := JoinNul(strs[1..]);
      assert JoinNul(strs) == strs[0] + [0] + rest;
      if |rest| == 0 {
        assert JoinNul(strs)[|JoinNul(strs)| - 1] == 0;
      } else {
        assert JoinNul(strs)[|JoinNul(strs)| - 1] == rest[|rest| - 1];
      }
    }
  }

  /** Every one of the strings is NUL-free. */
  predicate AllNulFree(strs: seq<seq<byte>>)
  {
    |strs| == 0 || (NulFree(strs[0]) && AllNulFree(strs[1..]))
  }

  /** Where the first string, its NUL and the rest sit when s + [0] + r is stored at k. */
  lemma JoinedAt(data: seq<byte>, k: nat, s: seq<byte>, r: seq<byte>)
    requires k <= |data| && data[k..] == s + [0] + r
    ensures k + |s| < |data|
    ensures data[k..k + |s|] == s && data[k + |s|] == 0 && data[k + |s| + 1..] == r
  {
    assert data[k..][|s|] == 0;
    assert data[k..][..|s|] == s;
    assert data[k..][|s| + 1..] == r;
  }

  /** The strings joined and stored from offset k are split back from k. */
  lemma {:induction false} SplitJoinAt(data: seq<byte>, k: nat, strs: seq<seq<byte>>)
    requires EndsWithNul(data) && k <= |data| && data[k..] == JoinNul(strs)
    requires AllNulFree(strs)
    ensures SplitFrom(data, k) == strs
    decreases |strs|
  {
    if |strs| == 0 {
      assert |data[k..]| == 0;
    } else {
      JoinedAt(data, k, strs[0], JoinNul(strs[1..]));
      SplitFromStep(data, k, strs[0]);
      SplitJoinAt(data, k + |strs[0]| + 1, strs[1..]);
      assert strs == [strs[0]] + strs[1..];
    }
  }

  /** Splitting the joined strings gives the strings back. */
  lemma SplitJoinNul(strs: seq<seq<byte>>)
    requires AllNulFree(strs)
    ensures EndsWithNul(JoinNul(strs))
    ensures SplitNul(JoinNul(strs)) == strs
  {
    JoinNulEndsWithNul(strs);
    SplitJoinAt(JoinNul(strs), 0, strs);
  }

  /** A buffer from i is the bytes before a NUL at n, that byte, and what follows it. */
  lemma NulSplit(d: seq<byte>, i: nat, n: nat)
    requires i <= n < |d| && d[n] == 0
    ensures d[i..] == d[i..n] + [0] + d[n + 1..]
  {
    assert d[n..] == [d[n]] + d[n + 1..];
    assert d[i..] == d[i..n] + d[n..];
  }

  /** Joining the strings split from offset i gives the buffer from i back. */
  lemma {:induction false} JoinSplitFrom(data: seq<byte>, i: nat)
    requires i <= |data| && EndsWithNul(data)
    ensures JoinNul(SplitFrom(data, i)) == data[i..]
    decreases |data| - i
  {
    if i < |data| {
      var s := ExtractString(data, i);
      var strs := SplitFrom(data, i);
      JoinSplitFrom(data, i + |s| + 1);
      assert JoinNul(strs) == s + [0] + JoinNul(SplitFrom(data, i + |s| + 1)) by {
        assert strs[0] == s && strs[1..] == SplitFrom(data, i + |s| + 1);
      }
      NulSplit(data, i, i + |s|);
    }
  }

  /** Joining the split strings gives the buffer back. */
  lemma JoinSplitNul(data: seq<byte>)
    requires EndsWithNul(data)
    ensures JoinNul(SplitNul(data)) == data
  {
    JoinSplitFrom(data, 0);
  }

  /** Reading the string at i moves it from the strings still to read to the strings read. */
  lemma ReadOneMore(data: seq<byte>, i: nat, strs: seq<seq<byte>>)
    requires EndsWithNul(data) && i < |data|
    requires strs + SplitFrom(data, i) == SplitNul(data)
    ensures HoldsNul(data, i)
    ensures (strs + [ExtractString(data, i)]) + SplitFrom(data, i + |ExtractString(data, i)| + 1) == SplitNul(data)
  {
    var sv := ExtractString(data, i);
    var rest := SplitFrom(data, i + |sv| + 1);
    assert SplitFrom(data, i) == [sv] + rest;
    assert (strs + [sv]) + rest == strs + ([sv] + rest);
  }

  /**
   * extractStringV: read a string at i, then step past it and its NUL,
   * until the end of the buffer. The buffer must end with a NUL.
   */
  method ExtractStringV(data: seq<byte>) returns (strs: seq<seq<byte>>)
    requires EndsWithNul(data)
    ensures strs == SplitNul(data)
  {
    strs := [];
    var i := 0;
    while i < |data|
      invariant i <= |data|
      invariant strs + SplitFrom(data, i) == SplitNul(data)
      decreases |data| - i
    {
      ReadOneMore(data, i, strs);
      var sv := ExtractString(data, i);
      strs := strs + [sv];
      i := i + |sv| + 1;
    }
  }

  /** The fixed-size stored value: std::variant<int64_t, uint64_t, float, bool>. */
  datatype FixedValue = FixedInt(i: int) | FixedUInt(u: nat) | FixedFloat(f: FloatBits) | FixedBool(b: bool)

  /** Which fixed extractor runs. */
  datatype FixedExtractor = ExtractInt | ExtractUInt | ExtractFloat | ExtractBool

  /**
   * The fixed extractors: the stored value under the key, or None when
   * std::get finds another alternative and throws bad_variant_access.
   */
  function ExtractFixed(e: FixedExtractor, key: string, fv: FixedValue): (r: Option<FlexEntry>)
    ensures r.Some? <==> (match e
                          case ExtractInt => fv.FixedInt?
                          case ExtractUInt => fv.FixedUInt?
                          case ExtractFloat => fv.FixedFloat?
                          case ExtractBool => fv.FixedBool?)
    ensures r.Some? && fv.FixedInt? ==> r.value == FlexEntry(key, FlexInt(fv.i))
    ensures r.Some? && fv.FixedUInt? ==> r.value == FlexEntry(key, FlexUInt(fv.u))
    ensures r.Some? && fv.FixedFloat? ==> r.value == FlexEntry(key, FlexFloat(fv.f))
    ensures r.Some? && fv.FixedBool? ==> r.value == FlexEntry(key, FlexBool(fv.b))
  {
    match e
    case ExtractInt => if fv.FixedInt? then Some(FlexEntry(key, FlexInt(fv.i))) else None
    case ExtractUInt => if fv.FixedUInt? then Some(FlexEntry(key, FlexUInt(fv.u))) else None
    case ExtractFloat => if fv.FixedFloat? then Some(FlexEntry(key, FlexFloat(fv.f))) else None
    case ExtractBool => if fv.FixedBool? then Some(FlexEntry(key, FlexBool(fv.b))) else None
  }
}
