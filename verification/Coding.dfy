/** Integer and string encodings (util/coding.cc). */
module Coding {
  import opened InternalKeys

  type Word = w: nat | w < 0x1_0000_0000

  const TWO_TO_64: nat := 0x1_0000_0000_0000_0000

  type DoubleWord = w: nat | w < 0x1_0000_0000_0000_0000

  function Zeros(n: nat): (r: Bytes)
    ensures |r| == n
  {
    seq(n, _ => 0)
  }

  // ---- fixed width --------------------------------------------------------------------------------

  function EncodeFixed32(v: Word): (r: Bytes)
    ensures |r| == 4
  {
    [v % 256, v / 0x100 % 256, v / 0x1_0000 % 256, v / 0x100_0000]
  }

  function DecodeFixed32(b: Bytes): Word
    requires |b| == 4
  {
    b[0] + b[1] as int * 0x100 + b[2] as int * 0x1_0000 + b[3] as int * 0x100_0000
  }

  lemma DecodeEncodeFixed32(v: Word)
    ensures DecodeFixed32(EncodeFixed32(v)) == v
  {
    var high: nat, higher: nat, highest: nat := v / 0x100, v / 0x1_0000, v / 0x100_0000;
    FourBytes(v, high, higher, highest);
    assert EncodeFixed32(v) == [v % 256, high % 256, higher % 256, highest];
  }

  lemma FourBytes(v: Word, high: nat, higher: nat, highest: nat)
    requires high == v / 0x100 && higher == v / 0x1_0000 && highest == v / 0x100_0000
    ensures v == v % 256 + 0x100 * high && high == high % 256 + 0x100 * higher && higher == higher % 256 + 0x100 * highest
    ensures highest < 256
  {
  }

  function EncodeFixed64(v: DoubleWord): (r: Bytes)
    ensures |r| == 8
  {
    EncodeFixed32(v % 0x1_0000_0000) + EncodeFixed32(v / 0x1_0000_0000)
  }

  function DecodeFixed64(b: Bytes): DoubleWord
    requires |b| == 8
  {
    DecodeFixed32(b[..4]) + DecodeFixed32(b[4..]) * 0x1_0000_0000
  }

  lemma DecodeEncodeFixed64(v: DoubleWord)
    ensures DecodeFixed64(EncodeFixed64(v)) == v
  {
    hide EncodeFixed32, DecodeFixed32;
    DecodeEncodeFixed32(v % 0x1_0000_0000);
    DecodeEncodeFixed32(v / 0x1_0000_0000);
    assert EncodeFixed64(v)[..4] == EncodeFixed32(v % 0x1_0000_0000);
    assert EncodeFixed64(v)[4..] == EncodeFixed32(v / 0x1_0000_0000);
  }

  // ---- base 128 varints -----------------------------------------------------------------------------

  /** Seven bits a byte, the low ones first; the top bit of a byte says that more follow. */
  function EncodeVarint(v: nat): (r: Bytes)
    ensures r != []
  {
    if v < 128 then [v] else [v % 128 + 128] + EncodeVarint(v / 128)
  }

  datatype Parsed = Parsed(value: nat, size: nat)

  /** A varint of at most n bytes at the front of b. */
  function ParseVarint(b: Bytes, n: nat): (r: Option<Parsed>)
    ensures r.Some? ==> 0 < r.value.size <= |b| && r.value.size <= n
  {
    if n == 0 || b == [] then None
    else if b[0] < 128 then Some(Parsed(b[0], 1))
    else
      match ParseVarint(b[1..], n - 1)
      case None => None
      case Some(p) => Some(Parsed(b[0] - 128 + 128 * p.value, 1 + p.size))
  }

  function Power128(n: nat): (r: nat)
    ensures r > 0
  {
    if n == 0 then 1 else 128 * Power128(n - 1)
  }

  lemma {:induction false} ParseEncodeVarint(v: nat, n: nat, rest: Bytes)
    requires v < Power128(n) && n > 0
    ensures ParseVarint(EncodeVarint(v) + rest, n) == Some(Parsed(v, |EncodeVarint(v)|))
  {
    var b := EncodeVarint(v) + rest;
    if v < 128 {
      assert b[0] == v;
    } else {
      assert v / 128 < Power128(n - 1);
      ParseEncodeVarint(v / 128, n - 1, rest);
      assert b[1..] == EncodeVarint(v / 128) + rest;
    }
  }

  lemma SevenBitsMore(v: nat)
    ensures v >= 128 ==> EncodeVarint(v) == [v % 128 + 128] + EncodeVarint(v / 128)
    ensures v / 128 / 128 == v / 0x4000 && v / 0x4000 / 128 == v / 0x20_0000 && v / 0x20_0000 / 128 == v / 0x1000_0000
  {
  }

  /** EncodeVarint32: one branch for each length. */
  method EncodeVarint32(v: Word) returns (r: Bytes)
    ensures r == EncodeVarint(v)
  {
    hide EncodeVarint;
    SevenBitsMore(v);
    SevenBitsMore(v / 0x80);
    SevenBitsMore(v / 0x4000);
    SevenBitsMore(v / 0x20_0000);
    OneByte(if v < 0x80 then v else if v < 0x4000 then v / 0x80 else if v < 0x20_0000 then v / 0x4000
            else if v < 0x1000_0000 then v / 0x20_0000 else v / 0x1000_0000);
    if v < 0x80 {
      r := [v];
    } else if v < 0x4000 {
      r := [v % 128 + 128, v / 0x80];
    } else if v < 0x20_0000 {
      r := [v % 128 + 128, v / 0x80 % 128 + 128, v / 0x4000];
    } else if v < 0x1000_0000 {
      r := [v % 128 + 128, v / 0x80 % 128 + 128, v / 0x4000 % 128 + 128, v / 0x20_0000];
    } else {
      r := [v % 128 + 128, v / 0x80 % 128 + 128, v / 0x4000 % 128 + 128, v / 0x20_0000 % 128 + 128, v / 0x1000_0000];
    }
  }

  lemma OneByte(v: nat)
    ensures v < 128 ==> EncodeVarint(v) == [v]
  {
  }

  method EncodeVarint64(v: DoubleWord) returns (r: Bytes)
    ensures r == EncodeVarint(v)
  {
    r := [];
    var left := v;
    while left >= 128
      invariant r + EncodeVarint(left) == EncodeVarint(v)
    {
      assert r + EncodeVarint(left) == (r + [left % 128 + 128]) + EncodeVarint(left / 128);
      r := r + [left % 128 + 128];
      left := left / 128;
    }
    r := r + [left];
  }

  /** GetVarint32Ptr: at most five bytes; what does not fit in 32 bits is shifted out. */
  function GetVarint32(b: Bytes): (r: Option<Parsed>)
    ensures r.Some? ==> 0 < r.value.size <= |b| && r.value.value < 0x1_0000_0000
  {
    match ParseVarint(b, 5)
    case None => None
    case Some(p) => Some(Parsed(p.value % 0x1_0000_0000, p.size))
  }

  /** The low bytes read so far, with a parse of the rest above them. */
  function Above(low: nat, unit: nat, size: nat, rest: Option<Parsed>): Option<Parsed> {
    match rest
    case None => None
    case Some(p) =>
      assert unit * p.value >= 0;
      Some(Parsed(low + unit * p.value, size + p.size))
  }

  /** One byte of a varint that may have n of them. */
  lemma OneMoreByte(b: Bytes, p: nat, n: nat, low: nat, unit: nat)
    requires p < n && p < |b|
    ensures b[p..][1..] == b[p + 1..]
    ensures b[p] * unit >= 0 && (b[p] >= 128 ==> (b[p] - 128) * unit >= 0)
    ensures var byte: int := b[p];
            var all := Above(low, unit, p, ParseVarint(b[p..], n - p));
            if byte < 128 then all == Some(Parsed(low + byte * unit, p + 1))
            else all == Above(low + (byte - 128) * unit, unit * 128, p + 1, ParseVarint(b[p + 1..], n - 1 - p))
  {
    hide ParseVarint;
    ParseStep(b, p, n);
    var after := ParseVarint(b[p + 1..], n - 1 - p);
    MoreBits(unit, b[p], 0);
    if b[p] >= 128 && after.Some? {
      MoreBits(unit, b[p] - 128, after.value.value);
    } else if b[p] >= 128 {
      MoreBits(unit, b[p] - 128, 0);
    }
  }

  lemma ParseStep(b: Bytes, p: nat, n: nat)
    requires p < n && p < |b|
    ensures b[p..][1..] == b[p + 1..]
    ensures var after := ParseVarint(b[p + 1..], n - 1 - p);
            ParseVarint(b[p..], n - p)
            == if b[p] < 128 then Some(Parsed(b[p], 1))
               else if after.None? then None
               else Some(Parsed(b[p] - 128 + 128 * after.value.value, 1 + after.value.size))
  {
    assert b[p..][1..] == b[p + 1..];
  }

  lemma MoreBits(unit: nat, bits: nat, more: nat)
    ensures unit * (bits + 128 * more) == bits * unit + (unit * 128) * more
    ensures bits * unit >= 0 && (unit * 128) * more >= 0
  {
    assert unit * (bits + 128 * more) == unit * bits + unit * (128 * more);
  }

  /** The loop of GetVarint32PtrFallback; `unit` is 1 << shift. */
  method GetVarint32PtrFallback(b: Bytes) returns (r: Option<Parsed>)
    ensures r == GetVarint32(b)
  {
    hide ParseVarint, Above;
    var result: nat, p: nat, shift: nat, unit: nat := 0, 0, 0, 1;
    NothingBelow(ParseVarint(b, 5));
    assert b[0..] == b;
    while shift <= 28 && p < |b|
      invariant p <= |b| && shift == 7 * p && p <= 5
      invariant Above(result, unit, p, ParseVarint(b[p..], 5 - p)) == ParseVarint(b, 5)
    {
      var byte: int := b[p];
      OneMoreByte(b, p, 5, result, unit);
      p := p + 1;
      if byte >= 128 {
        result := result + (byte - 128) * unit;
      } else {
        result := (result + byte * unit) % 0x1_0000_0000;
        return Some(Parsed(result, p));
      }
      shift := shift + 7;
      unit := unit * 128;
    }
    NoVarint(b[p..], 5 - p, result, unit, p);
    return None;
  }

  lemma NothingBelow(p: Option<Parsed>)
    ensures Above(0, 1, 0, p) == p
  {
  }

  lemma NoVarint(b: Bytes, n: nat, low: nat, unit: nat, size: nat)
    requires b == [] || n == 0
    ensures Above(low, unit, size, ParseVarint(b, n)) == None
  {
  }

  lemma PowersOf128(n: nat)
    ensures Power128(n + 1) == 128 * Power128(n)
    ensures Power128(0) == 1 && Power128(1) == 0x80 && Power128(2) == 0x4000 && Power128(3) == 0x20_0000
    ensures Power128(4) == 0x1000_0000 && Power128(5) == 0x8_0000_0000
  {
    assert Power128(2) == 128 * Power128(1) && Power128(3) == 128 * Power128(2);
    assert Power128(4) == 128 * Power128(3) && Power128(5) == 128 * Power128(4);
  }

  lemma Varint32RoundTrip(v: Word, rest: Bytes)
    ensures GetVarint32(EncodeVarint(v) + rest) == Some(Parsed(v, |EncodeVarint(v)|))
  {
    PowersOf128(5);
    ParseEncodeVarint(v, 5, rest);
  }

  /** GetVarint64Ptr: at most ten bytes, of which 64 bits count. */
  function GetVarint64(b: Bytes): (r: Option<Parsed>)
    ensures r.Some? ==> 0 < r.value.size <= |b| && r.value.value < TWO_TO_64
  {
    match ParseVarint(b, 10)
    case None => None
    case Some(p) => Some(Parsed(p.value % TWO_TO_64, p.size))
  }

  method GetVarint64Ptr(b: Bytes) returns (r: Option<Parsed>)
    ensures r == GetVarint64(b)
  {
    hide ParseVarint, Above;
    var result: nat, p: nat, shift: nat, unit: nat := 0, 0, 0, 1;
    NothingBelow(ParseVarint(b, 10));
    assert b[0..] == b;
    while shift <= 63 && p < |b|
      invariant p <= |b| && shift == 7 * p && p <= 10
      invariant Above(result, unit, p, ParseVarint(b[p..], 10 - p)) == ParseVarint(b, 10)
    {
      var byte: int := b[p];
      OneMoreByte(b, p, 10, result, unit);
      p := p + 1;
      if byte >= 128 {
        result := result + (byte - 128) * unit;
      } else {
        result := (result + byte * unit) % TWO_TO_64;
        return Some(Parsed(result, p));
      }
      shift := shift + 7;
      unit := unit * 128;
    }
    NoVarint(b[p..], 10 - p, result, unit, p);
    return None;
  }

  lemma TenBytesSuffice()
    ensures Power128(9) == 0x8000_0000_0000_0000 && Power128(10) > TWO_TO_64
    ensures Power128(5) == 0x8_0000_0000 && Power128(6) == 0x400_0000_0000 && Power128(7) == 0x2_0000_0000_0000
    ensures Power128(8) == 0x100_0000_0000_0000
  {
    PowersOf128(5);
    PowersOf128(6);
    PowersOf128(7);
    PowersOf128(8);
    PowersOf128(9);
  }

  lemma Varint64RoundTrip(v: DoubleWord, rest: Bytes)
    ensures GetVarint64(EncodeVarint(v) + rest) == Some(Parsed(v, |EncodeVarint(v)|))
  {
    TenBytesSuffice();
    ParseEncodeVarint(v, 10, rest);
  }

  // ---- length-prefixed strings ------------------------------------------------------------------------

  function LengthPrefixed(s: Bytes): Bytes
  {
    EncodeVarint(|s|) + s
  }

  datatype Slice = Slice(data: Bytes, rest: Bytes)

  function GetLengthPrefixedSlice(b: Bytes): (r: Option<Slice>)
    ensures r.Some? ==> |r.value.rest| < |b|
  {
    match GetVarint32(b)
    case None => None
    case Some(p) =>
      var input := b[p.size..];
      if |input| >= p.value then Some(Slice(input[..p.value], input[p.value..])) else None
  }

  lemma LengthPrefixedRoundTrip(s: Bytes, rest: Bytes)
    requires |s| < 0x1_0000_0000
    ensures GetLengthPrefixedSlice(LengthPrefixed(s) + rest) == Some(Slice(s, rest))
  {
    var b := LengthPrefixed(s) + rest;
    assert b == EncodeVarint(|s|) + (s + rest);
    Varint32RoundTrip(|s|, s + rest);
    assert b[|EncodeVarint(|s|)|..] == s + rest;
    assert (s + rest)[..|s|] == s && (s + rest)[|s|..] == rest;
  }

  // ---- what is not all there ------------------------------------------------------------------------------

  /** A varint that has lost its end cannot be read. */
  lemma {:induction false} TruncatedVarint(v: nat, k: nat, n: nat)
    requires k < |EncodeVarint(v)|
    ensures ParseVarint(EncodeVarint(v)[..k], n) == None
    decreases v
  {
    var b := EncodeVarint(v)[..k];
    if v >= 128 && k > 0 && n > 0 {
      TruncatedVarint(v / 128, k - 1, n - 1);
      assert b[1..] == EncodeVarint(v / 128)[..k - 1];
    }
  }

  /** Nor can a string that has lost its end. */
  lemma TruncatedSlice(s: Bytes, k: nat)
    requires |s| < 0x1_0000_0000 && k < |LengthPrefixed(s)|
    ensures GetLengthPrefixedSlice(LengthPrefixed(s)[..k]) == None
  {
    hide EncodeVarint, ParseVarint;
    var v, b := EncodeVarint(|s|), LengthPrefixed(s)[..k];
    if k < |v| {
      TruncatedVarint(|s|, k, 5);
      assert b == v[..k];
    } else {
      Varint32RoundTrip(|s|, s[..k - |v|]);
      assert b == v + s[..k - |v|] && b[|v|..] == s[..k - |v|];
    }
  }

  /** Little-endian words and groups of seven bits, the lowest first. */
  lemma BytesOfNumbers()
    ensures EncodeFixed32(0x0403_0201) == [1, 2, 3, 4] && EncodeFixed64(0x0807_0605_0403_0201) == [1, 2, 3, 4, 5, 6, 7, 8]
    ensures EncodeVarint(127) == [127] && EncodeVarint(300) == [0xAC, 2] && LengthPrefixed([7, 8]) == [2, 7, 8]
  {
    assert EncodeVarint(300 / 128) == [2];
    assert EncodeVarint(2) == [2] && LengthPrefixed([7, 8]) == [2] + [7, 8];
  }
}
