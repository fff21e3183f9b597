/** The scalar codecs of nanopb (pb_encode.c, pb_decode.c): varints, zigzag and the range checks.
  *
  * The wire format is that of the Protocol Buffers Encoding specification, sections "Base 128 Varints" and
  * "Signed Integers" (ZigZag).
  */
module PbWire {
  import opened InternalKeys
  import opened Coding
  import opened PbFields

  // ---- varints ----------------------------------------------------------------------------------------

  /** The loop of pb_decode_varint32_eof, k bytes in.  A byte that 32 bits have no room for must be zero but for
    * its top bit, or one that sign extension puts there.
    */
  function Varint32From(b: Bytes, k: nat, result: Word): (r: Option<Parsed>)
    ensures r.Some? ==> 0 < r.value.size <= |b| && r.value.value < 0x1_0000_0000
  {
    if b == [] then None
    else
      var bits := b[0] % 128;
      if k >= 5 && bits != 0 && (result < 0x8000_0000 || b[0] != if k < 9 then 0xFF else 1) then None
      else
        var result' := Varint32Result(k, result, bits);
        if b[0] >= 128 then
          match Varint32From(b[1..], k + 1, result')
          case None => None
          case Some(p) => Some(Parsed(p.value, p.size + 1))
        else if k == 4 && bits >= 16 then None
        else Some(Parsed(result', 1))
  }

  function DecodeVarint32(b: Bytes): (r: Option<Parsed>)
    ensures r.Some? ==> 0 < r.value.size <= |b| && r.value.value < 0x1_0000_0000
  {
    Varint32From(b, 0, 0)
  }

  /** A 32-bit decode of what the encoder wrote succeeds exactly if the value has 32 bits. */
  lemma Varint32Inverse(v: nat, rest: Bytes)
    requires v < 0x8000_0000_0000_0000
    ensures DecodeVarint32(EncodeVarint(v) + rest)
            == if v < 0x1_0000_0000 then Some(Parsed(v, |EncodeVarint(v)|)) else None
  {
    PowersOf128(0);
    TenBytesSuffice();
    Varint32RoundTripFrom(v, 0, 0, rest);
  }

  /** v is what is left of the value once `result` has its lowest 7k bits. */
  lemma {:induction false} Varint32RoundTripFrom(v: nat, k: nat, result: nat, rest: Bytes)
    requires k < 9 && v < Power128(9 - k) && result < 0x1_0000_0000
    requires if k < 5 then result < Power128(k) else v > 0
    ensures Varint32From(EncodeVarint(v) + rest, k, result)
            == if k < 5 && Rejoined(v, k, result) < 0x1_0000_0000
               then Some(Parsed(Rejoined(v, k, result), |EncodeVarint(v)|)) else None
    decreases v
  {
    if v >= 128 {
      hide Power128, Rejoined, Varint32From, Varint32Result, EncodeVarint;
      var q, r := v / 128, v % 128;
      assert v == 128 * q + r;
      Remaining(v, q, r, k);
      LongVarint(v, k, result, rest);
      if k < 5 {
        SevenBits(v, q, r, k, result);
      }
      Varint32RoundTripFrom(q, k + 1, Varint32Result(k, result, r), rest);
    } else {
      ShortVarint(v, k, result, rest);
    }
  }

  function Rejoined(v: nat, k: nat, result: nat): nat {
    result + v * Power128(k)
  }

  function Varint32Result(k: nat, result: Word, bits: nat): Word {
    if k >= 5 then result else (result + bits * Power128(k)) % 0x1_0000_0000
  }

  lemma LongVarint(v: nat, k: nat, result: Word, rest: Bytes)
    requires v >= 128
    ensures var more := Varint32From(EncodeVarint(v / 128) + rest, k + 1, Varint32Result(k, result, v % 128));
            Varint32From(EncodeVarint(v) + rest, k, result)
            == if k >= 5 && v % 128 != 0 && (result < 0x8000_0000 || k >= 9 || v % 128 != 127) then None
               else match more case None => None case Some(p) => Some(Parsed(p.value, p.size + 1))
    ensures |EncodeVarint(v)| == 1 + |EncodeVarint(v / 128)|
  {
    hide Power128, Varint32Result;
    var b := EncodeVarint(v) + rest;
    assert b[0] == v % 128 + 128 && b[1..] == EncodeVarint(v / 128) + rest;
  }

  lemma ShortVarint(v: nat, k: nat, result: Word, rest: Bytes)
    requires v < 128 && k < 9 && (if k < 5 then result < Power128(k) else v > 0)
    ensures Varint32From(EncodeVarint(v) + rest, k, result)
            == if k < 5 && Rejoined(v, k, result) < 0x1_0000_0000
               then Some(Parsed(Rejoined(v, k, result), |EncodeVarint(v)|)) else None
  {
    var b := EncodeVarint(v) + rest;
    assert b[0] == v;
    UnitFits(k);
    hide Power128;
    Distribute(v, 0, v, Power128(k));
    AtLeast(16, v, Power128(k));
    AtLeast(v, 15, Power128(k));
  }

  lemma UnitFits(k: nat)
    ensures k < 4 ==> Power128(k) <= 0x20_0000
    ensures k == 4 ==> Power128(k) == 0x1000_0000
  {
    PowersOf128(k);
    assert k < 4 ==> k == 0 || k == 1 || k == 2 || k == 3;
  }

  lemma Remaining(v: nat, q: nat, r: nat, k: nat)
    requires v == 128 * q + r && v >= 128 && r < 128 && k < 9 && v < Power128(9 - k)
    ensures k < 8 && 0 < q < Power128(9 - (k + 1))
  {
  }

  lemma SevenBits(v: nat, q: nat, r: nat, k: nat, result: nat)
    requires v == 128 * q + r && r < 128 && result < Power128(k) && k < 5 && result < 0x1_0000_0000
    ensures Rejoined(r, k, result) < Power128(k + 1)
    ensures Rejoined(v, k, result) == Rejoined(q, k + 1, Rejoined(r, k, result))
    ensures k < 4 ==> Varint32Result(k, result, r) == Rejoined(r, k, result)
    ensures k == 4 && q > 0 ==> Rejoined(v, k, result) >= 0x1_0000_0000
  {
    PowersOf128(k);
    UnitFits(k);
    hide Power128;
    var unit := Power128(k);
    Distribute(v, q, r, unit);
    AtLeast(128, v, unit);
  }

  lemma Distribute(v: nat, q: nat, r: nat, unit: nat)
    requires v == 128 * q + r && r < 128
    ensures v * unit == r * unit + q * (128 * unit)
    ensures r * unit <= 127 * unit
  {
    assert v * unit == (128 * q) * unit + r * unit;
  }

  lemma AtLeast(a: nat, v: nat, unit: nat)
    ensures v >= a ==> v * unit >= a * unit
  {
  }

  // ---- scalars ----------------------------------------------------------------------------------------

  /** The cast of a signed integer to uint64_t, and the casts back. */
  function ToUnsigned(n: int): DoubleWord {
    n % TWO_TO_64
  }

  function ToSigned64(u: DoubleWord): int {
    if u < 0x8000_0000_0000_0000 then u else u - TWO_TO_64
  }

  function ToSigned32(u: DoubleWord): int {
    var low := u % 0x1_0000_0000;
    if low < 0x8000_0000 then low else low - 0x1_0000_0000
  }

  /** pb_encode_svarint: (uint64_t)value << 1, complemented if the value is negative. */
  function Zigzag(n: int): DoubleWord {
    var shifted := ToUnsigned(n) * 2 % TWO_TO_64;
    if n < 0 then TWO_TO_64 - 1 - shifted else shifted
  }

  function Unzigzag(u: DoubleWord): int {
    if u % 2 == 1 then ToSigned64(TWO_TO_64 - 1 - u / 2) else ToSigned64(u / 2)
  }

  /** 0, -1, 1, -2, ... become 0, 1, 2, 3, ... and come back. */
  lemma ZigzagRoundTrip(n: int)
    requires n < 0x8000_0000_0000_0000 && -n <= 0x8000_0000_0000_0000
    ensures Zigzag(n) == if n < 0 then -2 * n - 1 else 2 * n
    ensures Unzigzag(Zigzag(n)) == n
  {
    if n < 0 {
      assert ToUnsigned(n) == n + TWO_TO_64;
      assert (n + TWO_TO_64) * 2 % TWO_TO_64 == 2 * n + TWO_TO_64;
    }
  }

  lemma CastRoundTrip(n: int)
    ensures n < 0x8000_0000_0000_0000 && -n <= 0x8000_0000_0000_0000 ==> ToSigned64(ToUnsigned(n)) == n
    ensures n < 0x8000_0000 && -n <= 0x8000_0000 ==> ToSigned32(ToUnsigned(n)) == n
  {
    if n < 0x8000_0000_0000_0000 && -n <= 0x8000_0000_0000_0000 {
      assert ToUnsigned(n) == if n >= 0 then n else n + TWO_TO_64;
      if n < 0x8000_0000 && -n <= 0x8000_0000 {
        assert ToUnsigned(n) % 0x1_0000_0000 == if n >= 0 then n else n + 0x1_0000_0000;
      }
    }
  }

  /** pb_enc_bool to pb_enc_fixed64. */
  function EncodeNum(t: LType, size: nat, n: int): (r: Option<Bytes>)
    requires InRange(t, size, n)
  {
    match t
    case Bool => Some(EncodeVarint(if n != 0 then 1 else 0))
    case Varint => if IntSize(size) then Some(EncodeVarint(ToUnsigned(n))) else None
    case UVarint => if IntSize(size) then Some(EncodeVarint(n)) else None
    case SVarint => if IntSize(size) then Some(EncodeVarint(Zigzag(n))) else None
    case Fixed32 => Some(EncodeFixed32(n))
    case Fixed64 => Some(EncodeFixed64(n))
  }

  /** A value read, and how many bytes it took. */
  datatype Read = Read(n: int, size: nat)

  /** The value cast to the type of the field, unless the cast would change it. */
  function Clamped(t: LType, size: nat, n: int, taken: nat): (r: Option<Read>)
    ensures r.Some? ==> r.value == Read(n, taken) && InRange(t, size, n)
  {
    if IntSize(size) && InRange(t, size, n) then Some(Read(n, taken)) else None
  }

  /** The number that a varint stands for; a negative one of up to 32 bits may have come as 32 bits only. */
  function Received(t: LType, size: nat, u: DoubleWord): int {
    if t.UVarint? then u
    else if t.SVarint? then Unzigzag(u)
    else if size == 8 then ToSigned64(u)
    else ToSigned32(u)
  }

  /** pb_dec_bool to pb_dec_fixed64. */
  function DecodeNum(t: LType, size: nat, b: Bytes): (r: Option<Read>)
    requires Packable(t)
    ensures r.Some? ==> 0 < r.value.size <= |b| && InRange(t, size, r.value.n)
  {
    match t
    case Bool =>
      (match DecodeVarint32(b)
       case None => None
       case Some(p) => Some(Read(if p.value != 0 then 1 else 0, p.size)))
    case Fixed32 => if |b| >= 4 then Some(Read(DecodeFixed32(b[..4]), 4)) else None
    case Fixed64 => if |b| >= 8 then Some(Read(DecodeFixed64(b[..8]), 8)) else None
    case Varint | UVarint | SVarint =>
      match GetVarint64(b)
      case None => None
      case Some(p) => Clamped(t, size, Received(t, size, p.value), p.size)
  }

  lemma NumRoundTrip(t: LType, size: nat, n: int, rest: Bytes)
    requires InRange(t, size, n) && EncodeNum(t, size, n).Some?
    ensures var b := EncodeNum(t, size, n).value;
            b != [] && DecodeNum(t, size, b + rest) == Some(Read(n, |b|))
  {
    hide EncodeVarint, GetVarint64, DecodeVarint32, EncodeFixed32, EncodeFixed64, DecodeFixed32, DecodeFixed64, Zigzag,
      Unzigzag, ToSigned64, ToSigned32, ToUnsigned;
    match t
    case Bool => Varint32Inverse(n, rest);
    case Varint =>
      CastRoundTrip(n);
      Varint64RoundTrip(ToUnsigned(n), rest);
    case UVarint => Varint64RoundTrip(n, rest);
    case SVarint =>
      ZigzagRoundTrip(n);
      Varint64RoundTrip(Zigzag(n), rest);
    case Fixed32 =>
      DecodeEncodeFixed32(n);
      assert (EncodeFixed32(n) + rest)[..4] == EncodeFixed32(n);
    case Fixed64 =>
      DecodeEncodeFixed64(n);
      assert (EncodeFixed64(n) + rest)[..8] == EncodeFixed64(n);
  }
}
