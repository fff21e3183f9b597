/** The log file format (db/log_format.h): records are cut into fragments that never cross a
  * 32 KB block, each with a 7-byte header of masked checksum, length and type.
  */
module LogFormat {
  import opened InternalKeys
  import opened Coding

  const BLOCK_SIZE: nat := 32768
  const HEADER_SIZE: nat := 7

  const ZERO_TYPE: nat := 0
  const FULL_TYPE: nat := 1
  const FIRST_TYPE: nat := 2
  const MIDDLE_TYPE: nat := 3
  const LAST_TYPE: nat := 4

  /** crc32c::Extend, about which only the streaming law is used. */
  type Crc = (Word, Bytes) -> Word

  ghost predicate Streams(crc: Crc) {
    forall w, a, b :: crc(crc(w, a), b) == crc(w, a + b)
  }

  // ---- checksum masking ------------------------------------------------

  const MASK_DELTA: Word := 0xa282ead8

  function RotateRight15(w: Word): Word {
    w / 0x8000 + (w % 0x8000) * 0x2_0000
  }

  function RotateLeft15(w: Word): Word {
    w / 0x2_0000 + (w % 0x2_0000) * 0x8000
  }

  function Mask(crc: Word): Word {
    (RotateRight15(crc) + MASK_DELTA) % 0x1_0000_0000
  }

  function Unmask(masked: Word): Word {
    RotateLeft15((masked + 0x1_0000_0000 - MASK_DELTA) % 0x1_0000_0000)
  }

  lemma RotateBack(w: Word)
    ensures RotateLeft15(RotateRight15(w)) == w
  {
    var q, r := w / 0x8000, w % 0x8000;
    assert q < 0x2_0000;
    var rot := q + r * 0x2_0000;
    assert rot / 0x2_0000 == r && rot % 0x2_0000 == q;
  }

  lemma UnmaskMask(crc: Word)
    ensures Unmask(Mask(crc)) == crc
  {
    hide RotateRight15, RotateLeft15;
    RotateBack(crc);
    var rot := RotateRight15(crc);
    assert if rot + MASK_DELTA < 0x1_0000_0000 then Mask(crc) == rot + MASK_DELTA
           else Mask(crc) == rot + MASK_DELTA - 0x1_0000_0000;
    assert (Mask(crc) + 0x1_0000_0000 - MASK_DELTA) % 0x1_0000_0000 == rot;
  }

  // ---- fragments ----------------------------------------------------------------------------------

  datatype Fragment = Fragment(kind: Byte, payload: Bytes)

  /** The header EmitPhysicalRecord writes: the checksum covers the type byte and the payload. */
  function Header(crc: Crc, f: Fragment): (r: Bytes)
    requires |f.payload| < 0x1_0000
    ensures |r| == HEADER_SIZE
  {
    EncodeFixed32(Mask(crc(0, [f.kind] + f.payload))) + [|f.payload| % 256, |f.payload| / 256, f.kind]
  }

  /** Too little room for a header at this block offset: the rest of the block is a trailer. */
  function Trailer(off: nat): nat
    requires off <= BLOCK_SIZE
  {
    if BLOCK_SIZE - off < HEADER_SIZE then BLOCK_SIZE - off else 0
  }

  /** Where the next header goes, as a block offset. */
  function StartOffset(off: nat): (s: nat)
    requires off <= BLOCK_SIZE
    ensures s + HEADER_SIZE <= BLOCK_SIZE
  {
    if BLOCK_SIZE - off < HEADER_SIZE then 0 else off
  }

  predicate Fits(off: nat, f: Fragment) {
    && off <= BLOCK_SIZE
    && StartOffset(off) + HEADER_SIZE + |f.payload| <= BLOCK_SIZE
    && FULL_TYPE <= f.kind <= LAST_TYPE
  }

  function EndOffset(off: nat, f: Fragment): (e: nat)
    requires Fits(off, f)
    ensures e <= BLOCK_SIZE
  {
    StartOffset(off) + HEADER_SIZE + |f.payload|
  }

  /** The bytes that put one fragment after block offset off. */
  function FragmentBytes(crc: Crc, off: nat, f: Fragment): (r: Bytes)
    requires Fits(off, f)
    ensures |r| == Trailer(off) + HEADER_SIZE + |f.payload|
  {
    Zeros(Trailer(off)) + Header(crc, f) + f.payload
  }

  ghost predicate AllFit(off: nat, fs: seq<Fragment>)
    decreases |fs|
  {
    fs == [] || (Fits(off, fs[0]) && AllFit(EndOffset(off, fs[0]), fs[1..]))
  }

  ghost function OffsetAfter(off: nat, fs: seq<Fragment>): (e: nat)
    requires AllFit(off, fs) && off <= BLOCK_SIZE
    ensures e <= BLOCK_SIZE
    decreases |fs|
  {
    if fs == [] then off else OffsetAfter(EndOffset(off, fs[0]), fs[1..])
  }

  ghost function Layout(crc: Crc, off: nat, fs: seq<Fragment>): Bytes
    requires AllFit(off, fs)
    decreases |fs|
  {
    if fs == [] then [] else FragmentBytes(crc, off, fs[0]) + Layout(crc, EndOffset(off, fs[0]), fs[1..])
  }

  lemma {:induction false} LayoutAppends(crc: Crc, off: nat, a: seq<Fragment>, b: seq<Fragment>)
    requires off <= BLOCK_SIZE && AllFit(off, a) && AllFit(OffsetAfter(off, a), b)
    ensures AllFit(off, a + b)
    ensures Layout(crc, off, a + b) == Layout(crc, off, a) + Layout(crc, OffsetAfter(off, a), b)
    decreases |a|
  {
    if a == [] {
      assert a + b == b;
    } else {
      hide FragmentBytes, Fits;
      var off' := EndOffset(off, a[0]);
      LayoutAppends(crc, off', a[1..], b);
      FitsAppends(off, a, b);
      assert (a + b)[1..] == a[1..] + b && (a + b)[0] == a[0];
      var first := FragmentBytes(crc, off, a[0]);
      assert first + (Layout(crc, off', a[1..]) + Layout(crc, OffsetAfter(off', a[1..]), b))
          == (first + Layout(crc, off', a[1..])) + Layout(crc, OffsetAfter(off', a[1..]), b);
    }
  }

  function FragmentType(begin: bool, end: bool): Byte {
    if begin && end then FULL_TYPE
    else if begin then FIRST_TYPE
    else if end then LAST_TYPE
    else MIDDLE_TYPE
  }

  /** How much of a record's remaining bytes the next fragment takes. */
  function FragmentLength(off: nat, left: nat): (n: nat)
    requires off <= BLOCK_SIZE
    ensures n <= left && StartOffset(off) + HEADER_SIZE + n <= BLOCK_SIZE
    ensures n == 0 && left > 0 ==> StartOffset(off) == BLOCK_SIZE - HEADER_SIZE
  {
    var avail := BLOCK_SIZE - StartOffset(off) - HEADER_SIZE;
    if left < avail then left else avail
  }

  /** The fragments of a record, or of what is left of it. */
  ghost function Fragments(off: nat, left: Bytes, begin: bool): (fs: seq<Fragment>)
    requires off <= BLOCK_SIZE
    ensures fs != [] && AllFit(off, fs)
    decreases |left|, StartOffset(off)
  {
    var n := FragmentLength(off, |left|);
    var f := Fragment(FragmentType(begin, n == |left|), left[..n]);
    if n == |left| then [f] else [f] + Fragments(EndOffset(off, f), left[n..], false)
  }

  /** The fragments of a whole sequence of records. */
  ghost function LogFragments(off: nat, records: seq<Bytes>): (fs: seq<Fragment>)
    requires off <= BLOCK_SIZE
    ensures AllFit(off, fs)
    decreases |records|
  {
    if records == [] then []
    else
      var fs := Fragments(off, records[0], true);
      var rest := LogFragments(OffsetAfter(off, fs), records[1..]);
      FitsAppends(off, fs, rest);
      fs + rest
  }

  lemma {:induction false} FitsAppends(off: nat, a: seq<Fragment>, b: seq<Fragment>)
    requires off <= BLOCK_SIZE && AllFit(off, a) && AllFit(OffsetAfter(off, a), b)
    ensures AllFit(off, a + b)
    decreases |a|
  {
    if a == [] {
      assert a + b == b;
    } else {
      FitsAppends(EndOffset(off, a[0]), a[1..], b);
      assert (a + b)[1..] == a[1..] + b;
    }
  }
}
