/** The Bloom filter policy (util/bloom.cc), for any 32-bit hash function and any number of probes. */
module BloomFilters {
  import opened InternalKeys
  import opened Coding

  // ---- bits of bytes --------------------------------------------------------------------------------------

  /** ((b >> k) & 1) != 0 */
  predicate BitOf(b: nat, k: nat) {
    if k == 0 then b % 2 == 1 else BitOf(b / 2, k - 1)
  }

  /** b | (1 << k) */
  function WithBit(b: nat, k: nat): nat {
    if k == 0 then b / 2 * 2 + 1 else b % 2 + 2 * WithBit(b / 2, k - 1)
  }

  lemma {:induction false} WithBitSets(b: nat, k: nat, j: nat)
    ensures BitOf(WithBit(b, k), j) <==> BitOf(b, j) || j == k
  {
    if k > 0 {
      assert WithBit(b, k) / 2 == WithBit(b / 2, k - 1) && WithBit(b, k) % 2 == b % 2;
      if j > 0 {
        WithBitSets(b / 2, k - 1, j - 1);
      }
    } else {
      assert WithBit(b, 0) / 2 == b / 2;
    }
  }

  function PowerOf2(n: nat): (r: nat)
    ensures r > 0
  {
    if n == 0 then 1 else 2 * PowerOf2(n - 1)
  }

  lemma {:induction false} WithBitFits(b: nat, k: nat, n: nat)
    requires k < n && b < PowerOf2(n)
    ensures WithBit(b, k) < PowerOf2(n)
  {
    if k > 0 {
      WithBitFits(b / 2, k - 1, n - 1);
    }
  }

  lemma {:induction false} ZeroHasNoBits(k: nat)
    ensures !BitOf(0, k)
  {
    if k > 0 {
      ZeroHasNoBits(k - 1);
    }
  }

  // ---- bit arrays -------------------------------------------------------------------------------------------

  predicate BitAt(bits: Bytes, p: nat)
    requires p / 8 < |bits|
  {
    BitOf(bits[p / 8], p % 8)
  }

  /** array[bitpos / 8] |= 1 << (bitpos % 8) */
  function SetBitAt(bits: Bytes, p: nat): (r: Bytes)
    requires p / 8 < |bits|
    ensures |r| == |bits|
  {
    WithBitFits(bits[p / 8], p % 8, 8);
    assert PowerOf2(8) == 256;
    bits[p / 8 := WithBit(bits[p / 8], p % 8)]
  }

  lemma SetBitAtSets(bits: Bytes, p: nat, q: nat)
    requires p / 8 < |bits| && q / 8 < |bits|
    ensures BitAt(SetBitAt(bits, p), q) <==> BitAt(bits, q) || q == p
  {
    if p / 8 == q / 8 {
      WithBitSets(bits[p / 8], p % 8, q % 8);
    }
  }

  // ---- probes -----------------------------------------------------------------------------------------------

  type Hash = Bytes -> Word

  /** (h >> 17) | (h << 15) in 32 bits. */
  function Delta(h: Word): Word {
    h / 0x2_0000 + h % 0x2_0000 * 0x8000
  }

  /** The j-th probe of a key with hash h. */
  function Probe(h: Word, j: nat): Word {
    if j == 0 then h else (Probe(h, j - 1) + Delta(h)) % 0x1_0000_0000
  }

  /** The bit that it looks at. */
  function ProbeBit(h: Word, j: nat, bits: nat): (p: nat)
    requires bits > 0
    ensures p < bits
  {
    Probe(h, j) % bits
  }

  ghost predicate Probes(h: Word, k: nat, bits: nat, p: nat)
    requires bits > 0
  {
    exists j: nat :: j < k && ProbeBit(h, j, bits) == p
  }

  /** A bit that one of the keys asks for. */
  ghost predicate Asked(hash: Hash, k: nat, bits: nat, keys: seq<Bytes>, p: nat)
    requires bits > 0
  {
    exists key :: key in keys && Probes(hash(key), k, bits, p)
  }

  /** The size of a filter in bytes: at least 64 bits. */
  function SizeFor(n: nat, bitsPerKey: nat): (r: nat)
    ensures r >= 8 && r * 8 >= n * bitsPerKey
  {
    var bits := if n * bitsPerKey < 64 then 64 else n * bitsPerKey;
    (bits + 7) / 8
  }

  /** The first j probes of a hash value. */
  function WithProbes(bits: Bytes, h: Word, j: nat): (r: Bytes)
    requires bits != []
    ensures |r| == |bits|
  {
    if j == 0 then bits else SetBitAt(WithProbes(bits, h, j - 1), ProbeBit(h, j - 1, 8 * |bits|))
  }

  /** All probes of the first n keys. */
  function WithKeys(hash: Hash, k: nat, keys: seq<Bytes>, n: nat, bits: Bytes): (r: Bytes)
    requires bits != [] && n <= |keys|
    ensures |r| == |bits|
  {
    if n == 0 then bits else WithProbes(WithKeys(hash, k, keys, n - 1, bits), hash(keys[n - 1]), k)
  }

  /** The filter for the keys: the bits, and then the number of probes. */
  function Filter(hash: Hash, k: nat, bitsPerKey: nat, keys: seq<Bytes>): (r: Bytes)
    requires k <= 30
    ensures |r| == SizeFor(|keys|, bitsPerKey) + 1 && r[|r| - 1] == k
  {
    WithKeys(hash, k, keys, |keys|, Zeros(SizeFor(|keys|, bitsPerKey))) + [k]
  }

  class BloomFilterPolicy {
    const hash: Hash
    const bitsPerKey: nat
    const k: nat

    /** `probes` is 0.69 of the bits per key, rounded down. */
    constructor (hash: Hash, bitsPerKey: nat, probes: nat)
      ensures this.hash == hash && this.bitsPerKey == bitsPerKey
      ensures k == if probes < 1 then 1 else if probes > 30 then 30 else probes
    {
      this.hash, this.bitsPerKey := hash, bitsPerKey;
      k := if probes < 1 then 1 else if probes > 30 then 30 else probes;
    }

    method CreateFilter(keys: seq<Bytes>, dst: Bytes) returns (out: Bytes)
      requires k <= 30
      ensures out == dst + Filter(hash, k, bitsPerKey, keys)
    {
      hide Probe, Delta, SetBitAt;
      var bits := |keys| * bitsPerKey;
      if bits < 64 {
        bits := 64;
      }
      var bytes := (bits + 7) / 8;
      bits := bytes * 8;
      var filter := Zeros(bytes);
      for i := 0 to |keys|
        invariant |filter| == bytes && filter == WithKeys(hash, k, keys, i, Zeros(bytes))
      {
        ghost var start := filter;
        var h: Word := hash(keys[i]);
        var delta := Delta(h);
        FirstProbe(h);
        for j := 0 to k
          invariant |filter| == bytes && filter == WithProbes(start, hash(keys[i]), j) && h == Probe(hash(keys[i]), j)
        {
          var bitpos := h % bits;
          filter := SetBitAt(filter, bitpos);
          NextProbe(hash(keys[i]), j);
          h := (h + delta) % 0x1_0000_0000;
        }
      }
      out := dst + (filter + [k]);
    }

    method KeyMayMatch(key: Bytes, filter: Bytes) returns (r: bool)
      ensures r == MayMatch(hash, key, filter)
    {
      hide Probe, Delta, BitAt;
      var len := |filter|;
      if len < 2 {
        return false;
      }
      var bits := (len - 1) * 8;
      var probes: nat := filter[len - 1];
      if probes > 30 {
        return true;
      }
      var h: Word := hash(key);
      var delta := Delta(h);
      FirstProbe(h);
      for j := 0 to probes
        invariant h == Probe(hash(key), j)
        invariant AllHit(filter, hash(key), j, bits)
      {
        var bitpos := h % bits;
        assert Hits(filter, hash(key), j, bits) == BitAt(filter, bitpos);
        if !BitAt(filter, bitpos) {
          return false;
        }
        NextProbe(hash(key), j);
        h := (h + delta) % 0x1_0000_0000;
      }
      r := true;
    }
  }

  ghost predicate Hits(filter: Bytes, h: Word, j: nat, bits: nat)
    requires 0 < bits <= 8 * |filter|
  {
    BitAt(filter, ProbeBit(h, j, bits))
  }

  ghost predicate AllHit(filter: Bytes, h: Word, k: nat, bits: nat)
    requires 0 < bits <= 8 * |filter|
  {
    forall j: nat :: j < k ==> Hits(filter, h, j, bits)
  }

  /** What KeyMayMatch answers: every probe of the key hits, for as many probes as the filter says. */
  ghost predicate MayMatch(hash: Hash, key: Bytes, filter: Bytes) {
    var n := |filter| - 1;
    n >= 1 && (filter[n] > 30 || AllHit(filter, hash(key), filter[n], 8 * n))
  }

  lemma FirstProbe(h: Word)
    ensures Probe(h, 0) == h
  {
  }

  lemma NextProbe(h: Word, j: nat)
    ensures Probe(h, j + 1) == (Probe(h, j) + Delta(h)) % 0x1_0000_0000
  {
  }

  lemma {:induction false} ProbesSet(bits: Bytes, h: Word, j: nat, p: nat)
    requires p < 8 * |bits|
    ensures BitAt(WithProbes(bits, h, j), p)
            <==> BitAt(bits, p) || Probes(h, j, 8 * |bits|, p)
  {
    hide BitAt, SetBitAt, ProbeBit;
    if j > 0 {
      ProbesSet(bits, h, j - 1, p);
      SetBitAtSets(WithProbes(bits, h, j - 1), ProbeBit(h, j - 1, 8 * |bits|), p);
      OneMoreProbe(h, j - 1, 8 * |bits|, p);
    }
  }

  /** Exactly the bits that the keys ask for are set. */
  lemma {:induction false} KeysSet(hash: Hash, k: nat, keys: seq<Bytes>, n: nat, size: nat, p: nat)
    requires n <= |keys| && p < 8 * size
    ensures BitAt(WithKeys(hash, k, keys, n, Zeros(size)), p) <==> Asked(hash, k, 8 * size, keys[..n], p)
  {
    hide BitAt, WithProbes, Asked, Probes;
    if n == 0 {
      NobodyAsks(hash, k, size, p);
      assert keys[..0] == [];
    } else {
      KeysSet(hash, k, keys, n - 1, size, p);
      ProbesSet(WithKeys(hash, k, keys, n - 1, Zeros(size)), hash(keys[n - 1]), k, p);
      AskedByOneMore(hash, k, 8 * size, keys[..n - 1], keys[n - 1], p);
      assert keys[..n - 1] + [keys[n - 1]] == keys[..n];
    }
  }

  lemma NobodyAsks(hash: Hash, k: nat, size: nat, p: nat)
    requires p < 8 * size
    ensures !BitAt(Zeros(size), p) && !Asked(hash, k, 8 * size, [], p)
  {
    ZeroHasNoBits(p % 8);
  }

  lemma OneMoreProbe(h: Word, j: nat, bits: nat, p: nat)
    requires bits > 0
    ensures Probes(h, j + 1, bits, p) <==> Probes(h, j, bits, p) || ProbeBit(h, j, bits) == p
  {
    hide ProbeBit;
    if ProbeBit(h, j, bits) == p {
      assert j < j + 1;
    }
  }

  lemma AskedByOneMore(hash: Hash, k: nat, bits: nat, keys: seq<Bytes>, key: Bytes, p: nat)
    requires bits > 0
    ensures Asked(hash, k, bits, keys + [key], p) <==> Asked(hash, k, bits, keys, p) || Probes(hash(key), k, bits, p)
  {
    hide Probes;
    if Asked(hash, k, bits, keys, p) {
      var key' :| key' in keys && Probes(hash(key'), k, bits, p);
      assert key' in keys + [key];
    }
    if Probes(hash(key), k, bits, p) {
      assert key in keys + [key];
    }
  }

  /** Every bit that the key looks at is one that the keys ask for. */
  ghost predicate AllAsked(hash: Hash, k: nat, bits: nat, keys: seq<Bytes>, key: Bytes)
    requires bits > 0
  {
    forall j: nat :: j < k ==> Asked(hash, k, bits, keys, ProbeBit(hash(key), j, bits))
  }

  /** A key may match exactly if all its probes are among those of the keys; so a filter never loses a key. */
  lemma FilterMatches(hash: Hash, k: nat, bitsPerKey: nat, keys: seq<Bytes>, key: Bytes)
    requires k <= 30
    ensures MayMatch(hash, key, Filter(hash, k, bitsPerKey, keys))
            <==> AllAsked(hash, k, 8 * SizeFor(|keys|, bitsPerKey), keys, key)
    ensures key in keys ==> MayMatch(hash, key, Filter(hash, k, bitsPerKey, keys))
  {
    hide ProbeBit, BitAt, SizeFor, WithKeys, Zeros, Asked;
    var size, filter, h := SizeFor(|keys|, bitsPerKey), Filter(hash, k, bitsPerKey, keys), hash(key);
    forall j: nat | j < k
      ensures Hits(filter, h, j, 8 * size) <==> Asked(hash, k, 8 * size, keys, ProbeBit(h, j, 8 * size))
      ensures key in keys ==> Asked(hash, k, 8 * size, keys, ProbeBit(h, j, 8 * size))
    {
      var p := ProbeBit(h, j, 8 * size);
      KeysSet(hash, k, keys, |keys|, size, p);
      assert keys[..|keys|] == keys;
      SameBit(WithKeys(hash, k, keys, |keys|, Zeros(size)), k, p);
      if key in keys {
        AskedByKey(hash, k, 8 * size, keys, key, j);
      }
    }
  }

  lemma AskedByKey(hash: Hash, k: nat, bits: nat, keys: seq<Bytes>, key: Bytes, j: nat)
    requires bits > 0 && key in keys && j < k
    ensures Asked(hash, k, bits, keys, ProbeBit(hash(key), j, bits))
  {
    assert Probes(hash(key), k, bits, ProbeBit(hash(key), j, bits));
  }

  lemma SameBit(bits: Bytes, last: Byte, p: nat)
    requires p < 8 * |bits|
    ensures BitAt(bits + [last], p) == BitAt(bits, p)
  {
  }
}
