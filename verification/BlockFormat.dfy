/** The block format (table/block_builder.cc, table/block.cc): entries share prefixes with the entry
  * before, except at restart points; the offsets of the restart points follow the entries.
  */
module BlockFormat {
  import opened InternalKeys
  import opened Coding

  datatype KeyValue = KeyValue(key: Bytes, value: Bytes)

  function CommonPrefix(a: Bytes, b: Bytes): (n: nat)
    ensures n <= |a| && n <= |b| && a[..n] == b[..n]
    ensures n < |a| && n < |b| ==> a[n] != b[n]
  {
    if a == [] || b == [] || a[0] != b[0] then 0
    else
      var n := 1 + CommonPrefix(a[1..], b[1..]);
      assert a[..n] == [a[0]] + a[1..][..n - 1] && b[..n] == [b[0]] + b[1..][..n - 1];
      n
  }

  /** How many entries there are since the last restart point, that one included. */
  function Counter(interval: nat, n: nat): (c: nat)
    requires interval > 0
    ensures c <= interval && (c == 0 <==> n == 0)
  {
    if n == 0 then 0
    else if Counter(interval, n - 1) < interval then Counter(interval, n - 1) + 1
    else 1
  }

  /** Entry i starts afresh: it is the first of all, or the interval is used up. */
  predicate IsRestart(interval: nat, i: nat)
    requires interval > 0
  {
    i == 0 || Counter(interval, i) == interval
  }

  function Shared(es: seq<KeyValue>, interval: nat, i: nat): (n: nat)
    requires i < |es| && interval > 0
    ensures n <= |es[i].key| && (n > 0 ==> i > 0 && n <= |es[i - 1].key| && es[i].key[..n] == es[i - 1].key[..n])
  {
    if IsRestart(interval, i) then 0 else CommonPrefix(es[i - 1].key, es[i].key)
  }

  function EntryHeader(shared: nat, nonShared: nat, valueLength: nat): (r: Bytes)
    ensures |r| >= 3
  {
    EncodeVarint(shared) + EncodeVarint(nonShared) + EncodeVarint(valueLength)
  }

  function EntryBytes(es: seq<KeyValue>, interval: nat, i: nat): (r: Bytes)
    requires i < |es| && interval > 0
    ensures |r| >= 3 + |es[i].value|
  {
    var n := Shared(es, interval, i);
    EntryHeader(n, |es[i].key| - n, |es[i].value|) + es[i].key[n..] + es[i].value
  }

  /** The first n entries. */
  function Data(es: seq<KeyValue>, interval: nat, n: nat): Bytes
    requires n <= |es| && interval > 0
  {
    if n == 0 then [] else Data(es, interval, n - 1) + EntryBytes(es, interval, n - 1)
  }

  function Offset(es: seq<KeyValue>, interval: nat, i: nat): nat
    requires i <= |es| && interval > 0
  {
    |Data(es, interval, i)|
  }

  /** The entries at restart points; the block starts with one even if it is empty. */
  function RestartEntries(interval: nat, n: nat): (r: seq<nat>)
    requires interval > 0
    ensures r != [] && r[0] == 0
    ensures forall k :: 0 <= k < |r| ==> IsRestart(interval, r[k]) && r[k] <= n && (n > 0 ==> r[k] < n)
    ensures forall k, l :: 0 <= k < l < |r| ==> r[k] < r[l]
  {
    if n <= 1 then [0]
    else if IsRestart(interval, n - 1) then RestartEntries(interval, n - 1) + [n - 1]
    else RestartEntries(interval, n - 1)
  }

  function RestartBytes(restarts: seq<Word>): (r: Bytes)
    ensures |r| == 4 * |restarts|
  {
    if restarts == [] then []
    else RestartBytes(restarts[..|restarts| - 1]) + EncodeFixed32(restarts[|restarts| - 1])
  }

  /** Sizes that the format's 32-bit numbers can express. */
  ghost predicate FitsIn32Bits(es: seq<KeyValue>, interval: nat)
    requires interval > 0
  {
    Offset(es, interval, |es|) + 4 * |RestartEntries(interval, |es|)| + 4 < 0x1_0000_0000
  }

  ghost function Restarts(es: seq<KeyValue>, interval: nat): (r: seq<Word>)
    requires interval > 0 && Offset(es, interval, |es|) < 0x1_0000_0000
    ensures |r| == |RestartEntries(interval, |es|)|
    ensures forall k :: 0 <= k < |r| ==> r[k] == RestartOffset(es, interval, k)
  {
    seq(|RestartEntries(interval, |es|)|, k requires 0 <= k < |RestartEntries(interval, |es|)| =>
      RestartOffset(es, interval, k))
  }

  ghost function RestartOffset(es: seq<KeyValue>, interval: nat, k: nat): Word
    requires interval > 0 && Offset(es, interval, |es|) < 0x1_0000_0000
    requires k < |RestartEntries(interval, |es|)|
  {
    var i := RestartEntries(interval, |es|)[k];
    DataGrows(es, interval, i, |es|);
    Offset(es, interval, i)
  }

  ghost function BlockOf(es: seq<KeyValue>, interval: nat): Bytes
    requires interval > 0 && FitsIn32Bits(es, interval)
  {
    var restarts := Restarts(es, interval);
    Data(es, interval, |es|) + RestartBytes(restarts) + EncodeFixed32(|restarts|)
  }

  lemma {:induction false} DataGrows(es: seq<KeyValue>, interval: nat, i: nat, j: nat)
    requires i <= j <= |es| && interval > 0
    ensures Data(es, interval, i) <= Data(es, interval, j)
    ensures Offset(es, interval, j) >= Offset(es, interval, i) + 3 * (j - i)
    decreases j
  {
    hide EntryBytes;
    if i < j {
      DataGrows(es, interval, i, j - 1);
      assert Data(es, interval, j) == Data(es, interval, j - 1) + EntryBytes(es, interval, j - 1);
    }
  }

  /** The entries before do not depend on the ones after. */
  lemma {:induction false} DataOfPrefix(es: seq<KeyValue>, more: seq<KeyValue>, interval: nat, n: nat)
    requires n <= |es| && interval > 0
    ensures Data(es + more, interval, n) == Data(es, interval, n)
  {
    hide EntryBytes, Data;
    if n == 0 {
      DataStarts(es, interval);
      DataStarts(es + more, interval);
    } else {
      EntryOfPrefix(es, more, interval, n - 1);
      DataEnds(es, interval, n);
      DataEnds(es + more, interval, n);
      DataOfPrefix(es, more, interval, n - 1);
    }
  }

  lemma DataStarts(es: seq<KeyValue>, interval: nat)
    requires interval > 0
    ensures Data(es, interval, 0) == []
  {
  }

  lemma DataEnds(es: seq<KeyValue>, interval: nat, n: nat)
    requires 0 < n <= |es| && interval > 0
    ensures Data(es, interval, n) == Data(es, interval, n - 1) + EntryBytes(es, interval, n - 1)
  {
  }

  lemma EntryOfPrefix(es: seq<KeyValue>, more: seq<KeyValue>, interval: nat, i: nat)
    requires i < |es| && interval > 0
    ensures EntryBytes(es + more, interval, i) == EntryBytes(es, interval, i)
  {
    hide EntryHeader, CommonPrefix;
    assert (es + more)[i] == es[i];
    assert i > 0 ==> (es + more)[i - 1] == es[i - 1];
  }

  // ---- decoding an entry ----------------------------------------------------------------------------

  datatype EntryHead = EntryHead(shared: nat, nonShared: nat, valueLength: nat, size: nat)

  /** DecodeEntry, on the bytes from p up to the limit. */
  function DecodeEntry(b: Bytes): (r: Option<EntryHead>)
    ensures r.Some? ==> r.value.size <= |b|
  {
    if |b| < 3 then None
    else if b[0] < 128 && b[1] < 128 && b[2] < 128 then CheckLength(b, EntryHead(b[0], b[1], b[2], 3))
    else
      match GetVarint32(b)
      case None => None
      case Some(shared) =>
        (match GetVarint32(b[shared.size..])
         case None => None
         case Some(nonShared) =>
           var p := shared.size + nonShared.size;
           (match GetVarint32(b[p..])
            case None => None
            case Some(valueLength) =>
              CheckLength(b, EntryHead(shared.value, nonShared.value, valueLength.value, p + valueLength.size))))
  }

  /** The comparison is done in 32 bits. */
  function CheckLength(b: Bytes, h: EntryHead): (r: Option<EntryHead>)
    requires h.size <= |b|
    ensures r.Some? ==> r.value == h
  {
    if |b| - h.size < (h.nonShared + h.valueLength) % 0x1_0000_0000 then None else Some(h)
  }

  lemma SmallVarint(v: nat)
    ensures v < 128 ==> EncodeVarint(v) == [v]
    ensures v >= 128 ==> EncodeVarint(v)[0] >= 128
  {
  }

  /** The lengths are read back, if there are as many bytes as they say, and refused otherwise. */
  lemma DecodeHeader(shared: nat, nonShared: nat, valueLength: nat, body: Bytes)
    requires shared < 0x1_0000_0000 && nonShared + valueLength < 0x1_0000_0000
    ensures var header := EntryHeader(shared, nonShared, valueLength);
            DecodeEntry(header + body)
            == if |body| >= nonShared + valueLength then Some(EntryHead(shared, nonShared, valueLength, |header|)) else None
  {
    hide EncodeVarint, GetVarint32, CheckLength, DecodeEntry;
    var header := EntryHeader(shared, nonShared, valueLength);
    var h := EntryHead(shared, nonShared, valueLength, |header|);
    IsLongEnough(header + body, h);
    SmallVarint(shared);
    SmallVarint(nonShared);
    SmallVarint(valueLength);
    if shared < 128 && nonShared < 128 && valueLength < 128 {
      OneByteEach(header + body);
    } else {
      ThreeVarints(shared, nonShared, valueLength, body);
    }
  }

  lemma IsLongEnough(b: Bytes, h: EntryHead)
    requires h.size <= |b| && h.nonShared + h.valueLength < 0x1_0000_0000
    ensures CheckLength(b, h) == if h.size + h.nonShared + h.valueLength <= |b| then Some(h) else None
  {
  }

  lemma OneByteEach(b: Bytes)
    requires |b| >= 3 && b[0] < 128 && b[1] < 128 && b[2] < 128
    ensures DecodeEntry(b) == CheckLength(b, EntryHead(b[0], b[1], b[2], 3))
  {
  }

  lemma ThreeVarints(shared: nat, nonShared: nat, valueLength: nat, body: Bytes)
    requires shared < 0x1_0000_0000 && nonShared < 0x1_0000_0000 && valueLength < 0x1_0000_0000
    requires shared >= 128 || nonShared >= 128 || valueLength >= 128
    ensures var header := EntryHeader(shared, nonShared, valueLength);
            DecodeEntry(header + body)
            == CheckLength(header + body, EntryHead(shared, nonShared, valueLength, |header|))
  {
    hide EncodeVarint, GetVarint32, CheckLength;
    var x, y, z := EncodeVarint(shared), EncodeVarint(nonShared), EncodeVarint(valueLength);
    SmallVarint(shared);
    SmallVarint(nonShared);
    SmallVarint(valueLength);
    ThreeParts(x, y, z, body);
    Varint32RoundTrip(shared, y + z + body);
    Varint32RoundTrip(nonShared, z + body);
    Varint32RoundTrip(valueLength, body);
  }

  lemma ThreeParts(x: Bytes, y: Bytes, z: Bytes, body: Bytes)
    ensures var b := x + y + z + body;
            b == x + (y + z + body) && b[|x|..] == y + (z + body) == y + z + body && b[|x| + |y|..] == z + body
  {
  }
}
