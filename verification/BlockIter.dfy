/** Moving through a block (table/block.cc). */
module BlockIters {
  import opened InternalKeys
  import opened Coding
  import opened BlockFormat

  type Comparator = (Bytes, Bytes) -> int

  ghost predicate Transitive(cmp: Comparator) {
    forall a, b, c {:trigger cmp(a, b), cmp(b, c)} :: cmp(a, b) < 0 && cmp(b, c) < 0 ==> cmp(a, c) < 0
  }

  ghost predicate Ascends(cmp: Comparator, es: seq<KeyValue>) {
    forall i, j :: 0 <= i < j < |es| ==> cmp(es[i].key, es[j].key) < 0
  }

  // ---- what lies where in a block ---------------------------------------------------------------------

  lemma OffsetsAscend(es: seq<KeyValue>, interval: nat, i: nat, j: nat)
    requires i <= |es| && j <= |es| && interval > 0
    ensures i < j <==> Offset(es, interval, i) < Offset(es, interval, j)
  {
    if i <= j {
      DataGrows(es, interval, i, j);
    } else {
      DataGrows(es, interval, j, i);
    }
  }

  /** Entry i, cut out of the block. */
  lemma EntryAt(es: seq<KeyValue>, interval: nat, i: nat)
    requires interval > 0 && i < |es|
    ensures Offset(es, interval, i) <= Offset(es, interval, i + 1) <= Offset(es, interval, |es|)
    ensures var data := Data(es, interval, |es|);
            data[Offset(es, interval, i)..] == EntryBytes(es, interval, i) + data[Offset(es, interval, i + 1)..]
    ensures Offset(es, interval, i + 1) == Offset(es, interval, i) + |EntryBytes(es, interval, i)|
  {
    hide EntryBytes;
    var data := Data(es, interval, |es|);
    DataGrows(es, interval, i, i + 1);
    DataGrows(es, interval, i + 1, |es|);
    assert data == data[..Offset(es, interval, i + 1)] + data[Offset(es, interval, i + 1)..];
    assert Data(es, interval, i + 1) == Data(es, interval, i) + EntryBytes(es, interval, i);
  }

  /** A shared prefix lies spelled out further up, so keys are no longer than the block. */
  lemma {:induction false} KeyFits(es: seq<KeyValue>, interval: nat, i: nat)
    requires interval > 0 && i < |es|
    ensures |es[i].key| <= Offset(es, interval, i + 1)
    decreases i
  {
    hide EntryHeader;
    if Shared(es, interval, i) > 0 {
      KeyFits(es, interval, i - 1);
    }
    assert Data(es, interval, i + 1) == Data(es, interval, i) + EntryBytes(es, interval, i);
  }

  datatype EntryPlace = EntryPlace(head: EntryHead, keyStart: nat, valueStart: nat)

  ghost function PlaceOf(es: seq<KeyValue>, interval: nat, i: nat): EntryPlace
    requires interval > 0 && i < |es|
  {
    var n := Shared(es, interval, i);
    var header := EntryHeader(n, |es[i].key| - n, |es[i].value|);
    var start := Offset(es, interval, i) + |header|;
    EntryPlace(EntryHead(n, |es[i].key| - n, |es[i].value|, |header|), start, start + |es[i].key| - n)
  }

  /** Decoding at the offset of entry i finds its parts. */
  lemma DecodeAt(es: seq<KeyValue>, interval: nat, i: nat)
    requires interval > 0 && FitsIn32Bits(es, interval) && i < |es|
    ensures Offset(es, interval, i) <= Offset(es, interval, |es|) <= |BlockOf(es, interval)|
    ensures var data := BlockOf(es, interval);
            var p := PlaceOf(es, interval, i);
            && DecodeEntry(data[Offset(es, interval, i)..Offset(es, interval, |es|)]) == Some(p.head)
            && p.valueStart + |es[i].value| == Offset(es, interval, i + 1) <= Offset(es, interval, |es|)
            && data[p.keyStart..p.valueStart] == es[i].key[p.head.shared..]
            && data[p.valueStart..p.valueStart + |es[i].value|] == es[i].value
  {
    hide EntryHeader, DecodeEntry, RestartBytes, Data, Restarts;
    BlockFits(es, interval);
    EntryAt(es, interval, i);
    var n := Shared(es, interval, i);
    var key, value := es[i].key[n..], es[i].value;
    var data := Data(es, interval, |es|);
    var from, to := Offset(es, interval, i), Offset(es, interval, i + 1);
    var rest := data[to..];
    var header := EntryHeader(n, |key|, |value|);
    KeyFits(es, interval, i);
    hide FitsIn32Bits, Shared;
    assert data[from..] == header + (key + value + rest);
    DecodeHeader(n, |key|, |value|, key + value + rest);
    CutOut(data, from, header, key, value, rest);
    InBlock(es, interval);
  }

  lemma BlockFits(es: seq<KeyValue>, interval: nat)
    requires interval > 0 && FitsIn32Bits(es, interval)
    ensures Offset(es, interval, |es|) < 0x1_0000_0000
  {
  }

  lemma InBlock(es: seq<KeyValue>, interval: nat)
    requires interval > 0 && FitsIn32Bits(es, interval)
    ensures Offset(es, interval, |es|) <= |BlockOf(es, interval)|
    ensures BlockOf(es, interval)[..Offset(es, interval, |es|)] == Data(es, interval, |es|)
  {
  }

  lemma CutOut(data: Bytes, from: nat, header: Bytes, key: Bytes, value: Bytes, rest: Bytes)
    requires from <= |data| && data[from..] == header + (key + value + rest)
    ensures var k := from + |header|;
            var v := k + |key|;
            && v + |value| <= |data| && data[k..v] == key && data[v..v + |value|] == value
  {
    var k := from + |header|;
    var v := k + |key|;
    var tail := data[from..];
    assert |data| == from + |tail|;
    assert data[k..v] == tail[|header|..|header| + |key|];
    assert data[v..v + |value|] == tail[|header| + |key|..|header| + |key| + |value|];
  }

  lemma {:induction false} RestartBytesAt(restarts: seq<Word>, k: nat)
    requires k < |restarts|
    ensures RestartBytes(restarts)[4 * k..4 * k + 4] == EncodeFixed32(restarts[k])
  {
    var n := |restarts| - 1;
    var front := RestartBytes(restarts[..n]);
    if k < n {
      RestartBytesAt(restarts[..n], k);
      assert RestartBytes(restarts)[4 * k..4 * k + 4] == front[4 * k..4 * k + 4];
    }
  }

  /** The restart array, and the number of restarts in the last four bytes. */
  lemma RestartAt(es: seq<KeyValue>, interval: nat, k: nat)
    requires interval > 0 && FitsIn32Bits(es, interval) && k < |RestartEntries(interval, |es|)|
    ensures var data := BlockOf(es, interval);
            var n := |RestartEntries(interval, |es|)|;
            var at := Offset(es, interval, |es|) + 4 * k;
            && |data| == Offset(es, interval, |es|) + 4 * n + 4
            && DecodeFixed32(data[|data| - 4..]) == n
            && DecodeFixed32(data[at..at + 4]) == Offset(es, interval, RestartEntries(interval, |es|)[k])
  {
    hide EncodeFixed32, DecodeFixed32, RestartBytes, Data;
    var restarts := Restarts(es, interval);
    var front, middle := Data(es, interval, |es|), RestartBytes(restarts);
    var data := BlockOf(es, interval);
    RestartBytesAt(restarts, k);
    DecodeEncodeFixed32(restarts[k]);
    DecodeEncodeFixed32(|restarts|);
    assert data[|data| - 4..] == EncodeFixed32(|restarts|);
    assert data[|front| + 4 * k..|front| + 4 * k + 4] == middle[4 * k..4 * k + 4];
  }

  // ---- the iterator -----------------------------------------------------------------------------------

  class Iter {
    const cmp: Comparator
    const data: Bytes
    const restarts: nat
    const numRestarts: nat
    var current: nat
    var restartIndex: nat
    var key: Bytes
    var valueStart: nat
    var valueSize: nat

    ghost const es: seq<KeyValue>
    ghost const interval: nat

    /** The entry the iterator stands at; their number when not valid. */
    ghost var index: nat

    /** Block::Block and NewIterator, on the contents of a block that was built. */
    constructor (cmp: Comparator, contents: Bytes, ghost es: seq<KeyValue>, ghost interval: nat)
      requires interval > 0 && FitsIn32Bits(es, interval) && contents == BlockOf(es, interval)
      requires Transitive(cmp) && Ascends(cmp, es)
      ensures Inv() && !Valid() && this.cmp == cmp && this.es == es
    {
      RestartAt(es, interval, 0);
      var n := DecodeFixed32(contents[|contents| - 4..]);
      this.cmp := cmp;
      data := contents;
      numRestarts := n;
      restarts := |contents| - (1 + n) * 4;
      current := |contents| - (1 + n) * 4;
      restartIndex := n;
      key, valueStart, valueSize := [], 0, 0;
      this.es, this.interval := es, interval;
      index := |es|;
    }

    ghost predicate Fixed() {
      && interval > 0 && FitsIn32Bits(es, interval) && data == BlockOf(es, interval)
      && restarts == Offset(es, interval, |es|) && numRestarts == |RestartEntries(interval, |es|)|
      && Transitive(cmp) && Ascends(cmp, es)
    }

    ghost function At(i: nat): nat
      requires interval > 0 && i <= |es|
    {
      Offset(es, interval, i)
    }

    ghost function Restart(k: nat): (i: nat)
      requires Fixed() && k < numRestarts
      ensures i <= |es| && (es != [] ==> i < |es|) && IsRestart(interval, i)
    {
      RestartEntries(interval, |es|)[k]
    }

    /** The fields are those of entry i; restartIndex may still name the restart point before i when i
      * is one itself.
      */
    ghost predicate Holds(i: nat)
      reads this
    {
      && Fixed() && i < |es| && current == At(i) && key == es[i].key
      && valueStart + valueSize == At(i + 1) <= |data| && data[valueStart..valueStart + valueSize] == es[i].value
      && restartIndex < numRestarts && Restart(restartIndex) <= i
      && (restartIndex + 1 < numRestarts ==> i <= Restart(restartIndex + 1))
    }

    /** ParseNextKey will read entry i: its bytes are next, and the key it shares with is in place. */
    ghost predicate Ready(i: nat)
      reads this
    {
      && Fixed() && i <= |es| && valueStart + valueSize == At(i)
      && restartIndex < numRestarts && Restart(restartIndex) <= i
      && (i < |es| && !IsRestart(interval, i) ==> key == es[i - 1].key)
    }

    ghost predicate Inv()
      reads this
    {
      && Fixed() && index <= |es|
      && (if index < |es| then Holds(index) else current == restarts)
    }

    predicate Valid()
      reads this
    {
      current < restarts
    }

    lemma ValidMeansAt()
      requires Inv()
      ensures Valid() <==> index < |es|
    {
      if index < |es| {
        OffsetsAscend(es, interval, index, |es|);
      }
    }

    function Value(): Bytes
      requires Inv() && Valid()
      reads this
      ensures index < |es| && Value() == es[index].value && key == es[index].key
    {
      ValidMeansAt();
      data[valueStart..valueStart + valueSize]
    }

    method GetRestartPoint(k: nat) returns (offset: nat)
      requires Fixed() && k < numRestarts
      ensures offset == At(Restart(k))
    {
      RestartAt(es, interval, k);
      offset := DecodeFixed32(data[restarts + 4 * k..restarts + 4 * k + 4]);
    }

    method SeekToRestartPoint(k: nat)
      requires Fixed() && k < numRestarts
      modifies this
      ensures Ready(Restart(k)) && restartIndex == k && index == old(index)
    {
      key := [];
      restartIndex := k;
      valueStart := GetRestartPoint(k);
      valueSize := 0;
    }

    method ParseNextKey(ghost i: nat) returns (ok: bool)
      requires Ready(i)
      modifies this
      ensures Inv() && index == i && ok == (i < |es|)
    {
      hide FitsIn32Bits, BlockOf, Offset, Ascends, Transitive, RestartEntries, IsRestart;
      index := i;
      current := valueStart + valueSize;
      OffsetsAscend(es, interval, i, |es|);
      if current >= restarts {
        current := restarts;
        restartIndex := numRestarts;
        return false;
      }
      DecodeCurrent(i);
      AdvanceRestartIndex(i);
      return true;
    }

    /** The key, but for the prefix that it shares, and the value lie in the block. */
    method DecodeCurrent(ghost i: nat)
      requires Ready(i) && i < |es| && current == At(i)
      modifies this`key, this`valueStart, this`valueSize
      ensures key == es[i].key && valueStart + valueSize == At(i + 1) <= |data|
      ensures data[valueStart..valueStart + valueSize] == es[i].value
    {
      hide FitsIn32Bits, BlockOf, Offset, Ascends, Transitive, RestartEntries, IsRestart, Shared;
      DecodeAt(es, interval, i);
      ShareKey(i);
      var head := DecodeEntry(data[current..restarts]).value;
      var p := current + head.size;
      key := key[..head.shared];
      key := key + data[p..p + head.nonShared];
      valueStart, valueSize := p + head.nonShared, head.valueLength;
    }

    method AdvanceRestartIndex(ghost i: nat)
      requires Fixed() && i < |es| && current == At(i) && restartIndex < numRestarts && Restart(restartIndex) <= i
      modifies this`restartIndex
      ensures restartIndex < numRestarts && Restart(restartIndex) <= i
      ensures restartIndex + 1 < numRestarts ==> i <= Restart(restartIndex + 1)
    {
      hide FitsIn32Bits, BlockOf, Offset, Ascends, Transitive, RestartEntries, IsRestart;
      while restartIndex + 1 < numRestarts
        invariant restartIndex < numRestarts && Restart(restartIndex) <= i
        decreases numRestarts - restartIndex
      {
        var next := GetRestartPoint(restartIndex + 1);
        OffsetsAscend(es, interval, Restart(restartIndex + 1), i);
        if next >= current {
          OffsetsAscend(es, interval, i, Restart(restartIndex + 1));
          break;
        }
        restartIndex := restartIndex + 1;
      }
    }

    /** The key in place begins with what entry i shares. */
    lemma ShareKey(i: nat)
      requires Ready(i) && i < |es|
      ensures var n := Shared(es, interval, i);
              n <= |key| && key[..n] + es[i].key[n..] == es[i].key
    {
      hide FitsIn32Bits, BlockOf, Offset, Ascends, Transitive, RestartEntries, IsRestart;
      var k, n := es[i].key, Shared(es, interval, i);
      if n > 0 {
        SharedMeansNoRestart(i);
        assert key[..n] == k[..n];
      } else {
        assert key[..0] == [] == k[..0];
      }
      assert k[..n] + k[n..] == k;
    }

    lemma SharedMeansNoRestart(i: nat)
      requires interval > 0 && i < |es| && Shared(es, interval, i) > 0
      ensures !IsRestart(interval, i)
    {
    }

    method Next()
      requires Inv() && Valid()
      modifies this
      ensures Inv() && index == old(index) + 1 && (Valid() <==> index < |es|)
    {
      hide FitsIn32Bits, BlockOf, Offset, Ascends, Transitive, RestartEntries, IsRestart;
      ValidMeansAt();
      var ok := ParseNextKey(index + 1);
      ValidMeansAt();
    }

    method SeekToFirst()
      requires Inv()
      modifies this
      ensures Inv() && index == 0 && (Valid() <==> es != [])
    {
      SeekToRestartPoint(0);
      var ok := ParseNextKey(0);
      ValidMeansAt();
    }

    method SeekToLast()
      requires Inv()
      modifies this
      ensures Inv() && index == (if es == [] then 0 else |es| - 1) && (Valid() <==> es != [])
    {
      hide FitsIn32Bits, BlockOf, Offset, Ascends, Transitive, RestartEntries, IsRestart;
      LastRestart();
      SeekToRestartPoint(numRestarts - 1);
      ghost var i := Restart(numRestarts - 1);
      var ok := ParseNextKey(i);
      while ok && valueStart + valueSize < restarts
        invariant Inv() && index == i && ok == (i < |es|) && (if es == [] then i == 0 else i < |es|)
        decreases |es| - i
      {
        OffsetsAscend(es, interval, i + 1, |es|);
        i := i + 1;
        ok := ParseNextKey(i);
      }
      if ok {
        OffsetsAscend(es, interval, i + 1, |es|);
      }
      ValidMeansAt();
    }

    /** Prev: back to the restart point before the entry, and forward again up to it. */
    method Prev()
      requires Inv() && Valid()
      modifies this
      ensures Inv() && index == (if old(index) == 0 then |es| else old(index) - 1)
      ensures Valid() <==> index < |es|
    {
      hide FitsIn32Bits, BlockOf, Offset, Ascends, Transitive, RestartEntries, IsRestart;
      ValidMeansAt();
      var original := current;
      ghost var was := index;
      while true
        invariant Fixed() && restartIndex < numRestarts && index == was && current == original == At(was) && was < |es|
        decreases restartIndex
      {
        var point := GetRestartPoint(restartIndex);
        OffsetsAscend(es, interval, Restart(restartIndex), was);
        if point < original {
          break;
        }
        if restartIndex == 0 {
          FirstRestart();
          OffsetsAscend(es, interval, 0, was);
          current := restarts;
          restartIndex := numRestarts;
          index := |es|;
          ValidMeansAt();
          return;
        }
        restartIndex := restartIndex - 1;
      }
      SeekToRestartPoint(restartIndex);
      ghost var i := Restart(restartIndex);
      ForwardTo(i, was, original);
      ValidMeansAt();
    }

    lemma LastRestart()
      requires Fixed()
      ensures numRestarts > 0 && (es == [] ==> Restart(numRestarts - 1) == 0)
    {
    }

    lemma FirstRestart()
      requires Fixed()
      ensures Restart(0) == 0
    {
    }

    /** The do-while loop: parse until the end of an entry hits the start of the original one. */
    method ForwardTo(ghost i: nat, ghost was: nat, original: nat)
      requires Ready(i) && i < was < |es| && original == At(was)
      modifies this
      ensures Inv() && index == was - 1
    {
      hide FitsIn32Bits, BlockOf, Offset, Ascends, Transitive, RestartEntries, IsRestart;
      ghost var j := i;
      var ok := ParseNextKey(j);
      OffsetsAscend(es, interval, j + 1, was);
      while ok && valueStart + valueSize < original
        invariant j < was && ok && Inv() && index == j
        invariant j + 1 < was <==> At(j + 1) < original
        decreases was - j
      {
        j := j + 1;
        ok := ParseNextKey(j);
        OffsetsAscend(es, interval, j + 1, was);
      }
    }

    /** Seek: binary search in the restart array, then a scan for the first key at or after target. */
    method Seek(target: Bytes)
      requires Inv()
      modifies this
      ensures Inv() && (Valid() <==> index < |es|)
      ensures forall j :: 0 <= j < index ==> cmp(es[j].key, target) < 0
      ensures index < |es| ==> cmp(es[index].key, target) >= 0
    {
      hide FitsIn32Bits, BlockOf, Offset, Ascends, Transitive, RestartEntries, IsRestart;
      LastRestart();
      var left: nat, right: nat := 0, numRestarts - 1;
      FirstRestart();
      while left < right
        invariant left <= right < numRestarts
        invariant left > 0 ==> Restart(left) < |es| && cmp(es[Restart(left)].key, target) < 0
      {
        var mid := (left + right + 1) / 2;
        var midKey := KeyAtRestart(mid);
        if cmp(midKey, target) < 0 {
          left := mid;
        } else {
          right := mid - 1;
        }
      }
      ghost var i := Restart(left);
      if left > 0 {
        AllBefore(i, target);
      }
      SeekToRestartPoint(left);
      while true
        invariant Ready(i) && forall j :: 0 <= j < i ==> cmp(es[j].key, target) < 0
        decreases |es| - i
      {
        var ok := ParseNextKey(i);
        ValidMeansAt();
        if !ok {
          return;
        }
        if cmp(key, target) >= 0 {
          return;
        }
        i := i + 1;
      }
    }

    lemma AllBefore(i: nat, target: Bytes)
      requires Transitive(cmp) && Ascends(cmp, es) && i < |es| && cmp(es[i].key, target) < 0
      ensures forall j :: 0 <= j < i ==> cmp(es[j].key, target) < 0
    {
    }

    method KeyAtRestart(k: nat) returns (midKey: Bytes)
      requires Fixed() && 0 < k < numRestarts
      ensures Restart(k) < |es| && midKey == es[Restart(k)].key
    {
      hide DecodeEntry, Data, Offset, BlockOf;
      var offset := GetRestartPoint(k);
      NonEmpty(k);
      DecodeAt(es, interval, Restart(k));
      var head := DecodeEntry(data[offset..restarts]).value;
      var p := offset + head.size;
      midKey := data[p..p + head.nonShared];
    }

    lemma NonEmpty(k: nat)
      requires Fixed() && 0 < k < numRestarts
      ensures es != []
    {
    }
  }
}
