/** Building a block (table/block_builder.cc) and moving through one (table/block.cc). */
module Blocks {
  import opened InternalKeys
  import opened Coding
  import opened BlockFormat

  /** What the fields of a builder stand for. */
  ghost predicate Builds(es: seq<KeyValue>, interval: nat, buffer: Bytes, restarts: seq<Word>, counter: nat,
                         lastKey: Bytes)
  {
    && interval >= 1 && FitsIn32Bits(es, interval)
    && buffer == Data(es, interval, |es|) && restarts == Restarts(es, interval)
    && counter == Counter(interval, |es|)
    && lastKey == if es == [] then [] else es[|es| - 1].key
  }

  class BlockBuilder {
    const interval: nat
    var buffer: Bytes
    var restarts: seq<Word>
    var counter: nat
    var lastKey: Bytes

    /** The entries added since the last reset. */
    ghost var entries: seq<KeyValue>

    constructor (interval: nat)
      requires interval >= 1
      ensures Valid() && entries == [] && this.interval == interval
    {
      this.interval := interval;
      buffer, restarts, counter, lastKey, entries := [], [0], 0, [], [];
    }

    ghost predicate Valid()
      reads this
    {
      Builds(entries, interval, buffer, restarts, counter, lastKey)
    }

    method Add(key: Bytes, value: Bytes)
      requires Valid() && FitsIn32Bits(entries + [KeyValue(key, value)], interval)
      modifies this
      ensures Valid() && entries == old(entries) + [KeyValue(key, value)]
    {
      hide EntryHeader, EncodeVarint, CommonPrefix, FitsIn32Bits, Builds;
      ghost var e := KeyValue(key, value);
      BuildsOneMore(entries, interval, buffer, restarts, counter, lastKey, e);
      var shared := StartEntry(key);
      AppendEntry(key, value, shared);
      lastKey := lastKey[..shared];
      lastKey := lastKey + key[shared..];
      counter := counter + 1;
      entries := entries + [e];
    }

    /** Share with the previous key, or start afresh at a new restart point. */
    method StartEntry(key: Bytes) returns (shared: nat)
      modifies this`restarts, this`counter
      ensures if old(counter) < interval then
                shared == CommonPrefix(lastKey, key) && counter == old(counter) && restarts == old(restarts)
              else
                shared == 0 && counter == 0 && restarts == old(restarts) + [|buffer| % 0x1_0000_0000]
    {
      hide CommonPrefix;
      shared := 0;
      if counter < interval {
        shared := SharedWithLast(key);
      } else {
        restarts := restarts + [|buffer| % 0x1_0000_0000];
        counter := 0;
      }
    }

    /** How much sharing to do with the previous key. */
    method SharedWithLast(key: Bytes) returns (shared: nat)
      ensures shared == CommonPrefix(lastKey, key)
    {
      var minLength := if |lastKey| < |key| then |lastKey| else |key|;
      shared := 0;
      while shared < minLength && lastKey[shared] == key[shared]
        invariant shared <= minLength
        invariant CommonPrefix(lastKey, key) == shared + CommonPrefix(lastKey[shared..], key[shared..])
      {
        assert lastKey[shared..][1..] == lastKey[shared + 1..] && key[shared..][1..] == key[shared + 1..];
        shared := shared + 1;
      }
    }

    method AppendEntry(key: Bytes, value: Bytes, shared: nat)
      requires shared <= |key|
      modifies this`buffer
      ensures buffer == old(buffer) + (EntryHeader(shared, |key| - shared, |value|) + key[shared..] + value)
    {
      hide EncodeVarint;
      var nonShared := |key| - shared;
      buffer := buffer + EncodeVarint(shared);
      buffer := buffer + EncodeVarint(nonShared);
      buffer := buffer + EncodeVarint(|value|);
      buffer := buffer + key[shared..];
      buffer := buffer + value;
    }

    method Finish() returns (contents: Bytes)
      requires Valid()
      modifies this`buffer
      ensures contents == BlockOf(entries, interval)
    {
      hide Data, Restarts, EncodeFixed32, RestartBytes;
      ghost var data := buffer;
      var i := 0;
      NextRestart(restarts, 0);
      while i < |restarts|
        invariant i <= |restarts| && buffer == data + RestartBytes(restarts[..i])
      {
        NextRestart(restarts, i);
        buffer := buffer + EncodeFixed32(restarts[i]);
        i := i + 1;
      }
      assert restarts[..|restarts|] == restarts;
      buffer := buffer + EncodeFixed32(|restarts|);
      return buffer;
    }

    method Reset()
      requires Valid()
      modifies this
      ensures Valid() && entries == []
    {
      buffer, restarts, counter, lastKey, entries := [], [0], 0, [], [];
    }
  }

  /** What an added entry does to the bytes of the block. */
  lemma OneMoreEntry(es: seq<KeyValue>, e: KeyValue, interval: nat)
    requires interval >= 1
    ensures var n := |es|;
            var shared := if n == 0 || Counter(interval, n) == interval then 0 else CommonPrefix(es[n - 1].key, e.key);
            Data(es + [e], interval, n + 1) == Data(es, interval, n)
              + (EntryHeader(shared, |e.key| - shared, |e.value|) + e.key[shared..] + e.value)
  {
    hide EntryHeader, CommonPrefix;
    DataOfPrefix(es, [e], interval, |es|);
  }

  /** And to its restart points. */
  lemma OneMoreRestart(es: seq<KeyValue>, e: KeyValue, interval: nat)
    requires interval >= 1 && Offset(es, interval, |es|) < 0x1_0000_0000
    requires Offset(es + [e], interval, |es| + 1) < 0x1_0000_0000
    ensures var n := |es|;
            Restarts(es + [e], interval)
              == Restarts(es, interval) + (if n > 0 && IsRestart(interval, n) then [Offset(es, interval, n)] else [])
  {
    hide EntryBytes, Data;
    var more := es + [e];
    var n := |es|;
    var entries, entries' := RestartEntries(interval, n), RestartEntries(interval, n + 1);
    forall k | 0 <= k < |entries'| ensures Offset(more, interval, entries'[k]) == Offset(es, interval, entries'[k]) {
      DataOfPrefix(es, [e], interval, entries'[k]);
    }
    var all, all' := Restarts(es, interval), Restarts(more, interval);
    assert |all'| == |entries'| && |all| == |entries|;
    assert forall k :: 0 <= k < |entries| ==> entries[k] == entries'[k] && all'[k] == all[k];
  }

  lemma BuildsOneMore(es: seq<KeyValue>, interval: nat, buffer: Bytes, restarts: seq<Word>, counter: nat,
                      lastKey: Bytes, e: KeyValue)
    requires Builds(es, interval, buffer, restarts, counter, lastKey) && FitsIn32Bits(es + [e], interval)
    ensures var anew := counter >= interval;
            var shared := if anew then 0 else CommonPrefix(lastKey, e.key);
            && lastKey[..shared] + e.key[shared..] == e.key
            && Builds(es + [e], interval,
                      buffer + (EntryHeader(shared, |e.key| - shared, |e.value|) + e.key[shared..] + e.value),
                      if anew then restarts + [|buffer| % 0x1_0000_0000] else restarts,
                      if anew then 1 else counter + 1, e.key)
  {
    hide EntryHeader, CommonPrefix, Data, Restarts, EntryBytes;
    OneMoreEntry(es, e, interval);
    OneMoreRestart(es, e, interval);
  }

  lemma NextRestart(restarts: seq<Word>, i: nat)
    requires i <= |restarts|
    ensures RestartBytes(restarts[..0]) == []
    ensures i < |restarts| ==> RestartBytes(restarts[..i + 1]) == RestartBytes(restarts[..i]) + EncodeFixed32(restarts[i])
  {
    if i < |restarts| {
      assert restarts[..i + 1][..i] == restarts[..i];
    }
  }
}
