/** Building a table (table/table_builder.cc): data blocks cut wherever the size estimate says, and an
  * index entry for each, put off until the first key of the next block is known.
  */
module TableBuilders {
  import opened InternalKeys
  import opened Sequences
  import opened Versions
  import opened Separators
  import opened Tables

  datatype RawEntry = RawEntry(key: RawKey, value: Bytes)

  /** The handle of a block is its number here. */
  datatype IndexEntry = IndexEntry(key: RawKey, handle: nat)

  function Rank1(e: RawEntry): Entry {
    Entry(Ranked(e.key), e.value)
  }

  function RankAll(es: seq<RawEntry>): (r: seq<Entry>)
    ensures |r| == |es| && forall i :: 0 <= i < |es| ==> r[i] == Rank1(es[i])
  {
    seq(|es|, i requires 0 <= i < |es| => Rank1(es[i]))
  }

  function RankBlocks(blocks: seq<seq<RawEntry>>): (r: seq<seq<Entry>>)
    ensures |r| == |blocks| && forall i :: 0 <= i < |blocks| ==> r[i] == RankAll(blocks[i])
  {
    seq(|blocks|, i requires 0 <= i < |blocks| => RankAll(blocks[i]))
  }

  function RankIndex(index: seq<IndexEntry>): (r: seq<Entry>)
    ensures |r| == |index| && forall i :: 0 <= i < |index| ==> r[i].key == Ranked(index[i].key)
  {
    seq(|index|, i requires 0 <= i < |index| => Entry(Ranked(index[i].key), []))
  }

  lemma {:induction false} RankConcat(blocks: seq<seq<RawEntry>>, n: nat)
    requires n <= |blocks|
    ensures RankAll(Concat(blocks, n)) == Concat(RankBlocks(blocks), n)
  {
    if n > 0 {
      RankConcat(blocks, n - 1);
    }
  }

  ghost predicate NonEmpty(blocks: seq<seq<RawEntry>>) {
    forall i :: 0 <= i < |blocks| ==> blocks[i] != []
  }

  function Last(block: seq<RawEntry>): InternalKey
    requires block != []
  {
    Ranked(block[|block| - 1].key)
  }

  function First(block: seq<RawEntry>): InternalKey
    requires block != []
  {
    Ranked(block[0].key)
  }

  /** The index entries before n separate each block from the next. */
  ghost predicate Separated(blocks: seq<seq<RawEntry>>, index: seq<IndexEntry>, n: nat)
    requires NonEmpty(blocks) && n < |blocks| && n <= |index|
  {
    forall i :: 0 <= i < n ==>
      index[i].handle == i && Separates(Last(blocks[i]), Ranked(index[i].key), First(blocks[i + 1]))
  }

  /** Blocks of a table under construction, with an index entry for each but the last. */
  ghost predicate Partial(blocks: seq<seq<RawEntry>>, index: seq<IndexEntry>, entries: seq<RawEntry>) {
    && Sorted(RankAll(entries)) && entries == Concat(blocks, |blocks|) && NonEmpty(blocks)
    && if blocks == [] then index == []
       else |index| == |blocks| - 1 && Separated(blocks, index, |index|)
  }

  lemma OneMoreSorted(entries: seq<RawEntry>, e: RawEntry)
    requires Sorted(RankAll(entries)) && (entries != [] ==> Less(Last(entries), Ranked(e.key)))
    ensures Sorted(RankAll(entries + [e]))
  {
    var r := RankAll(entries + [e]);
    forall i, j | 0 <= i < j < |r| ensures Less(r[i].key, r[j].key) {
      if j < |entries| {
        assert r[i] == RankAll(entries)[i] && r[j] == RankAll(entries)[j];
      } else if i < |entries| - 1 {
        assert Less(RankAll(entries)[i].key, RankAll(entries)[|entries| - 1].key);
      }
    }
  }

  /** An entry goes into the last block. */
  lemma ExtendLast(front: seq<seq<RawEntry>>, block: seq<RawEntry>, index: seq<IndexEntry>,
                   entries: seq<RawEntry>, e: RawEntry)
    requires block != [] && Partial(front + [block], index, entries) && Less(Last(entries), Ranked(e.key))
    ensures Partial(front + [block + [e]], index, entries + [e])
  {
    hide Separates, Sorted;
    var n := |front|;
    OneMoreSorted(entries, e);
    ConcatOneMore(front, block);
    ConcatOneMore(front, block + [e]);
    Assoc(Concat(front, n), block, [e]);
    var before, blocks := front + [block], front + [block + [e]];
    forall i | 0 <= i <= n ensures blocks[i] != [] && (i < n ==> blocks[i] == before[i]) {
      assert before[i] != [];
    }
    forall i | 0 <= i < n
      ensures index[i].handle == i && Separates(Last(blocks[i]), Ranked(index[i].key), First(blocks[i + 1]))
    {
      assert Separates(Last(before[i]), Ranked(index[i].key), First(before[i + 1]));
      assert blocks[i] == before[i] && First(blocks[i + 1]) == First(before[i + 1]);
    }
  }

  lemma LastOfAll(blocks: seq<seq<RawEntry>>, index: seq<IndexEntry>, entries: seq<RawEntry>)
    requires Partial(blocks, index, entries)
    ensures entries == [] <==> blocks == []
    ensures blocks != [] ==> blocks[|blocks| - 1] != [] && Last(blocks[|blocks| - 1]) == Last(entries)
    ensures |index| == if blocks == [] then 0 else |blocks| - 1
  {
  }

  /** An entry begins a block, and decides the index entry of the block before. */
  lemma StartsBlock(blocks: seq<seq<RawEntry>>, index: seq<IndexEntry>, entries: seq<RawEntry>, e: RawEntry,
                    index': seq<IndexEntry>)
    requires Partial(blocks, index, entries) && (entries != [] ==> Less(Last(entries), Ranked(e.key)))
    requires if blocks == [] then index' == index
             else |index'| == |blocks| && index' == index + [index'[|blocks| - 1]] && index'[|blocks| - 1].handle == |blocks| - 1
                  && blocks[|blocks| - 1] != []
                  && Separates(Last(blocks[|blocks| - 1]), Ranked(index'[|blocks| - 1].key), Ranked(e.key))
    ensures Partial(blocks + [[e]], index', entries + [e])
  {
    hide Separates, Sorted;
    OneMoreSorted(entries, e);
    ConcatOneMore(blocks, [e]);
    var blocks' := blocks + [[e]];
    forall i | 0 <= i < |index'|
      ensures index'[i].handle == i && Separates(Last(blocks'[i]), Ranked(index'[i].key), First(blocks'[i + 1]))
    {
      if i < |index| {
        assert index'[i] == index[i] && blocks'[i] == blocks[i] && blocks'[i + 1] == blocks[i + 1];
      }
    }
  }

  class TableBuilder {
    const blockSize: nat
    const estimate: seq<RawEntry> -> nat
    var lastKey: RawKey
    var numEntries: nat
    var pendingIndexEntry: bool
    var pendingHandle: nat
    var dataBlock: seq<RawEntry>
    var written: seq<seq<RawEntry>>
    var indexBlock: seq<IndexEntry>

    ghost var entries: seq<RawEntry>

    constructor (blockSize: nat, estimate: seq<RawEntry> -> nat)
      ensures Valid() && entries == [] && dataBlock == [] && this.blockSize == blockSize && this.estimate == estimate
    {
      this.blockSize, this.estimate := blockSize, estimate;
      lastKey, numEntries, pendingIndexEntry, pendingHandle := RawKey([], 0, Deletion), 0, false, 0;
      dataBlock, written, indexBlock, entries := [], [], [], [];
    }

    /** The blocks, the one under construction last. */
    ghost function Blocks(): seq<seq<RawEntry>>
      reads this
    {
      if dataBlock == [] then written else written + [dataBlock]
    }

    ghost predicate Valid()
      reads this
    {
      && Partial(Blocks(), indexBlock, entries)
      && numEntries == |entries| && (entries != [] ==> lastKey == entries[|entries| - 1].key)
      && (pendingIndexEntry <==> dataBlock == [] && written != [])
      && (pendingIndexEntry ==> pendingHandle == |written| - 1)
    }

    method Add(key: RawKey, value: Bytes)
      requires Valid() && (entries != [] ==> Less(Last(entries), Ranked(key)))
      modifies this
      ensures Valid() && entries == old(entries) + [RawEntry(key, value)]
      ensures var block := old(dataBlock) + [RawEntry(key, value)];
              if estimate(block) >= blockSize then written == old(written) + [block] && dataBlock == []
              else written == old(written) && dataBlock == block
    {
      hide Partial, Separates, Less, Concat;
      ghost var e, blocks, index := RawEntry(key, value), Blocks(), indexBlock;
      LastOfAll(blocks, indexBlock, entries);
      if pendingIndexEntry {
        lastKey := InternalSeparator(lastKey, key);
        indexBlock := indexBlock + [IndexEntry(lastKey, pendingHandle)];
        pendingIndexEntry := false;
      }
      if dataBlock == [] {
        StartsBlock(blocks, index, entries, e, indexBlock);
        assert [] + [e] == [e];
      } else {
        ExtendLast(written, dataBlock, indexBlock, entries, e);
      }
      lastKey := key;
      numEntries := numEntries + 1;
      dataBlock := dataBlock + [RawEntry(key, value)];
      entries := entries + [e];
      if estimate(dataBlock) >= blockSize {
        Flush();
      }
    }

    method Flush()
      requires Valid()
      modifies this
      ensures Valid() && entries == old(entries) && dataBlock == [] && indexBlock == old(indexBlock)
      ensures written == old(written) + if old(dataBlock) == [] then [] else [old(dataBlock)]
    {
      if dataBlock == [] {
        return;
      }
      pendingHandle := |written|;
      written := written + [dataBlock];
      dataBlock := [];
      pendingIndexEntry := true;
    }

    /** Finish: the last index key may be any successor of the last key.  What comes out is a table in
      * which one look at the index finds the right block.
      */
    method Finish() returns (blocks: seq<seq<Entry>>, index: seq<Entry>)
      requires Valid()
      modifies this
      ensures Flat(blocks) == RankAll(old(entries)) && Indexed(blocks, index) && SplitsNoUserKey(blocks, index)
    {
      hide Partial, Less, Concat, Indexed, SplitsNoUserKey;
      Flush();
      ghost var before := indexBlock;
      LastOfAll(written, indexBlock, entries);
      if pendingIndexEntry {
        lastKey := InternalSuccessor(lastKey);
        indexBlock := indexBlock + [IndexEntry(lastKey, pendingHandle)];
        pendingIndexEntry := false;
      }
      FinishedTable(written, before, indexBlock, entries);
      blocks, index := RankBlocks(written), RankIndex(indexBlock);
    }
  }

  lemma FinishedTable(blocks: seq<seq<RawEntry>>, before: seq<IndexEntry>, index: seq<IndexEntry>,
                      entries: seq<RawEntry>)
    requires Partial(blocks, before, entries)
    requires if blocks == [] then index == before
             else |index| == |blocks| && before == index[..|blocks| - 1] && blocks[|blocks| - 1] != []
                  && !Less(Ranked(index[|blocks| - 1].key), Last(blocks[|blocks| - 1]))
    ensures Flat(RankBlocks(blocks)) == RankAll(entries)
    ensures Indexed(RankBlocks(blocks), RankIndex(index)) && SplitsNoUserKey(RankBlocks(blocks), RankIndex(index))
  {
    hide Concat;
    RankConcat(blocks, |blocks|);
    var bs: seq<seq<Entry>>, keys: seq<Entry> := RankBlocks(blocks), RankIndex(index);
    forall i, e | 0 <= i < |bs| && e in bs[i] ensures !Less(keys[i].key, e.key) {
      WithinBlock(blocks, before, entries, i, e);
      assert i < |before| ==> before[i] == index[i];
    }
    forall i, j, e | 0 <= i < j < |bs| && e in bs[j]
      ensures Less(keys[i].key, e.key)
      ensures (forall x :: x in bs[i] ==> x.key != keys[i].key) ==> keys[i].key.user < e.key.user
    {
      assert before[i] == index[i];
      NextBlocks(blocks, before, entries, i, j, e);
    }
    forall i, j | 0 <= i < j < |keys| ensures Less(keys[i].key, keys[j].key) {
      assert bs[j][0] in bs[j];
    }
  }

  lemma WithinBlock(blocks: seq<seq<RawEntry>>, index: seq<IndexEntry>, entries: seq<RawEntry>, i: nat, e: Entry)
    requires Partial(blocks, index, entries) && i < |blocks| && e in RankBlocks(blocks)[i]
    ensures blocks[i] != [] && !Less(Last(blocks[i]), e.key) && !Less(e.key, First(blocks[i]))
    ensures i < |index| ==> !Less(Ranked(index[i].key), e.key)
  {
    hide Concat;
    RankConcat(blocks, |blocks|);
    var bs: seq<seq<Entry>> := RankBlocks(blocks);
    BlockIsSorted(bs, i);
    var p :| 0 <= p < |bs[i]| && bs[i][p] == e;
    assert bs[i][0].key == First(blocks[i]) && bs[i][|bs[i]| - 1].key == Last(blocks[i]);
    if i < |index| {
      assert Separates(Last(blocks[i]), Ranked(index[i].key), First(blocks[i + 1]));
    }
  }

  lemma NextBlocks(blocks: seq<seq<RawEntry>>, index: seq<IndexEntry>, entries: seq<RawEntry>, i: nat, j: nat,
                   e: Entry)
    requires Partial(blocks, index, entries) && i < j < |blocks| && e in RankBlocks(blocks)[j]
    ensures |index| == |blocks| - 1 && Less(Ranked(index[i].key), e.key)
    ensures (forall x :: x in RankBlocks(blocks)[i] ==> x.key != Ranked(index[i].key))
            ==> Ranked(index[i].key).user < e.key.user
  {
    hide Concat;
    RankConcat(blocks, |blocks|);
    var bs: seq<seq<Entry>> := RankBlocks(blocks);
    WithinBlock(blocks, index, entries, j, e);
    FirstsAscend(blocks, index, entries, i + 1, j);
    assert bs[i][|bs[i]| - 1] in bs[i] && bs[i][|bs[i]| - 1].key == Last(blocks[i]);
    assert Separates(Last(blocks[i]), Ranked(index[i].key), First(blocks[i + 1]));
  }

  lemma FirstsAscend(blocks: seq<seq<RawEntry>>, index: seq<IndexEntry>, entries: seq<RawEntry>, i: nat, j: nat)
    requires Partial(blocks, index, entries) && i <= j < |blocks|
    ensures blocks[i] != [] && blocks[j] != [] && !Less(First(blocks[j]), First(blocks[i]))
  {
    hide Concat;
    RankConcat(blocks, |blocks|);
    var bs: seq<seq<Entry>> := RankBlocks(blocks);
    assert bs[i][0].key == First(blocks[i]) && bs[j][0].key == First(blocks[j]);
    ConcatAt(bs, i, 0, |bs|);
    ConcatAt(bs, j, 0, |bs|);
    if i < j {
      EarlierPart(bs, i, 0, j);
    }
  }
}
