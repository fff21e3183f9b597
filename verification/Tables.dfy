/** Shortened index keys (util/comparator.cc, db/dbformat.cc). */
module Separators {
  import opened InternalKeys
  import opened Bytewise

  /** An internal key before its user key is ranked. */
  datatype RawKey = RawKey(user: Bytes, seqno: SequenceNumber, kind: ValueType)

  function Ranked(k: RawKey): InternalKey {
    InternalKey(Rank(k.user), k.seqno, k.kind)
  }

  /** The strings part at index d, where there is room for a byte in between. */
  ghost predicate RoomAt(start: Bytes, limit: Bytes, d: nat) {
    && d < |start| && d < |limit| && start[..d] == limit[..d]
    && var low: int, high: int := start[d], limit[d]; low + 1 < high
  }

  /** BytewiseComparator's FindShortestSeparator: if there is room where the strings part, nothing that lies
    * between them is shorter than the separator.
    */
  method FindShortestSeparator(start: Bytes, limit: Bytes) returns (r: Bytes)
    ensures Before(start, limit) ==> !Before(r, start) && Before(r, limit)
    ensures !Before(start, limit) ==> r == start
    ensures |r| <= |start| && (r != start ==> Before(start, r))
    ensures if exists d: nat :: RoomAt(start, limit, d) then
              r != start && forall t :: Before(start, t) && Before(t, limit) ==> |r| <= |t|
            else r == start
    ensures forall d: nat :: RoomAt(start, limit, d) ==> |r| == d + 1
  {
    var minLength := if |start| < |limit| then |start| else |limit|;
    var diffIndex := 0;
    while diffIndex < minLength && start[diffIndex] == limit[diffIndex]
      invariant diffIndex <= minLength && start[..diffIndex] == limit[..diffIndex]
    {
      diffIndex := diffIndex + 1;
    }
    r := start;
    RankEmbedsOrder(start, start);
    if diffIndex >= minLength {
      PrefixOrder(start, limit, minLength);
    } else {
      FirstDifference(start, limit, diffIndex);
      var diffByte := start[diffIndex];
      if diffByte < 255 && diffByte + 1 < limit[diffIndex] {
        r := r[diffIndex := diffByte + 1];
        r := r[..diffIndex + 1];
        FirstDifference(start, r, diffIndex);
        FirstDifference(r, limit, diffIndex);
        assert RoomAt(start, limit, diffIndex);
        forall t | Before(start, t) && Before(t, limit) ensures |r| <= |t| {
          NothingShorter(start, limit, diffIndex, t);
        }
      }
    }
    assert forall d: nat :: RoomAt(start, limit, d) ==> d == diffIndex;
  }

  /** Strings of at most d bytes do not come between two that agree on d bytes. */
  lemma {:induction false} NothingShorter(start: Bytes, limit: Bytes, d: nat, t: Bytes)
    requires d <= |start| && d <= |limit| && start[..d] == limit[..d] && Before(start, t) && Before(t, limit)
    ensures |t| > d
  {
    if d > 0 && t != [] {
      assert start[0] == start[..d][0] == limit[..d][0] == limit[0];
      assert start[1..][..d - 1] == start[..d][1..] && limit[1..][..d - 1] == limit[..d][1..];
      NothingShorter(start[1..], limit[1..], d - 1, t[1..]);
    }
  }

  /** The first differing byte decides. */
  lemma {:induction false} FirstDifference(a: Bytes, b: Bytes, d: nat)
    requires d < |a| && d < |b| && a[..d] == b[..d] && a[d] != b[d]
    ensures Before(a, b) <==> a[d] < b[d]
    ensures Before(b, a) <==> b[d] < a[d]
  {
    if d > 0 {
      assert a[0] == a[..d][0] == b[..d][0] == b[0];
      assert a[1..][..d - 1] == a[..d][1..] && b[1..][..d - 1] == b[..d][1..];
      FirstDifference(a[1..], b[1..], d - 1);
    }
  }

  lemma {:induction false} PrefixOrder(a: Bytes, b: Bytes, n: nat)
    requires n <= |a| && n <= |b| && a[..n] == b[..n] && (n == |a| || n == |b|)
    ensures Before(a, b) <==> n == |a| < |b|
  {
    if n > 0 {
      assert a[0] == a[..n][0] == b[..n][0] == b[0];
      assert a[1..][..n - 1] == a[..n][1..] && b[1..][..n - 1] == b[..n][1..];
      PrefixOrder(a[1..], b[1..], n - 1);
    }
  }

  /** FindShortSuccessor: raise the first byte that can be raised, and stop there.  No shorter string comes
    * after the key.
    */
  method FindShortSuccessor(key: Bytes) returns (r: Bytes)
    ensures |r| <= |key| && (r != key ==> Before(key, r))
    ensures r == key <==> forall i :: 0 <= i < |key| ==> key[i] == 255
    ensures r != key ==> forall t :: Before(key, t) ==> |r| <= |t|
    ensures |r| == |key| <==> forall i :: 0 <= i < |key| - 1 ==> key[i] == 255
  {
    for i := 0 to |key|
      invariant forall j :: 0 <= j < i ==> key[j] == 255
    {
      var byte := key[i];
      if byte != 255 {
        r := key[i := byte + 1];
        r := r[..i + 1];
        FirstDifference(key, r, i);
        forall t | Before(key, t) ensures |r| <= |t| {
          NothingShorterAfter(key, i, t);
        }
        return;
      }
    }
    r := key;
  }

  lemma {:induction false} NothingShorterAfter(key: Bytes, d: nat, t: Bytes)
    requires d < |key| && (forall j :: 0 <= j < d ==> key[j] == 255) && Before(key, t)
    ensures |t| > d
  {
    if d > 0 && t != [] {
      NothingShorterAfter(key[1..], d - 1, t[1..]);
    }
  }

  /** A separator is at or after the last key before it and before the next one; if it is not that last
    * key itself, its user key is of its own: it comes strictly between the two, so that no user key
    * has entries on both sides of it.
    */
  ghost predicate Separates(start: InternalKey, sep: InternalKey, limit: InternalKey) {
    && Less(sep, limit)
    && (sep == start || (start.user < sep.user && sep.user < limit.user))
  }

  /** InternalKeyComparator's FindShortestSeparator: the earliest entry of a shortened user key. */
  method InternalSeparator(start: RawKey, limit: RawKey) returns (r: RawKey)
    requires Less(Ranked(start), Ranked(limit))
    ensures Separates(Ranked(start), Ranked(r), Ranked(limit))
    ensures if exists d: nat :: RoomAt(start.user, limit.user, d) && d + 1 < |start.user| then
              |r.user| < |start.user| && r.seqno == MAX_SEQUENCE && r.kind.Value?
            else r == start
  {
    RankEmbedsOrder(start.user, limit.user);
    var tmp := FindShortestSeparator(start.user, limit.user);
    RankEmbedsOrder(start.user, tmp);
    RankEmbedsOrder(tmp, limit.user);
    r := if |tmp| < |start.user| && Before(start.user, tmp) then RawKey(tmp, MAX_SEQUENCE, Value) else start;
  }

  method InternalSuccessor(key: RawKey) returns (r: RawKey)
    ensures !Less(Ranked(r), Ranked(key))
    ensures if forall i :: 0 <= i < |key.user| - 1 ==> key.user[i] == 255 then r == key
            else |r.user| < |key.user| && r.seqno == MAX_SEQUENCE && r.kind.Value?
  {
    var tmp := FindShortSuccessor(key.user);
    RankEmbedsOrder(key.user, tmp);
    r := if |tmp| < |key.user| && Before(key.user, tmp) then RawKey(tmp, MAX_SEQUENCE, Value) else key;
  }
}

/** Tables (table/table.cc, table/two_level_iterator.cc): sorted blocks, found through an index block
  * that has one key for each of them.
  */
module Tables {
  import opened InternalKeys
  import opened Sequences
  import opened Versions
  import opened Cursors
  import opened Separators
  import F = FilterBlocks

  function Flat(blocks: seq<seq<Entry>>): seq<Entry> {
    Concat(blocks, |blocks|)
  }

  function Base(blocks: seq<seq<Entry>>, i: nat): nat
    requires i <= |blocks|
  {
    |Concat(blocks, i)|
  }

  /** One index entry for each block: no smaller than what the block holds, and smaller than all that
    * follows.
    */
  ghost predicate Indexed(blocks: seq<seq<Entry>>, index: seq<Entry>) {
    && |index| == |blocks| && Sorted(index) && Sorted(Flat(blocks))
    && (forall i, e :: 0 <= i < |blocks| && e in blocks[i] ==> !Less(index[i].key, e.key))
    && (forall i, j, e :: 0 <= i < j < |blocks| && e in blocks[j] ==> Less(index[i].key, e.key))
  }

  /** If an index key lies past its block's last key, its user key is older than all that follows. */
  ghost predicate SplitsNoUserKey(blocks: seq<seq<Entry>>, index: seq<Entry>) {
    |index| == |blocks|
    && forall i, j, e :: 0 <= i < j < |blocks| && e in blocks[j] && (forall x :: x in blocks[i] ==> x.key != index[i].key)
                         ==> index[i].key.user < e.key.user
  }

  lemma SeekIs(es: seq<Entry>, k: InternalKey, m: nat)
    requires m <= |es| && (forall j :: 0 <= j < m ==> Less(es[j].key, k))
    requires m < |es| ==> !Less(es[m].key, k)
    ensures SeekIndex(es, k) == m
  {
  }

  /** Seeking in the whole table comes down to seeking in the first block whose index key is not
    * smaller, or to the beginning of what follows it.
    */
  lemma SeekThroughIndex(blocks: seq<seq<Entry>>, index: seq<Entry>, k: InternalKey)
    requires Indexed(blocks, index)
    ensures var i := SeekIndex(index, k);
            SeekIndex(Flat(blocks), k) == Base(blocks, i) + if i < |blocks| then SeekIndex(blocks[i], k) else 0
  {
    var es, i := Flat(blocks), SeekIndex(index, k);
    var p := if i < |blocks| then SeekIndex(blocks[i], k) else 0;
    var m := Base(blocks, i) + p;
    ConcatSplit(blocks, i, |blocks|);
    if i < |blocks| {
      ConcatSplit(blocks, i + 1, |blocks|);
    }
    forall j | 0 <= j < m ensures Less(es[j].key, k) {
      BeforeSeek(blocks, index, k, j);
    }
    if m < |es| {
      AfterSeek(blocks, index, k, m);
    }
    SeekIs(es, k, m);
  }

  lemma BeforeSeek(blocks: seq<seq<Entry>>, index: seq<Entry>, k: InternalKey, j: nat)
    requires Indexed(blocks, index)
    requires var i := SeekIndex(index, k);
             j < Base(blocks, i) + if i < |blocks| then SeekIndex(blocks[i], k) else 0
    ensures j < |Flat(blocks)| && Less(Flat(blocks)[j].key, k)
  {
    hide SeekIndex, Concat, Sorted;
    var i := SeekIndex(index, k);
    if j < Base(blocks, i) {
      var b, q := ConcatFrom(blocks, i, j);
      ConcatAt(blocks, b, q, |blocks|);
      assert blocks[b][q] in blocks[b] && Less(index[b].key, k);
    } else {
      var q := j - Base(blocks, i);
      ConcatAt(blocks, i, q, |blocks|);
    }
  }

  lemma AfterSeek(blocks: seq<seq<Entry>>, index: seq<Entry>, k: InternalKey, m: nat)
    requires Indexed(blocks, index) && m < |Flat(blocks)|
    requires var i := SeekIndex(index, k);
             m == Base(blocks, i) + if i < |blocks| then SeekIndex(blocks[i], k) else 0
    ensures !Less(Flat(blocks)[m].key, k)
  {
    var i := SeekIndex(index, k);
    var b, q := ConcatFrom(blocks, |blocks|, m);
    assert blocks[b][q] in blocks[b];
    assert b >= i by {
      if b < i {
        EarlierPart(blocks, b, q, i);
      }
    }
  }

  lemma BlockIsSorted(blocks: seq<seq<Entry>>, i: nat)
    requires Sorted(Flat(blocks)) && i < |blocks|
    ensures Sorted(blocks[i])
  {
    forall p, q | 0 <= p < q < |blocks[i]| ensures Less(blocks[i][p].key, blocks[i][q].key) {
      ConcatAt(blocks, i, p, |blocks|);
      ConcatAt(blocks, i, q, |blocks|);
    }
  }

  lemma IndexFacts(blocks: seq<seq<Entry>>, index: seq<Entry>)
    requires Indexed(blocks, index)
    ensures |index| == |blocks| && Sorted(index) && Sorted(Flat(blocks))
  {
  }

  // ---- the filter -------------------------------------------------------------------------------------

  /** The filter block of a table, with its policy, where each data block starts, and the bytes of a key. */
  datatype Filter = Filter(policy: F.Policy, block: Bytes, offsets: seq<nat>, encode: InternalKey -> Bytes)

  /** A filter that was made of some keys may match whatever has the user key of one of them. */
  ghost predicate Lossless(policy: F.Policy, encode: InternalKey -> Bytes) {
    forall keys, a: InternalKey, b: InternalKey ::
      encode(a) in keys && a.user == b.user ==> policy.mayMatch(encode(b), policy.create(keys))
  }

  /** A block that the builder finishes, if every key was added after its data block was started, and the filters
    * are smaller than 4 GB.
    */
  ghost predicate FilterOf(f: Filter, blocks: seq<seq<Entry>>) {
    && |f.offsets| == |blocks|
    && exists groups :: AddedTo(f, blocks, groups)
  }

  ghost predicate AddedTo(f: Filter, blocks: seq<seq<Entry>>, groups: seq<seq<Bytes>>)
    requires |f.offsets| == |blocks|
  {
    var filters := F.FiltersOf(f.policy, groups);
    && f.block == F.BlockOf(filters) && |Concat(filters, |filters|)| < 0x1_0000_0000
    && forall i, e :: 0 <= i < |blocks| && e in blocks[i] ==> F.InGroup(groups, f.offsets[i], f.encode(e.key))
  }

  /** The policy that LevelDB makes of a Bloom filter, if encoded keys have the user key in front of their tag. */
  lemma BloomIsLossless(hash: F.BloomFilters.Hash, k: nat, bitsPerKey: nat, encode: InternalKey -> Bytes)
    requires k <= 30
    requires forall a: InternalKey, b: InternalKey :: a.user == b.user ==> F.UserPart(encode(a)) == F.UserPart(encode(b))
    ensures Lossless(F.Internal(F.Bloom(hash, k, bitsPerKey)), encode)
  {
    hide F.UserPart, F.UserParts;
    var policy := F.Internal(F.Bloom(hash, k, bitsPerKey));
    forall keys, a: InternalKey, b: InternalKey | encode(a) in keys && a.user == b.user
      ensures policy.mayMatch(encode(b), policy.create(keys))
    {
      F.BloomMayMatch(hash, k, bitsPerKey, keys, encode(a), encode(b));
    }
  }

  /** A block that the filter hides has nothing of the user key sought. */
  lemma HiddenHasNothing(f: Filter, blocks: seq<seq<Entry>>, i: nat, u: UserKey, s: SequenceNumber)
    requires FilterOf(f, blocks) && Lossless(f.policy, f.encode) && i < |blocks|
    requires !F.KeyMayMatch(f.policy, f.block, f.offsets[i], f.encode(LookupKey(u, s)))
    ensures forall e :: e in blocks[i] ==> e.key.user != u
  {
    hide F.BlockOf, F.FiltersOf, F.KeyMayMatch, Concat;
    var groups :| AddedTo(f, blocks, groups);
    forall e | e in blocks[i] ensures e.key.user != u {
      if e.key.user == u {
        var key, sought := f.encode(e.key), f.encode(LookupKey(u, s));
        assert F.InGroup(groups, f.offsets[i], key);
        F.NeverLosesAKey(f.policy, groups, f.offsets[i], key, sought);
        assert false;
      }
    }
  }

  /** What InternalGet hands to the saver, and SaveValue keeps: it looks into one block at most, and into none that
    * the filter hides; `looked` says into which.
    */
  method InternalGet(blocks: seq<seq<Entry>>, index: seq<Entry>, filter: Option<Filter>, u: UserKey, s: SequenceNumber)
    returns (r: Option<Entry>, looked: Option<nat>)
    requires Indexed(blocks, index) && SplitsNoUserKey(blocks, index)
    requires filter.Some? ==> FilterOf(filter.value, blocks) && Lossless(filter.value.policy, filter.value.encode)
    ensures r == TableGet(Flat(blocks), u, s)
    ensures var i := SeekIndex(index, LookupKey(u, s));
            looked == if i < |blocks| && !(filter.Some? && Hides(filter.value, i, LookupKey(u, s))) then Some(i) else None
  {
    hide Indexed, SplitsNoUserKey, Sorted, Less, SeekIndex, Concat, Lossless, AddedTo, F.KeyMayMatch;
    IndexFacts(blocks, index);
    var k := LookupKey(u, s);
    var iiter := new Cursor(index);
    iiter.Seek(k);
    r, looked := None, None;
    SeekThroughIndex(blocks, index, k);
    if iiter.Valid() {
      BlockIsSorted(blocks, iiter.index);
      if filter.Some? && Hides(filter.value, iiter.index, k) {
        HiddenHasNothing(filter.value, blocks, iiter.index, u, s);
        NothingInBlock(blocks, index, u, s, iiter.index);
      } else {
        looked := Some(iiter.index);
        r := GetFromBlock(blocks, index, u, s, iiter.index);
      }
    }
  }

  predicate Hides(f: Filter, i: nat, k: InternalKey)
    requires i < |f.offsets|
  {
    !F.KeyMayMatch(f.policy, f.block, f.offsets[i], f.encode(k))
  }

  method GetFromBlock(blocks: seq<seq<Entry>>, index: seq<Entry>, u: UserKey, s: SequenceNumber, i: nat)
    returns (r: Option<Entry>)
    requires Indexed(blocks, index) && SplitsNoUserKey(blocks, index)
    requires i == SeekIndex(index, LookupKey(u, s)) < |blocks|
    ensures r == TableGet(Flat(blocks), u, s)
  {
    hide Indexed, SplitsNoUserKey, Sorted, Less, SeekIndex, Concat;
    IndexFacts(blocks, index);
    var k := LookupKey(u, s);
    SeekThroughIndex(blocks, index, k);
    BlockIsSorted(blocks, i);
    var blockIter := new Cursor(blocks[i]);
    blockIter.Seek(k);
    r := None;
    if blockIter.Valid() {
      ConcatAt(blocks, i, blockIter.index, |blocks|);
      if blockIter.Current().key.user == u {
        r := Some(blockIter.Current());
      }
    } else {
      NothingFurtherOn(blocks, index, u, s, i);
    }
  }

  lemma NothingInBlock(blocks: seq<seq<Entry>>, index: seq<Entry>, u: UserKey, s: SequenceNumber, i: nat)
    requires Indexed(blocks, index) && SplitsNoUserKey(blocks, index)
    requires i == SeekIndex(index, LookupKey(u, s)) < |blocks| && forall e :: e in blocks[i] ==> e.key.user != u
    ensures TableGet(Flat(blocks), u, s) == None
  {
    hide Indexed, SplitsNoUserKey, Sorted, SeekIndex, Concat, Less;
    var k := LookupKey(u, s);
    IndexFacts(blocks, index);
    SeekThroughIndex(blocks, index, k);
    var p := SeekIndex(blocks[i], k);
    if p < |blocks[i]| {
      ConcatAt(blocks, i, p, |blocks|);
    } else {
      NothingFurtherOn(blocks, index, u, s, i);
    }
  }

  /** Past the end of the one block, there is nothing of the user key sought. */
  lemma NothingFurtherOn(blocks: seq<seq<Entry>>, index: seq<Entry>, u: UserKey, s: SequenceNumber, i: nat)
    requires Indexed(blocks, index) && SplitsNoUserKey(blocks, index)
    requires i == SeekIndex(index, LookupKey(u, s)) < |blocks|
    requires SeekIndex(blocks[i], LookupKey(u, s)) == |blocks[i]|
    ensures TableGet(Flat(blocks), u, s) == None
  {
    hide Indexed, Sorted, SeekIndex, Concat, Less;
    var k := LookupKey(u, s);
    IndexFacts(blocks, index);
    SeekThroughIndex(blocks, index, k);
    var m := SeekIndex(Flat(blocks), k);
    if m < |Flat(blocks)| {
      var b, q := ConcatFrom(blocks, |blocks|, m);
      if b < i {
        EarlierPart(blocks, b, q, i);
      }
      assert blocks[b][q] in blocks[b];
      PastTheBlock(blocks, index, u, s, i);
    }
  }

  /** The block ends before the key sought, the index key does not: the two differ. */
  lemma PastTheBlock(blocks: seq<seq<Entry>>, index: seq<Entry>, u: UserKey, s: SequenceNumber, i: nat)
    requires |index| == |blocks| && i == SeekIndex(index, LookupKey(u, s)) < |blocks|
    requires SeekIndex(blocks[i], LookupKey(u, s)) == |blocks[i]|
    ensures u <= index[i].key.user && forall x :: x in blocks[i] ==> x.key != index[i].key
  {
  }

  // ---- iterating --------------------------------------------------------------------------------------

  /** TwoLevelIterator: an index iterator, and a data iterator over the block it stands at.  Blocks may
    * be empty.
    */
  class TwoLevelIterator {
    const index: Cursor
    const blocks: seq<seq<Entry>>
    var data: Cursor?
    var dataBlock: nat

    /** Where the cursor stands in the whole table; its length when not valid. */
    ghost var position: nat

    constructor (index: Cursor, blocks: seq<seq<Entry>>)
      requires Indexed(blocks, index.entries)
      ensures Inv() && !Valid() && this.index == index && this.blocks == blocks
    {
      this.index, this.blocks := index, blocks;
      data, dataBlock, position := null, 0, |Flat(blocks)|;
    }

    predicate Valid()
      reads this, data
    {
      data != null && data.Valid()
    }

    /** The data iterator, if there is one, moves over the block that it was made for. */
    ghost predicate OnBlock()
      reads this, data
    {
      && data != index
      && (data != null ==> dataBlock < |blocks| && data.entries == blocks[dataBlock])
    }

    ghost predicate Inv()
      reads this, data, index
    {
      && Indexed(blocks, index.entries) && OnBlock()
      && if Valid() then index.index == dataBlock && position == Base(blocks, dataBlock) + data.index
         else position == |Flat(blocks)|
    }

    function Current(): Entry
      requires Inv() && Valid()
      reads this, data, index
      ensures position < |Flat(blocks)| && Current() == Flat(blocks)[position]
    {
      ConcatAt(blocks, dataBlock, data.index, |blocks|);
      data.Current()
    }

    /** InitDataBlock: a data iterator for the block that the index iterator stands at. */
    method InitDataBlock()
      requires Indexed(blocks, index.entries) && OnBlock()
      modifies this`data, this`dataBlock
      ensures OnBlock() && (index.Valid() <==> data != null) && (data != null ==> dataBlock == index.index)
      ensures data == null || data == old(data) || fresh(data)
    {
      hide Sorted, Concat;
      if !index.Valid() {
        data := null;
      } else if data == null || dataBlock != index.index {
        BlockIsSorted(blocks, index.index);
        data := new Cursor(blocks[index.index]);
        dataBlock := index.index;
      }
    }

    /** Where the data iterator stands in the table, if it is at the end of its block too. */
    ghost function Place(): nat
      reads this, data
      requires OnBlock()
    {
      if data == null then |Flat(blocks)| else Base(blocks, dataBlock) + data.index
    }

    method SkipEmptyDataBlocksForward()
      requires Indexed(blocks, index.entries) && OnBlock()
      requires data != null ==> dataBlock == index.index && data.index <= |data.entries|
      requires data == null ==> !index.Valid()
      modifies this, index, data
      ensures Inv() && position == old(Place()) && (Valid() <==> position < |Flat(blocks)|)
      ensures data == null || data == old(data) || fresh(data)
    {
      position := Place();
      while data == null || !data.Valid()
        invariant OnBlock() && position == old(Place()) == Place()
        invariant data != null ==> dataBlock == index.index && data.index <= |data.entries|
        invariant data == null ==> !index.Valid()
        invariant data == null || data == old(data) || fresh(data)
        decreases if index.Valid() then |blocks| - index.index else 0, data != null
      {
        if !index.Valid() {
          data := null;
          break;
        }
        index.Next();
        InitDataBlock();
        if data != null {
          data.SeekToFirst();
        }
      }
      if Valid() {
        ConcatAt(blocks, dataBlock, data.index, |blocks|);
      }
    }

    /** How many entries of the table lie at or before the data iterator, or before its block if it
      * has run off the front.
      */
    ghost function Behind(): nat
      reads this, data
      requires OnBlock()
    {
      if data == null then 0
      else Base(blocks, dataBlock) + if data.Valid() then data.index + 1 else 0
    }

    method SkipEmptyDataBlocksBackward()
      requires Indexed(blocks, index.entries) && OnBlock()
      requires data != null ==> dataBlock == index.index
      requires data == null ==> !index.Valid()
      modifies this, index, data
      ensures Inv() && (Valid() <==> old(Behind()) > 0)
      ensures position == if old(Behind()) > 0 then old(Behind()) - 1 else |Flat(blocks)|
      ensures data == null || data == old(data) || fresh(data)
    {
      ghost var p := Behind();
      while data == null || !data.Valid()
        invariant OnBlock() && p == old(Behind()) == Behind()
        invariant data != null ==> dataBlock == index.index
        invariant data == null ==> !index.Valid()
        invariant data == null || data == old(data) || fresh(data)
        decreases if index.Valid() then index.index + 1 else 0, data != null
      {
        if !index.Valid() {
          data := null;
          break;
        }
        index.Prev();
        InitDataBlock();
        if data != null {
          data.SeekToLast();
        }
      }
      position := if p > 0 then p - 1 else |Flat(blocks)|;
    }

    method Seek(target: InternalKey)
      requires Inv()
      modifies this, index, data
      ensures Inv() && position == SeekIndex(Flat(blocks), target) && (Valid() <==> position < |Flat(blocks)|)
      ensures data == null || data == old(data) || fresh(data)
    {
      hide Sorted, Less, SeekIndex, Indexed, Concat;
      IndexFacts(blocks, index.entries);
      SeekThroughIndex(blocks, index.entries, target);
      index.Seek(target);
      InitDataBlock();
      if data != null {
        data.Seek(target);
      }
      SkipEmptyDataBlocksForward();
    }

    method SeekToFirst()
      requires Inv()
      modifies this, index, data
      ensures Inv() && position == 0 && (Valid() <==> Flat(blocks) != [])
      ensures data == null || data == old(data) || fresh(data)
    {
      hide Sorted, Less, SeekIndex;
      index.SeekToFirst();
      InitDataBlock();
      if data != null {
        data.SeekToFirst();
      }
      SkipEmptyDataBlocksForward();
    }

    method SeekToLast()
      requires Inv()
      modifies this, index, data
      ensures Inv() && (Valid() <==> Flat(blocks) != []) && (Valid() ==> position == |Flat(blocks)| - 1)
      ensures data == null || data == old(data) || fresh(data)
    {
      hide Sorted, Less, SeekIndex;
      index.SeekToLast();
      InitDataBlock();
      if data != null {
        data.SeekToLast();
      }
      SkipEmptyDataBlocksBackward();
    }

    method Next()
      requires Inv() && Valid()
      modifies this, index, data
      ensures Inv() && position == old(position) + 1 && (Valid() <==> position < |Flat(blocks)|)
      ensures data == null || data == old(data) || fresh(data)
    {
      hide Sorted, Less, SeekIndex, Indexed, Concat;
      data.Next();
      SkipEmptyDataBlocksForward();
    }

    method Prev()
      requires Inv() && Valid()
      modifies this, index, data
      ensures Inv() && (Valid() <==> old(position) > 0)
      ensures position == if old(position) > 0 then old(position) - 1 else |Flat(blocks)|
      ensures data == null || data == old(data) || fresh(data)
    {
      hide Sorted, Less, SeekIndex, Indexed, Concat;
      data.Prev();
      SkipEmptyDataBlocksBackward();
    }
  }
}
