/** The filter block of a table (table/filter_block.cc): one filter for every 2 KB of data blocks. */
module FilterBlocks {
  import opened InternalKeys
  import opened Sequences
  import opened Coding
  import BloomFilters

  const FILTER_BASE_LG: nat := 11
  const FILTER_BASE: nat := 2048

  /** A filter policy: how it makes a filter, and when a key may match one. */
  datatype Policy = Policy(create: seq<Bytes> -> Bytes, mayMatch: (Bytes, Bytes) -> bool)

  /** A block that was started at an offset, and a key added to it. */
  datatype Added = Added(offset: nat, key: Bytes)

  /** What GenerateFilter appends: nothing if there are no keys. */
  function FilterOf(policy: Policy, keys: seq<Bytes>): Bytes {
    if keys == [] then [] else policy.create(keys)
  }

  function FiltersOf(policy: Policy, groups: seq<seq<Bytes>>): (r: seq<Bytes>)
    ensures |r| == |groups|
  {
    seq(|groups|, i requires 0 <= i < |groups| => FilterOf(policy, groups[i]))
  }

  ghost predicate Flattened(keys: Bytes, start: seq<nat>, parts: seq<Bytes>) {
    && |start| == |parts| && keys == Concat(parts, |parts|)
    && forall i :: 0 <= i < |parts| ==> start[i] == |Concat(parts, i)|
  }

  ghost predicate InGroup(groups: seq<seq<Bytes>>, offset: nat, key: Bytes) {
    offset / FILTER_BASE < |groups| && key in groups[offset / FILTER_BASE]
  }

  class FilterBlockBuilder {
    const policy: Policy
    var keys: Bytes
    var start: seq<nat>
    var result: Bytes
    var filterOffsets: seq<nat>

    /** The keys behind each filter so far, those waiting for the next, the current block, and everything added. */
    ghost var groups: seq<seq<Bytes>>
    ghost var waiting: seq<Bytes>
    ghost var current: Option<nat>
    ghost var added: set<Added>

    ghost predicate Laid()
      reads this
    {
      && Flattened(keys, start, waiting)
      && result == Concat(FiltersOf(policy, groups), |groups|)
      && |filterOffsets| == |groups|
      && forall i :: 0 <= i < |groups| ==> filterOffsets[i] == |Concat(FiltersOf(policy, groups), i)|
    }

    /** Every key is where the reader will look for it. */
    ghost predicate Kept(offset: nat, key: Bytes)
      reads this
    {
      InGroup(groups, offset, key) || (offset / FILTER_BASE == |groups| && key in waiting)
    }

    ghost predicate AllKept()
      reads this
    {
      && (forall a :: a in added ==> Kept(a.offset, a.key))
      && (if current.None? then added == {} && waiting == [] && groups == []
          else current.value / FILTER_BASE == |groups|)
    }

    ghost predicate Valid()
      reads this
    {
      Laid() && AllKept()
    }

    constructor (policy: Policy)
      ensures Valid() && this.policy == policy && added == {} && current == None
    {
      this.policy := policy;
      keys, start, result, filterOffsets := [], [], [], [];
      groups, waiting, current, added := [], [], None, {};
    }

    /** Block offsets do not go down. */
    method StartBlock(offset: nat)
      requires Valid() && (current.Some? ==> current.value <= offset)
      modifies this
      ensures Valid() && current == Some(offset) && added == old(added)
    {
      var index := offset / FILTER_BASE;
      while index > |filterOffsets|
        invariant Laid() && added == old(added) && |groups| <= index
        invariant forall a :: a in added ==> Kept(a.offset, a.key)
        decreases index - |filterOffsets|
      {
        GenerateFilter();
      }
      current := Some(offset);
    }

    method AddKey(key: Bytes)
      requires Valid() && current.Some?
      modifies this
      ensures Valid() && current == old(current) && added == old(added) + {Added(current.value, key)}
    {
      OneMoreKey(keys, start, waiting, key);
      start := start + [|keys|];
      keys := keys + key;
      waiting := waiting + [key];
      added := added + {Added(current.value, key)};
    }

    method GenerateFilter()
      requires Laid() && forall a :: a in added ==> Kept(a.offset, a.key)
      modifies this
      ensures Laid() && (forall a :: a in added ==> Kept(a.offset, a.key))
      ensures groups == old(groups) + [old(waiting)] && waiting == [] && added == old(added)
    {
      hide FiltersOf;
      var numKeys := |start|;
      OneMoreFilter(policy, groups, waiting);
      filterOffsets := filterOffsets + [|result|];
      if numKeys > 0 {
        var tmpKeys := ListKeys();
        result := result + policy.create(tmpKeys);
        keys := [];
        start := [];
      }
      groups := groups + [waiting];
      waiting := [];
    }

    /** The list of keys again, from the flattened ones. */
    method ListKeys() returns (tmpKeys: seq<Bytes>)
      requires Flattened(keys, start, waiting)
      ensures tmpKeys == waiting
    {
      var ends := start + [|keys|];
      tmpKeys := [];
      for i := 0 to |start|
        invariant tmpKeys == waiting[..i]
      {
        KeyIsPart(keys, start, waiting, i);
        tmpKeys := tmpKeys + [keys[ends[i]..ends[i + 1]]];
      }
    }

    method Finish() returns (block: Bytes)
      requires Valid()
      modifies this
      ensures added == old(added) && forall a :: a in added ==> InGroup(groups, a.offset, a.key)
      ensures block == BlockOf(FiltersOf(policy, groups))
    {
      if |start| != 0 {
        GenerateFilter();
      }
      block := WriteBlock();
    }

    /** The block: the filters, where they start, where those offsets start, and the base. */
    method WriteBlock() returns (block: Bytes)
      requires Laid()
      ensures block == BlockOf(FiltersOf(policy, groups))
    {
      hide Offsets, FiltersOf;
      ghost var filters := FiltersOf(policy, groups);
      var arrayOffset := |result|;
      block := result;
      assert result + [] == result;
      for i := 0 to |filterOffsets|
        invariant block == result + Concat(Offsets(filters), i)
      {
        OffsetAt(filters, i);
        Assoc(result, Concat(Offsets(filters), i), Offsets(filters)[i]);
        block := block + EncodeFixed32(filterOffsets[i] % 0x1_0000_0000);
      }
      block := block + EncodeFixed32(arrayOffset % 0x1_0000_0000);
      block := block + [FILTER_BASE_LG];
    }
  }

  function Offsets(filters: seq<Bytes>): (r: seq<Bytes>)
    ensures |r| == |filters|
  {
    seq(|filters|, i requires 0 <= i < |filters| => EncodeFixed32(|Concat(filters, i)| % 0x1_0000_0000))
  }

  function BlockOf(filters: seq<Bytes>): Bytes {
    Concat(filters, |filters|) + Concat(Offsets(filters), |filters|)
    + EncodeFixed32(|Concat(filters, |filters|)| % 0x1_0000_0000) + [FILTER_BASE_LG]
  }

  lemma OffsetAt(filters: seq<Bytes>, i: nat)
    requires i < |filters|
    ensures Offsets(filters)[i] == EncodeFixed32(|Concat(filters, i)| % 0x1_0000_0000)
  {
  }

  lemma OneMoreKey(keys: Bytes, start: seq<nat>, parts: seq<Bytes>, key: Bytes)
    requires Flattened(keys, start, parts)
    ensures Flattened(keys + key, start + [|keys|], parts + [key])
  {
    OneMorePart(parts, key);
  }

  lemma KeyIsPart(keys: Bytes, start: seq<nat>, parts: seq<Bytes>, i: nat)
    requires Flattened(keys, start, parts) && i < |parts|
    ensures var ends := start + [|keys|];
            ends[i] <= ends[i + 1] <= |keys| && keys[ends[i]..ends[i + 1]] == parts[i]
  {
    ConcatGrows(parts, i + 1);
    var from := |Concat(parts, i)|;
    assert |Concat(parts, i + 1)| == from + |parts[i]|;
    forall p: nat | p < |parts[i]| ensures keys[from + p] == parts[i][p] {
      ConcatAt(parts, i, p, |parts|);
    }
  }

  lemma OneMoreFilter(policy: Policy, groups: seq<seq<Bytes>>, group: seq<Bytes>)
    ensures var before, after := FiltersOf(policy, groups), FiltersOf(policy, groups + [group]);
            && Concat(after, |groups| + 1) == Concat(before, |groups|) + FilterOf(policy, group)
            && forall i :: 0 <= i <= |groups| ==> Concat(after, i) == Concat(before, i)
  {
    hide FiltersOf, FilterOf, Concat;
    FiltersAppend(policy, groups, group);
    OneMorePart(FiltersOf(policy, groups), FilterOf(policy, group));
  }

  lemma FiltersAppend(policy: Policy, groups: seq<seq<Bytes>>, group: seq<Bytes>)
    ensures FiltersOf(policy, groups + [group]) == FiltersOf(policy, groups) + [FilterOf(policy, group)]
  {
    hide FilterOf;
  }

  lemma OneMorePart(parts: seq<Bytes>, part: Bytes)
    ensures Concat(parts + [part], |parts| + 1) == Concat(parts, |parts|) + part
    ensures forall i :: 0 <= i <= |parts| ==> Concat(parts + [part], i) == Concat(parts, i)
  {
    ConcatOneMore(parts, part);
    forall i | 0 <= i <= |parts| ensures Concat(parts + [part], i) == Concat(parts, i) {
      ConcatPrefix(parts, parts + [part], i);
    }
  }

  // ---- reading ----------------------------------------------------------------------------------------------

  /** offset >> lg */
  function ShiftRight(offset: nat, lg: nat): nat {
    if lg == 0 then offset else ShiftRight(offset / 2, lg - 1)
  }

  /** FilterBlockReader: anything that does not look right may match. */
  function KeyMayMatch(policy: Policy, block: Bytes, offset: nat, key: Bytes): bool {
    var n := |block|;
    n < 5
    || var lastWord := DecodeFixed32(block[n - 5..n - 1]);
       lastWord > n - 5
       || var num, index := (n - 5 - lastWord) / 4, ShiftRight(offset, block[n - 1]);
          index >= num
          || var at := lastWord + 4 * index;
             var from, limit := DecodeFixed32(block[at..at + 4]), DecodeFixed32(block[at + 4..at + 8]);
             if from <= limit <= lastWord then policy.mayMatch(key, block[from..limit]) else from != limit
  }

  lemma {:induction false} OffsetsLength(filters: seq<Bytes>, n: nat)
    requires n <= |filters|
    ensures |Concat(Offsets(filters), n)| == 4 * n
  {
    hide EncodeFixed32, Offsets;
    if n > 0 {
      OffsetsLength(filters, n - 1);
      OffsetAt(filters, n - 1);
    }
  }

  /** The i-th word of the array; the last one is followed by the offset of the array itself. */
  lemma WordOfBlock(filters: seq<Bytes>, i: nat)
    requires i <= |filters| && |Concat(filters, |filters|)| < 0x1_0000_0000
    ensures var block, at := BlockOf(filters), |Concat(filters, |filters|)| + 4 * i;
            && |block| == |Concat(filters, |filters|)| + 4 * |filters| + 5
            && DecodeFixed32(block[at..at + 4]) == |Concat(filters, i)|
  {
    hide EncodeFixed32, DecodeFixed32, Offsets;
    var data, words := Concat(filters, |filters|), Concat(Offsets(filters), |filters|);
    var word := |Concat(filters, i)|;
    OffsetsLength(filters, |filters|);
    ConcatGrows(filters, i);
    DecodeEncodeFixed32(word);
    var block, at := BlockOf(filters), |data| + 4 * i;
    if i < |filters| {
      OffsetsLength(filters, i);
      OffsetAt(filters, i);
      forall p: nat | p < 4 ensures block[at + p] == EncodeFixed32(word)[p] {
        ConcatAt(Offsets(filters), i, p, |filters|);
        assert block[at + p] == words[4 * i + p];
      }
    } else {
      forall p: nat | p < 4 ensures block[at + p] == EncodeFixed32(word)[p] {
      }
    }
    assert block[at..at + 4] == EncodeFixed32(word);
  }

  lemma FilterOfBlock(filters: seq<Bytes>, i: nat)
    requires i < |filters| && |Concat(filters, |filters|)| < 0x1_0000_0000
    ensures |Concat(filters, i)| <= |Concat(filters, i + 1)| <= |Concat(filters, |filters|)|
    ensures BlockOf(filters)[|Concat(filters, i)|..|Concat(filters, i + 1)|] == filters[i]
  {
    hide EncodeFixed32, Offsets;
    ConcatGrows(filters, i + 1);
    var from := |Concat(filters, i)|;
    assert |Concat(filters, i + 1)| == from + |filters[i]|;
    forall p: nat | p < |filters[i]| ensures BlockOf(filters)[from + p] == filters[i][p] {
      ConcatAt(filters, i, p, |filters|);
    }
  }

  lemma BaseOfBlock(offset: nat)
    ensures ShiftRight(offset, FILTER_BASE_LG) == offset / FILTER_BASE
  {
    hide ShiftRight;
    FourBits(offset, 7);
    FourBits(offset / 16, 3);
    FourBits(offset / 256, 0);
  }

  lemma FourBits(offset: nat, lg: nat)
    ensures ShiftRight(offset, lg + 4) == ShiftRight(offset / 16, lg)
    ensures lg == 0 ==> ShiftRight(offset, 3) == offset / 8
  {
    var half, quarter, eighth := offset / 2, offset / 4, offset / 8;
    assert ShiftRight(offset, lg + 4) == ShiftRight(half, lg + 3) == ShiftRight(quarter, lg + 2);
    assert ShiftRight(quarter, lg + 2) == ShiftRight(eighth, lg + 1) == ShiftRight(eighth / 2, lg);
    if lg == 0 {
      assert ShiftRight(offset, 3) == ShiftRight(half, 2) == ShiftRight(quarter, 1) == ShiftRight(eighth, 0);
    }
  }

  /** The reader asks exactly the filter that the builder made for the 2 KB that the offset is in. */
  lemma ReaderAsksFilter(policy: Policy, filters: seq<Bytes>, offset: nat, key: Bytes)
    requires |Concat(filters, |filters|)| < 0x1_0000_0000
    ensures var index := offset / FILTER_BASE;
            KeyMayMatch(policy, BlockOf(filters), offset, key)
            <==> index >= |filters| || policy.mayMatch(key, filters[index])
  {
    hide EncodeFixed32, DecodeFixed32, Offsets, ShiftRight;
    var block, n, index := BlockOf(filters), |filters|, offset / FILTER_BASE;
    WordOfBlock(filters, n);
    BaseOfBlock(offset);
    assert block[|block| - 1] == FILTER_BASE_LG;
    if index < n {
      WordOfBlock(filters, index);
      WordOfBlock(filters, index + 1);
      FilterOfBlock(filters, index);
    }
  }

  /** A key that was added after a block was started may match that block, if the policy does not lose keys. */
  lemma NeverLosesAKey(policy: Policy, groups: seq<seq<Bytes>>, offset: nat, key: Bytes, sought: Bytes)
    requires InGroup(groups, offset, key) && |Concat(FiltersOf(policy, groups), |groups|)| < 0x1_0000_0000
    requires forall keys :: key in keys ==> policy.mayMatch(sought, policy.create(keys))
    ensures KeyMayMatch(policy, BlockOf(FiltersOf(policy, groups)), offset, sought)
  {
    hide KeyMayMatch, BlockOf;
    ReaderAsksFilter(policy, FiltersOf(policy, groups), offset, sought);
  }

  // ---- policies -----------------------------------------------------------------------------------------------

  ghost function Bloom(hash: BloomFilters.Hash, k: nat, bitsPerKey: nat): Policy
    requires k <= 30
  {
    Policy(keys => BloomFilters.Filter(hash, k, bitsPerKey, keys),
           (key, filter) => BloomFilters.MayMatch(hash, key, filter))
  }

  /** ExtractUserKey: all but the sequence number and type. */
  function UserPart(key: Bytes): Bytes {
    if |key| >= 8 then key[..|key| - 8] else []
  }

  function UserParts(keys: seq<Bytes>): (r: seq<Bytes>)
    ensures |r| == |keys|
    ensures forall key :: key in keys ==> UserPart(key) in r
  {
    if keys == [] then [] else [UserPart(keys[0])] + UserParts(keys[1..])
  }

  /** InternalFilterPolicy: the policy of the user, on user keys. */
  function Internal(user: Policy): Policy {
    Policy(keys => user.create(UserParts(keys)), (key, filter) => user.mayMatch(UserPart(key), filter))
  }

  /** The filter block that LevelDB makes with a Bloom filter never hides an entry: whatever internal key is
    * looked up, the blocks that hold an entry of its user key may match.
    */
  lemma BloomBlockNeverHides(hash: BloomFilters.Hash, k: nat, bitsPerKey: nat, groups: seq<seq<Bytes>>, offset: nat,
                             key: Bytes, sought: Bytes)
    requires k <= 30 && InGroup(groups, offset, key) && UserPart(sought) == UserPart(key)
    requires |Concat(FiltersOf(Internal(Bloom(hash, k, bitsPerKey)), groups), |groups|)| < 0x1_0000_0000
    ensures var policy := Internal(Bloom(hash, k, bitsPerKey));
            KeyMayMatch(policy, BlockOf(FiltersOf(policy, groups)), offset, sought)
  {
    var policy := Internal(Bloom(hash, k, bitsPerKey));
    forall keys | key in keys ensures policy.mayMatch(sought, policy.create(keys)) {
      BloomMayMatch(hash, k, bitsPerKey, keys, key, sought);
    }
    NeverLosesAKey(policy, groups, offset, key, sought);
  }

  lemma BloomMayMatch(hash: BloomFilters.Hash, k: nat, bitsPerKey: nat, keys: seq<Bytes>, key: Bytes, sought: Bytes)
    requires k <= 30 && key in keys && UserPart(sought) == UserPart(key)
    ensures var policy := Internal(Bloom(hash, k, bitsPerKey)); policy.mayMatch(sought, policy.create(keys))
  {
    BloomFilters.FilterMatches(hash, k, bitsPerKey, UserParts(keys), UserPart(sought));
  }
}
