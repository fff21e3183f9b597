/** How a compaction is carried out: the merge loop of DBImpl::DoCompactionWork, the stateful
  * level pointers of class Compaction, and the level lists that VersionSet::Builder saves.
  */
module CompactionWork {
  import opened InternalKeys
  import opened History
  import opened Versions
  import opened InputSelection
  import opened Compactions

  class Compaction {
    const version: Version
    const level: nat
    const grandparents: seq<File>
    const maxFileSize: nat
    const levelPtrs: array<nat>
    var grandparentIndex: nat
    var seenKey: bool
    var overlappedBytes: nat

    constructor (v: Version, level: nat, grandparents: seq<File>, maxFileSize: nat)
      requires Shape(v) && InOrder(grandparents)
      ensures this.version == v && this.level == level && this.maxFileSize == maxFileSize
      ensures this.grandparents == grandparents
      ensures AtStart() && fresh(levelPtrs)
    {
      this.version := v;
      this.level := level;
      this.grandparents := grandparents;
      this.maxFileSize := maxFileSize;
      this.levelPtrs := new nat[NUM_LEVELS](i => 0);
      this.grandparentIndex, this.seenKey, this.overlappedBytes := 0, false, 0;
    }

    ghost predicate Valid()
      reads this, levelPtrs
    {
      && Shape(version) && InOrder(grandparents)
      && levelPtrs.Length == NUM_LEVELS
      && (forall l :: 0 <= l < NUM_LEVELS ==> levelPtrs[l] <= |version[l]|)
      && grandparentIndex <= |grandparents|
    }

    ghost predicate AtStart()
      reads this, levelPtrs
    {
      && Valid() && (forall l :: 0 <= l < NUM_LEVELS ==> levelPtrs[l] == 0)
      && grandparentIndex == 0 && !seenKey && overlappedBytes == 0
    }

    // ---- where outputs end ------------------------------------------------------------------------------

    /** The last entry up to n at which an output had to stop, because the grandparents passed since the stop before it
      * were too many; the first entry, if there was none.
      */
    ghost function LastStop(input: seq<Entry>, n: nat): (s: nat)
      requires n < |input|
      ensures s <= n
    {
      if n == 0 then 0
      else
        var s := LastStop(input, n - 1);
        if BytesBetween(grandparents, input[s].key, input[n].key) > 10 * maxFileSize then n else s
    }

    ghost predicate StopsAt(input: seq<Entry>, n: nat) {
      0 < n < |input| && LastStop(input, n) == n
    }

    /** The counters when n entries have come. */
    ghost predicate Counts(input: seq<Entry>, n: nat)
      requires n <= |input|
      reads this
    {
      && seenKey == (n > 0) && grandparentIndex <= |grandparents|
      && if n == 0 then grandparentIndex == 0 && overlappedBytes == 0
         else && Passes(grandparents, grandparentIndex, input[n - 1].key)
              && overlappedBytes == BytesBetween(grandparents, input[LastStop(input, n - 1)].key, input[n - 1].key)
    }

    /** What a finished output has ended with: it was full, or the next entry was one to stop at. */
    ghost predicate EndsRightly(outs: seq<File>, i: nat, snap: SequenceNumber, input: seq<Entry>, tableSize: seq<Entry> -> nat)
      requires i < |outs|
    {
      || tableSize(outs[i].entries) >= maxFileSize
      || exists n: nat :: StopsAt(input, n) && Flatten(outs[..i + 1]) == Survivors(version, level, snap, input, n)
    }

    /** Before entry n, one output had ended and the next had not begun. */
    ghost predicate EndedBefore(outs: seq<File>, snap: SequenceNumber, input: seq<Entry>, n: nat)
      requires n <= |input|
    {
      exists i :: 0 <= i <= |outs| && Flatten(outs[..i]) == Survivors(version, level, snap, input, n)
    }

    /** So far, with n entries come, outputs have ended where they have to, and nowhere else. */
    ghost predicate CutSoFar(outs: seq<File>, snap: SequenceNumber, input: seq<Entry>, n: nat, tableSize: seq<Entry> -> nat)
      requires n <= |input|
    {
      && (forall i :: 0 <= i < |outs| ==> EndsRightly(outs, i, snap, input, tableSize))
      && (forall k :: 0 <= k < n && StopsAt(input, k) ==> EndedBefore(outs, snap, input, k))
    }

    /** ShouldStopBefore, called for one entry after the other, says where to stop. */
    method CountEntry(ghost input: seq<Entry>, ghost n: nat, key: InternalKey) returns (stop: bool)
      requires Valid() && Sorted(input) && n < |input| && key == input[n].key && Counts(input, n)
      modifies this
      ensures Valid() && (forall u :: old(Behind(u)) ==> Behind(u))
      ensures Counts(input, n + 1) && (stop <==> StopsAt(input, n))
    {
      hide BytesBetween, Passes, Sorted, Shape, InOrder, TotalFileSize;
      ghost var from := grandparentIndex;
      stop := ShouldStopBefore(key);
      if n > 0 {
        PassedSince(grandparents, input, LastStop(input, n - 1), n, from, grandparentIndex);
      } else {
        PassedAtFirst(grandparents, key, grandparentIndex);
      }
      NothingBetween(grandparents, key);
    }

    /** Every file a level pointer has passed ends before u. */
    ghost predicate Behind(u: UserKey)
      reads this, levelPtrs
    {
      && Valid()
      && forall l, i :: 0 <= l < NUM_LEVELS && 0 <= i < levelPtrs[l] ==> version[l][i].largest.user < u
    }

    /** IsBaseLevelForKey: because keys arrive in order, the pointers answer like a full scan. */
    method IsBaseLevelForKey(u: UserKey) returns (r: bool)
      requires Behind(u)
      modifies levelPtrs
      ensures Behind(u)
      ensures r <==> BaseLevel(version, level, u)
    {
      var lvl := level + 2;
      while lvl < NUM_LEVELS
        invariant Behind(u) && level + 2 <= lvl
        invariant forall l, f :: level + 2 <= l < lvl && l < NUM_LEVELS && f in version[l] ==> !Covers(f, u)
      {
        var files := version[lvl];
        while levelPtrs[lvl] < |files|
          invariant Behind(u)
          invariant forall i :: 0 <= i < levelPtrs[lvl] ==> files[i].largest.user < u
          decreases |files| - levelPtrs[lvl]
        {
          var f := files[levelPtrs[lvl]];
          assert f in files;
          if u <= f.largest.user {
            if u >= f.smallest.user {
              assert f in version[lvl] && Covers(f, u);
              return false;
            }
            break;
          }
          levelPtrs[lvl] := levelPtrs[lvl] + 1;
        }
        NoneCovers(version, lvl, levelPtrs[lvl], u);
        lvl := lvl + 1;
      }
      r := true;
    }

    /** ShouldStopBefore: counts the grandparent bytes passed since the output file was started. */
    method ShouldStopBefore(key: InternalKey) returns (r: bool)
      requires Valid()
      modifies this
      ensures Valid() && forall u :: old(Behind(u)) ==> Behind(u)
      ensures old(grandparentIndex) <= grandparentIndex && seenKey
      ensures forall i :: old(grandparentIndex) <= i < grandparentIndex ==> Less(grandparents[i].largest, key)
      ensures grandparentIndex < |grandparents| ==> !Less(grandparents[grandparentIndex].largest, key)
      ensures var passed := old(overlappedBytes) +
                (if old(seenKey) then TotalFileSize(grandparents[old(grandparentIndex)..grandparentIndex]) else 0);
              (r <==> passed > 10 * maxFileSize) && overlappedBytes == if r then 0 else passed
    {
      ghost var from := grandparentIndex;
      ghost var bytes := overlappedBytes;
      while grandparentIndex < |grandparents|
            && Compare(key, grandparents[grandparentIndex].largest) > 0
        invariant Valid() && from <= grandparentIndex && seenKey == old(seenKey)
        invariant forall i :: from <= i < grandparentIndex ==> Less(grandparents[i].largest, key)
        invariant overlappedBytes ==
                  bytes + if seenKey then TotalFileSize(grandparents[from..grandparentIndex]) else 0
        decreases |grandparents| - grandparentIndex
      {
        TotalFileSizeAppends(grandparents, from, grandparentIndex);
        if seenKey {
          overlappedBytes := overlappedBytes + grandparents[grandparentIndex].size;
        }
        grandparentIndex := grandparentIndex + 1;
      }
      seenKey := true;
      if overlappedBytes > 10 * maxFileSize {
        overlappedBytes := 0;
        r := true;
      } else {
        r := false;
      }
    }
  }

  // ---- grandparents ----------------------------------------------------------------------------------------

  ghost predicate InOrder(files: seq<File>) {
    forall i, j :: 0 <= i < j < |files| ==> Less(files[i].largest, files[j].largest)
  }

  lemma LevelInOrder(files: seq<File>, level: nat)
    requires LevelShape(files, level) && level > 0
    ensures InOrder(files)
  {
    hide SortedBySmallest;
    forall i, j | 0 <= i < j < |files| ensures Less(files[i].largest, files[j].largest) {
      assert files[j] in files && WellFormed(files[j]);
      EntryInRange(files[j], files[j].entries[0]);
    }
  }

  lemma {:induction false} OverlappingInOrder(files: seq<File>, lo: Bound, hi: Bound)
    requires InOrder(files)
    ensures InOrder(Overlapping(files, lo, hi))
  {
    if files != [] {
      var n := |files| - 1;
      OverlappingInOrder(files[..n], lo, hi);
      var rest := Overlapping(files[..n], lo, hi);
      forall i | 0 <= i < |rest| ensures Less(rest[i].largest, files[n].largest) {
        assert rest[i] in rest;
        var j :| 0 <= j < n && files[..n][j] == rest[i];
      }
    }
  }

  lemma GrandparentsInOrder(v: Version, level: nat, chosen: seq<File>, grandparents: seq<File>)
    requires Shape(v) && 0 < level < NUM_LEVELS && NextLevelInputs(v[level], chosen, grandparents)
    ensures InOrder(grandparents)
  {
    hide InOrder, LevelShape, Overlapping, LevelOrder;
    var smallest, largest :| IsSmallestKey(chosen, smallest) && IsLargestKey(chosen, largest)
                             && grandparents == Overlapping(v[level], Some(smallest.user), Some(largest.user));
    LevelInOrder(v[level], level);
    OverlappingInOrder(v[level], Some(smallest.user), Some(largest.user));
  }

  /** The sizes of the files that end at or after the one key and before the other. */
  ghost function BytesBetween(files: seq<File>, from: InternalKey, to: InternalKey): nat {
    if files == [] then 0
    else
      (if !Less(files[0].largest, from) && Less(files[0].largest, to) then files[0].size else 0)
      + BytesBetween(files[1..], from, to)
  }

  /** The first i files end before the key, the others do not. */
  ghost predicate Passes(files: seq<File>, i: nat, key: InternalKey)
    requires i <= |files|
  {
    && (forall k :: 0 <= k < i ==> Less(files[k].largest, key))
    && (forall k :: i <= k < |files| ==> !Less(files[k].largest, key))
  }

  lemma {:induction false} BetweenIsSlice(files: seq<File>, from: InternalKey, to: InternalKey, i: nat, j: nat)
    requires i <= j <= |files| && Passes(files, i, from) && Passes(files, j, to)
    ensures BytesBetween(files, from, to) == TotalFileSize(files[i..j])
  {
    if files == [] {
      assert files[i..j] == [];
    } else {
      var rest := files[1..];
      if i > 0 {
        BetweenIsSlice(rest, from, to, i - 1, j - 1);
        SliceOfRest(files, i, j);
      } else if j > 0 {
        BetweenIsSlice(rest, from, to, 0, j - 1);
        SliceOfRest(files, 1, j);
        assert files[0..j][1..] == files[1..j];
      } else {
        BetweenIsSlice(rest, from, to, 0, 0);
        assert rest[0..0] == files[0..0] == [];
      }
    }
  }

  lemma SliceOfRest(files: seq<File>, i: nat, j: nat)
    requires 0 < i <= j <= |files|
    ensures files[1..][i - 1..j - 1] == files[i..j]
  {
  }

  lemma {:induction false} BetweenAdds(files: seq<File>, a: InternalKey, b: InternalKey, c: InternalKey)
    requires !Less(b, a) && !Less(c, b)
    ensures BytesBetween(files, a, c) == BytesBetween(files, a, b) + BytesBetween(files, b, c)
  {
    if files != [] {
      BetweenAdds(files[1..], a, b, c);
    }
  }

  lemma {:induction false} NothingBetween(files: seq<File>, key: InternalKey)
    ensures BytesBetween(files, key, key) == 0
  {
    if files != [] {
      NothingBetween(files[1..], key);
    }
  }

  /** What is passed on the way from the entry before to this one is added to what was passed since the stop. */
  lemma {:induction false} PassedSince(files: seq<File>, input: seq<Entry>, stop: nat, n: nat, i: nat, j: nat)
    requires InOrder(files) && Sorted(input) && stop < n < |input| && i <= j <= |files|
    requires Passes(files, i, input[n - 1].key)
    requires forall k :: i <= k < j ==> Less(files[k].largest, input[n].key)
    requires j < |files| ==> !Less(files[j].largest, input[n].key)
    ensures Passes(files, j, input[n].key)
    ensures BytesBetween(files, input[stop].key, input[n].key)
            == BytesBetween(files, input[stop].key, input[n - 1].key) + TotalFileSize(files[i..j])
  {
    var before, key := input[n - 1].key, input[n].key;
    assert Less(before, key) && (stop < n - 1 ==> Less(input[stop].key, before));
    AllPassed(files, j, key);
    BetweenIsSlice(files, before, key, i, j);
    BetweenAdds(files, input[stop].key, before, key);
  }

  lemma PassedAtFirst(files: seq<File>, key: InternalKey, j: nat)
    requires InOrder(files) && j <= |files| && forall k :: 0 <= k < j ==> Less(files[k].largest, key)
    requires j < |files| ==> !Less(files[j].largest, key)
    ensures Passes(files, j, key)
  {
    AllPassed(files, j, key);
  }

  lemma AllPassed(files: seq<File>, j: nat, key: InternalKey)
    requires InOrder(files) && j <= |files| && (j < |files| ==> !Less(files[j].largest, key))
    ensures forall k :: j <= k < |files| ==> !Less(files[k].largest, key)
  {
  }

  /** Past the pointer no file of a sorted level covers u, if the file at the pointer starts later. */
  lemma NoneCovers(v: Version, lvl: nat, ptr: nat, u: UserKey)
    requires Shape(v) && 1 <= lvl < NUM_LEVELS && ptr <= |v[lvl]|
    requires forall i :: 0 <= i < ptr ==> v[lvl][i].largest.user < u
    requires ptr < |v[lvl]| ==> u < v[lvl][ptr].smallest.user
    ensures forall f :: f in v[lvl] ==> !Covers(f, u)
  {
    assert LevelShape(v[lvl], lvl);
    forall f | f in v[lvl] ensures !Covers(f, u) {
      var i :| 0 <= i < |v[lvl]| && v[lvl][i] == f;
      if i > ptr { FilesAreOrdered(v[lvl], ptr, i); }
    }
  }

  // ---- the merge loop ---------------------------------------------------------------------------

  /** last_sequence_for_key as the loop sees it at entry i. */
  function LastSequenceForKey(input: seq<Entry>, i: nat): SequenceNumber
    requires i < |input|
  {
    if i > 0 && input[i - 1].key.user == input[i].key.user then input[i - 1].key.seqno else MAX_SEQUENCE
  }

  ghost predicate Drops(v: Version, level: nat, snap: SequenceNumber, input: seq<Entry>, i: nat)
    requires i < |input|
  {
    var k := input[i].key;
    || LastSequenceForKey(input, i) <= snap
    || (k.kind.Deletion? && k.seqno <= snap && BaseLevel(v, level, k.user))
  }

  ghost function Survivors(v: Version, level: nat, snap: SequenceNumber, input: seq<Entry>, n: nat)
    : (r: seq<Entry>)
    requires n <= |input|
    ensures forall e :: e in r ==> e in input[..n]
  {
    if n == 0 then []
    else
      assert input[..n] == input[..n - 1] + [input[n - 1]];
      var rest := Survivors(v, level, snap, input, n - 1);
      if Drops(v, level, snap, input, n - 1) then rest else rest + [input[n - 1]]
  }

  function Flatten(files: seq<File>): seq<Entry> {
    if files == [] then [] else Flatten(files[..|files| - 1]) + files[|files| - 1].entries
  }

  /** The metadata FinishCompactionOutputFile leaves for a table of these entries. */
  ghost predicate Built(f: File, tableSize: seq<Entry> -> nat) {
    && |f.entries| > 0
    && f.size == tableSize(f.entries)
    && f.smallest == f.entries[0].key
    && f.largest == f.entries[|f.entries| - 1].key
  }

  ghost predicate AllBuilt(files: seq<File>, first: nat, tableSize: seq<Entry> -> nat) {
    forall i :: 0 <= i < |files| ==> Built(files[i], tableSize) && files[i].number == first + i
  }

  /** No output file goes on growing once it has reached the size limit. */
  ghost predicate ClosedInTime(files: seq<File>, tableSize: seq<Entry> -> nat, maxFileSize: nat) {
    forall i :: 0 <= i < |files| ==> BelowLimit(files[i].entries, |files[i].entries| - 1, tableSize, maxFileSize)
  }

  ghost predicate BelowLimit(table: seq<Entry>, n: int, tableSize: seq<Entry> -> nat, maxFileSize: nat)
    requires n <= |table|
  {
    forall k :: 0 < k <= n ==> tableSize(table[..k]) < maxFileSize
  }

  lemma StillBelowLimit(table: seq<Entry>, e: Entry, tableSize: seq<Entry> -> nat, maxFileSize: nat)
    requires BelowLimit(table, |table|, tableSize, maxFileSize)
    ensures BelowLimit(table + [e], |table|, tableSize, maxFileSize)
    ensures tableSize(table + [e]) < maxFileSize ==> BelowLimit(table + [e], |table| + 1, tableSize, maxFileSize)
  {
    forall k | 0 < k <= |table| ensures tableSize((table + [e])[..k]) < maxFileSize {
      assert (table + [e])[..k] == table[..k];
    }
    assert (table + [e])[..|table| + 1] == table + [e];
  }

  /** The finished outputs and the one under construction. */
  ghost predicate WellCut(outs: seq<File>, table: seq<Entry>, first: nat, tableSize: seq<Entry> -> nat,
                          maxFileSize: nat)
  {
    && AllBuilt(outs, first, tableSize) && ClosedInTime(outs, tableSize, maxFileSize)
    && BelowLimit(table, |table|, tableSize, maxFileSize)
  }

  lemma ReadyToFinish(outs: seq<File>, table: seq<Entry>, first: nat, tableSize: seq<Entry> -> nat,
                      maxFileSize: nat)
    requires WellCut(outs, table, first, tableSize, maxFileSize)
    ensures AllBuilt(outs, first, tableSize) && ClosedInTime(outs, tableSize, maxFileSize)
    ensures BelowLimit(table, |table| - 1, tableSize, maxFileSize)
  {
  }

  /** The variables that the merge loop carries from entry to entry. */
  ghost predicate Remembers(input: seq<Entry>, n: nat, has: bool, user: UserKey, last: SequenceNumber)
    requires n <= |input|
  {
    && has == (n > 0)
    && (n > 0 ==> user == input[n - 1].key.user && last == input[n - 1].key.seqno)
  }

  /** DoCompactionWork.  `input` is what the merging iterator yields; `tableSize` is the builder's
    * FileSize after those entries, about which nothing is assumed.
    */
  method DoCompactionWork(c: Compaction, input: seq<Entry>, snap: SequenceNumber,
                          tableSize: seq<Entry> -> nat, nextFile: nat)
    returns (outs: seq<File>)
    requires c.AtStart() && Sorted(input)
    modifies c, c.levelPtrs
    ensures Flatten(outs) == Survivors(c.version, c.level, snap, input, |input|)
    ensures AllBuilt(outs, nextFile, tableSize) && ClosedInTime(outs, tableSize, c.maxFileSize)
    ensures forall i :: 0 <= i < |outs| - 1 ==> c.EndsRightly(outs, i, snap, input, tableSize)
    ensures forall n :: 0 <= n < |input| && c.StopsAt(input, n) ==> c.EndedBefore(outs, snap, input, n)
  {
    hide Shape, BaseLevel, AllBuilt, Flatten, Survivors, Sorted, BelowLimit, ClosedInTime, WellCut, Compaction.Counts,
      Compaction.StopsAt, Compaction.EndsRightly, Compaction.EndedBefore;
    StartOfWork(c, snap, input, nextFile, tableSize);
    outs := [];
    var table: seq<Entry> := [];
    var hasCurrentUserKey, currentUserKey := false, 0.0;
    var lastSequenceForKey: SequenceNumber := MAX_SEQUENCE;
    for n := 0 to |input|
      invariant n < |input| ==> c.Behind(input[n].key.user)
      invariant Remembers(input, n, hasCurrentUserKey, currentUserKey, lastSequenceForKey)
      invariant Flatten(outs) + table == Survivors(c.version, c.level, snap, input, n)
      invariant WellCut(outs, table, nextFile, tableSize, c.maxFileSize)
      invariant c.Counts(input, n) && c.CutSoFar(outs, snap, input, n, tableSize)
    {
      var e := input[n];
      var stop := c.CountEntry(input, n, e.key);
      ghost var before := outs;
      if stop && table != [] {
        ReadyToFinish(outs, table, nextFile, tableSize, c.maxFileSize);
        outs := FinishOutput(outs, table, nextFile, tableSize, c.maxFileSize);
        table := [];
      }
      StopIsRight(c, before, outs, table, snap, input, n, tableSize);

      if !hasCurrentUserKey || e.key.user != currentUserKey {
        currentUserKey := e.key.user;
        hasCurrentUserKey := true;
        lastSequenceForKey := MAX_SEQUENCE;
      }
      var drop := ShouldDrop(c, e.key, lastSequenceForKey, snap);
      NextSurvivor(c, snap, input, n, lastSequenceForKey);
      lastSequenceForKey := e.key.seqno;

      if !drop {
        before := outs;
        outs, table := AddToOutput(outs, table, e, nextFile, tableSize, c.maxFileSize);
        FullIsRight(c, before, outs, snap, input, n + 1, tableSize);
      }
    }
    ghost var before := outs;
    if table != [] {
      ReadyToFinish(outs, table, nextFile, tableSize, c.maxFileSize);
      outs := FinishOutput(outs, table, nextFile, tableSize, c.maxFileSize);
    }
    ReadyToFinish(outs, [], nextFile, tableSize, c.maxFileSize);
    LastIsRight(c, before, outs, snap, input, tableSize);
  }

  /** Outputs that come later leave what was said of earlier ones. */
  lemma CutsStay(c: Compaction, outs: seq<File>, outs': seq<File>, snap: SequenceNumber, input: seq<Entry>,
                 tableSize: seq<Entry> -> nat)
    requires outs <= outs'
    ensures forall i :: 0 <= i < |outs| && c.EndsRightly(outs, i, snap, input, tableSize)
                        ==> c.EndsRightly(outs', i, snap, input, tableSize)
    ensures forall n :: 0 <= n <= |input| && c.EndedBefore(outs, snap, input, n) ==> c.EndedBefore(outs', snap, input, n)
  {
    hide Flatten, Survivors, Compaction.StopsAt;
    assert forall i :: 0 <= i <= |outs| ==> outs[..i] == outs'[..i];
    forall i | 0 <= i < |outs| && c.EndsRightly(outs, i, snap, input, tableSize)
      ensures c.EndsRightly(outs', i, snap, input, tableSize)
    {
      assert outs[..i + 1] == outs'[..i + 1];
    }
    forall n | 0 <= n <= |input| && c.EndedBefore(outs, snap, input, n) ensures c.EndedBefore(outs', snap, input, n) {
      var i :| 0 <= i <= |outs| && Flatten(outs[..i]) == Survivors(c.version, c.level, snap, input, n);
      assert outs'[..i] == outs[..i];
    }
  }

  /** At an entry to stop at, what was under construction is finished. */
  lemma StopIsRight(c: Compaction, outs: seq<File>, outs': seq<File>, table: seq<Entry>, snap: SequenceNumber,
                    input: seq<Entry>, n: nat, tableSize: seq<Entry> -> nat)
    requires n < |input| && c.CutSoFar(outs, snap, input, n, tableSize)
    requires outs' == outs || (c.StopsAt(input, n) && |outs'| == |outs| + 1 && outs <= outs')
    requires c.StopsAt(input, n) ==> table == []
    requires Flatten(outs') + table == Survivors(c.version, c.level, snap, input, n)
    ensures c.CutSoFar(outs', snap, input, n + 1, tableSize)
  {
    hide Flatten, Survivors, Compaction.StopsAt;
    CutsStay(c, outs, outs', snap, input, tableSize);
    if c.StopsAt(input, n) {
      assert outs'[..|outs'|] == outs' && Flatten(outs') + [] == Flatten(outs');
    }
  }

  /** And so it is when it is full. */
  lemma FullIsRight(c: Compaction, outs: seq<File>, outs': seq<File>, snap: SequenceNumber, input: seq<Entry>, n: nat,
                    tableSize: seq<Entry> -> nat)
    requires n <= |input| && c.CutSoFar(outs, snap, input, n, tableSize)
    requires outs' == outs
             || (|outs'| == |outs| + 1 && outs <= outs' && tableSize(outs'[|outs|].entries) >= c.maxFileSize)
    ensures c.CutSoFar(outs', snap, input, n, tableSize)
  {
    hide Flatten, Survivors, Compaction.StopsAt;
    CutsStay(c, outs, outs', snap, input, tableSize);
  }

  lemma LastIsRight(c: Compaction, outs: seq<File>, outs': seq<File>, snap: SequenceNumber, input: seq<Entry>,
                    tableSize: seq<Entry> -> nat)
    requires c.CutSoFar(outs, snap, input, |input|, tableSize) && outs <= outs' && |outs'| <= |outs| + 1
    ensures forall i :: 0 <= i < |outs'| - 1 ==> c.EndsRightly(outs', i, snap, input, tableSize)
    ensures forall n :: 0 <= n < |input| && c.StopsAt(input, n) ==> c.EndedBefore(outs', snap, input, n)
  {
    hide Compaction.StopsAt, Compaction.EndsRightly, Compaction.EndedBefore;
    CutsStay(c, outs, outs', snap, input, tableSize);
  }

  /** Adding a kept entry to the output under construction, which is opened by its first entry and
    * closed when it is full.
    */
  method AddToOutput(outs: seq<File>, table: seq<Entry>, e: Entry, first: nat,
                     tableSize: seq<Entry> -> nat, maxFileSize: nat)
    returns (outs': seq<File>, table': seq<Entry>)
    requires WellCut(outs, table, first, tableSize, maxFileSize)
    ensures Flatten(outs') + table' == (Flatten(outs) + table) + [e]
    ensures WellCut(outs', table', first, tableSize, maxFileSize)
    ensures outs' == outs
            || (|outs'| == |outs| + 1 && outs <= outs' && tableSize(outs'[|outs|].entries) >= maxFileSize)
  {
    hide AllBuilt, ClosedInTime, BelowLimit, Flatten;
    outs', table' := outs, table + [e];
    StillBelowLimit(table, e, tableSize, maxFileSize);
    if tableSize(table') >= maxFileSize {
      outs' := FinishOutput(outs, table', first, tableSize, maxFileSize);
      table' := [];
    }
  }

  lemma StartOfWork(c: Compaction, snap: SequenceNumber, input: seq<Entry>, first: nat,
                    tableSize: seq<Entry> -> nat)
    requires c.AtStart()
    ensures forall u :: c.Behind(u)
    ensures c.Counts(input, 0) && c.CutSoFar([], snap, input, 0, tableSize)
    ensures Flatten([]) + [] == Survivors(c.version, c.level, snap, input, 0)
    ensures WellCut([], [], first, tableSize, c.maxFileSize)
  {
  }

  lemma NextSurvivor(c: Compaction, snap: SequenceNumber, input: seq<Entry>, n: nat, last: SequenceNumber)
    requires Sorted(input) && n < |input| && last == LastSequenceForKey(input, n)
    ensures var e := input[n];
            var before := Survivors(c.version, c.level, snap, input, n);
            Survivors(c.version, c.level, snap, input, n + 1) ==
            if last <= snap || (e.key.kind.Deletion? && e.key.seqno <= snap && BaseLevel(c.version, c.level, e.key.user))
            then before else before + [e]
    ensures n + 1 < |input| ==> input[n].key.user <= input[n + 1].key.user
  {
    assert n + 1 < |input| ==> Less(input[n].key, input[n + 1].key);
  }

  /** Rules (A) and (B) of the loop. */
  method ShouldDrop(c: Compaction, k: InternalKey, last: SequenceNumber, snap: SequenceNumber)
    returns (drop: bool)
    requires c.Behind(k.user)
    modifies c.levelPtrs
    ensures c.Behind(k.user)
    ensures drop <==> last <= snap
                      || (k.kind.Deletion? && k.seqno <= snap && BaseLevel(c.version, c.level, k.user))
  {
    if last <= snap {
      drop := true;
    } else if k.kind.Deletion? && k.seqno <= snap {
      drop := c.IsBaseLevelForKey(k.user);
    } else {
      drop := false;
    }
  }

  method FinishOutput(outs: seq<File>, table: seq<Entry>, first: nat, tableSize: seq<Entry> -> nat,
                      maxFileSize: nat)
    returns (r: seq<File>)
    requires table != [] && AllBuilt(outs, first, tableSize) && ClosedInTime(outs, tableSize, maxFileSize)
    requires BelowLimit(table, |table| - 1, tableSize, maxFileSize)
    ensures Flatten(r) == Flatten(outs) + table
    ensures WellCut(r, [], first, tableSize, maxFileSize)
    ensures |r| == |outs| + 1 && outs <= r && r[|outs|].entries == table
  {
    var smallest, largest := table[0].key, table[|table| - 1].key;
    r := outs + [File(first + |outs|, tableSize(table), smallest, largest, table)];
    assert r[..|r| - 1] == outs;
  }

  // ---- what the loop keeps ------------------------------------------------------------------------

  lemma {:induction false} SurvivorsAt(v: Version, level: nat, snap: SequenceNumber, input: seq<Entry>,
                                       n: nat, i: nat)
    requires i < n <= |input| && Sorted(input)
    ensures input[i] in Survivors(v, level, snap, input, n) <==> !Drops(v, level, snap, input, i)
    decreases n
  {
    if i < n - 1 {
      SurvivorsAt(v, level, snap, input, n - 1, i);
      assert Less(input[i].key, input[n - 1].key);
    } else {
      assert input[i] !in input[..n - 1];
    }
  }

  lemma {:induction false} SurvivorsSorted(v: Version, level: nat, snap: SequenceNumber,
                                           input: seq<Entry>, n: nat)
    requires n <= |input| && Sorted(input)
    ensures Sorted(Survivors(v, level, snap, input, n))
  {
    if n > 0 {
      SurvivorsSorted(v, level, snap, input, n - 1);
      var rest := Survivors(v, level, snap, input, n - 1);
      forall i | 0 <= i < |rest| ensures Less(rest[i].key, input[n - 1].key) {
        assert rest[i] in input[..n - 1];
      }
    }
  }

  /** In sorted input the entry just before decides whether any newer one is old enough to hide. */
  lemma DropsIsObsolete(v: Version, c: Inputs, snap: SequenceNumber, input: seq<Entry>, i: nat)
    requires Sorted(input) && i < |input| && snap < MAX_SEQUENCE
    requires EntrySet(input) == InputEntries(c)
    ensures Drops(v, c.level, snap, input, i) <==> Obsolete(v, c, snap, input[i])
  {
    var e := input[i];
    assert forall x :: x in InputEntries(c) <==> x in EntrySet(input);
    if LastSequenceForKey(input, i) <= snap {
      assert input[i - 1] in InputEntries(c) && Less(input[i - 1].key, e.key);
    }
    if x :| x in InputEntries(c) && x.key.user == e.key.user && Tag(x.key) > Tag(e.key)
            && x.key.seqno <= snap {
      var j :| 0 <= j < |input| && input[j] == x;
      assert i < j ==> Less(e.key, x.key);
      assert j < i - 1 ==> Less(x.key, input[i - 1].key);
      assert Less(input[i - 1].key, e.key);
    }
  }

  /** The loop keeps exactly the entries that are not obsolete. */
  lemma SurvivorsAreTheRest(v: Version, c: Inputs, snap: SequenceNumber, input: seq<Entry>, e: Entry)
    requires Sorted(input) && snap < MAX_SEQUENCE && EntrySet(input) == InputEntries(c)
    ensures e in Survivors(v, c.level, snap, input, |input|)
            <==> e in InputEntries(c) && !Obsolete(v, c, snap, e)
  {
    assert e in InputEntries(c) <==> e in EntrySet(input);
    if e in input {
      var i :| 0 <= i < |input| && input[i] == e;
      SurvivorsAt(v, c.level, snap, input, |input|, i);
      DropsIsObsolete(v, c, snap, input, i);
    }
  }

  /** The sentinel kMaxSequenceNumber doubles as "no newer entry yet": at that snapshot the loop
    * would drop everything.
    */
  lemma {:induction false} AtMaxSequenceAllIsLost(v: Version, level: nat, input: seq<Entry>, n: nat)
    requires n <= |input|
    ensures Survivors(v, level, MAX_SEQUENCE, input, n) == []
  {
    if n > 0 {
      AtMaxSequenceAllIsLost(v, level, input, n - 1);
    }
  }

  lemma {:induction false} FlattenHolds(files: seq<File>, e: Entry)
    ensures e in Flatten(files) <==> HoldsEntry(files, e)
  {
    if files != [] {
      var n := |files| - 1;
      FlattenHolds(files[..n], e);
      assert files == files[..n] + [files[n]];
    }
  }

  lemma SortedParts(a: seq<Entry>, b: seq<Entry>)
    requires Sorted(a + b)
    ensures Sorted(a) && Sorted(b)
    ensures forall x, y :: x in a && y in b ==> Less(x.key, y.key)
  {
    forall i, j | 0 <= i < j < |a| ensures Less(a[i].key, a[j].key) {
      assert (a + b)[i] == a[i] && (a + b)[j] == a[j];
    }
    forall i, j | 0 <= i < j < |b| ensures Less(b[i].key, b[j].key) {
      assert (a + b)[|a| + i] == b[i] && (a + b)[|a| + j] == b[j];
    }
    forall i, j | 0 <= i < |a| && 0 <= j < |b| ensures Less(a[i].key, b[j].key) {
      assert (a + b)[i] == a[i] && (a + b)[|a| + j] == b[j];
    }
  }

  /** Cutting a sorted sequence into tables gives sorted tables, each wholly before the next. */
  lemma {:induction false} CutsAreDisjoint(files: seq<File>, first: nat, tableSize: seq<Entry> -> nat)
    requires AllBuilt(files, first, tableSize) && Sorted(Flatten(files))
    ensures AllWellFormed(files) && Disjoint(files)
  {
    if files != [] {
      var n := |files| - 1;
      var rest, f := files[..n], files[n];
      SortedParts(Flatten(rest), f.entries);
      CutsAreDisjoint(rest, first, tableSize);
      assert files == rest + [f];
      forall i | 0 <= i < n ensures Less(files[i].largest, f.smallest) {
        var last := rest[i].entries[|rest[i].entries| - 1];
        assert rest[i] in rest && HoldsEntry(rest, last);
        FlattenHolds(rest, last);
      }
    }
  }

  /** Together: the tables DoCompactionWork builds are valid outputs that keep the rest. */
  lemma WorkIsSound(v: Version, c: Inputs, snap: SequenceNumber, input: seq<Entry>, outs: seq<File>,
                    first: nat, tableSize: seq<Entry> -> nat)
    requires Sorted(input) && EntrySet(input) == InputEntries(c)
    requires c.level + 1 < NUM_LEVELS && snap < MAX_SEQUENCE
    requires forall f :: f in v[c.level + 1] ==> f.number < first
    requires AllBuilt(outs, first, tableSize)
    requires Flatten(outs) == Survivors(v, c.level, snap, input, |input|)
    ensures ValidOutputs(v, c, outs) && KeepsTheRest(v, c, snap, outs)
  {
    SurvivorsSorted(v, c.level, snap, input, |input|);
    CutsAreDisjoint(outs, first, tableSize);
    assert UniqueNumbers(outs);
    forall e ensures HoldsEntry(outs, e) <==> e in InputEntries(c) && !Obsolete(v, c, snap, e) {
      FlattenHolds(outs, e);
      SurvivorsAreTheRest(v, c, snap, input, e);
    }
  }
}
