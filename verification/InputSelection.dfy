/** Choosing what to compact and where to put a flushed memtable (db/version_set.cc). */
module InputSelection {
  import opened InternalKeys
  import opened Versions

  const MAX_MEM_COMPACT_LEVEL: nat := 2

  type Bound = Option<UserKey>

  function TotalFileSize(files: seq<File>): nat {
    if files == [] then 0 else files[0].size + TotalFileSize(files[1..])
  }

  // ---- overlap with a range of user keys ----------------------------------------------------

  /** None stands for a null pointer: no bound on that side. */
  predicate AfterFile(lo: Bound, f: File) {
    lo.Some? && lo.value > f.largest.user
  }

  predicate BeforeFile(hi: Bound, f: File) {
    hi.Some? && hi.value < f.smallest.user
  }

  predicate Overlaps(f: File, lo: Bound, hi: Bound) {
    !AfterFile(lo, f) && !BeforeFile(hi, f)
  }

  /** SomeFileOverlapsRange: one binary search stands for a scan of a sorted level. */
  method SomeFileOverlapsRange(disjointSorted: bool, files: seq<File>, lo: Bound, hi: Bound)
    returns (r: bool)
    requires AllWellFormed(files)
    requires disjointSorted ==> Disjoint(files)
    ensures r <==> exists f :: f in files && Overlaps(f, lo, hi)
  {
    if !disjointSorted {
      for i := 0 to |files|
        invariant forall j :: 0 <= j < i ==> !Overlaps(files[j], lo, hi)
      {
        assert files[i] in files;
        if AfterFile(lo, files[i]) || BeforeFile(hi, files[i]) {
        } else {
          return true;
        }
      }
      return false;
    }
    var index := 0;
    if lo.Some? {
      index := FindFile(files, InternalKey(lo.value, MAX_SEQUENCE, Value));
    }
    FirstNotAfterDecides(files, lo, hi, index);
    if index >= |files| {
      return false;
    }
    r := !BeforeFile(hi, files[index]);
  }

  lemma FirstNotAfterDecides(files: seq<File>, lo: Bound, hi: Bound, index: nat)
    requires AllWellFormed(files) && Disjoint(files) && index <= |files|
    requires forall i :: 0 <= i < index ==> AfterFile(lo, files[i])
    requires index < |files| ==> !AfterFile(lo, files[index])
    ensures (exists f :: f in files && Overlaps(f, lo, hi))
            <==> index < |files| && !BeforeFile(hi, files[index])
  {
    if index < |files| && !BeforeFile(hi, files[index]) {
      assert files[index] in files && Overlaps(files[index], lo, hi);
    }
    forall f | f in files && Overlaps(f, lo, hi) ensures index < |files| && !BeforeFile(hi, files[index]) {
      var i :| 0 <= i < |files| && files[i] == f;
      if index < i { FilesAreOrdered(files, index, i); }
    }
  }

  lemma FilesAreOrdered(files: seq<File>, i: nat, j: nat)
    requires AllWellFormed(files) && Disjoint(files) && i < j < |files|
    ensures Less(files[i].smallest, files[j].smallest) && Less(files[i].largest, files[j].largest)
  {
    assert WellFormed(files[i]) && WellFormed(files[j]);
    EntryInRange(files[i], files[i].entries[0]);
    EntryInRange(files[j], files[j].entries[0]);
  }

  // ---- GetOverlappingInputs -------------------------------------------------------------------

  function Overlapping(files: seq<File>, lo: Bound, hi: Bound): (r: seq<File>)
    ensures forall f :: f in r <==> f in files && Overlaps(f, lo, hi)
  {
    if files == [] then []
    else
      var n := |files| - 1;
      var rest := Overlapping(files[..n], lo, hi);
      assert files == files[..n] + [files[n]];
      if Overlaps(files[n], lo, hi) then rest + [files[n]] else rest
  }

  /** Every file that touches the range lies inside it. */
  ghost predicate ClosedRange(files: seq<File>, lo: Bound, hi: Bound) {
    forall f :: f in files && Overlaps(f, lo, hi) ==>
      && (lo.Some? ==> lo.value <= f.smallest.user)
      && (hi.Some? ==> f.largest.user <= hi.value)
  }

  predicate Within(lo: Bound, hi: Bound, outerLo: Bound, outerHi: Bound) {
    && (outerLo.Some? ==> lo.Some? && outerLo.value <= lo.value)
    && (outerHi.Some? ==> hi.Some? && hi.value <= outerHi.value)
  }

  ghost function StartsBelow(files: seq<File>, lo: Bound): set<File> {
    set f | f in files && lo.Some? && f.smallest.user < lo.value
  }

  ghost function EndsAbove(files: seq<File>, hi: Bound): set<File> {
    set f | f in files && hi.Some? && f.largest.user > hi.value
  }

  /** The files in the least closed range around the one asked for. */
  ghost predicate LeastClosedCover(files: seq<File>, begin: Bound, end: Bound, inputs: seq<File>) {
    exists lo, hi :: CoversRange(files, begin, end, lo, hi) && inputs == Overlapping(files, lo, hi)
  }

  /** No closed range around the one asked for is smaller than this one. */
  ghost predicate Least(files: seq<File>, begin: Bound, end: Bound, lo: Bound, hi: Bound) {
    forall a, b :: ClosedRange(files, a, b) && Within(begin, end, a, b) ==> Within(lo, hi, a, b)
  }

  ghost predicate CoversRange(files: seq<File>, begin: Bound, end: Bound, lo: Bound, hi: Bound) {
    ClosedRange(files, lo, hi) && Within(begin, end, lo, hi) && Least(files, begin, end, lo, hi)
  }

  lemma WidenBegin(files: seq<File>, begin: Bound, end: Bound, lo: Bound, hi: Bound, f: File)
    requires f in files && Overlaps(f, lo, hi) && lo.Some? && f.smallest.user < lo.value
    requires Least(files, begin, end, lo, hi) && Within(begin, end, lo, hi)
    ensures Least(files, begin, end, Some(f.smallest.user), hi) && Within(begin, end, Some(f.smallest.user), hi)
    ensures StartsBelow(files, Some(f.smallest.user)) < StartsBelow(files, lo)
  {
    assert f in StartsBelow(files, lo) && f !in StartsBelow(files, Some(f.smallest.user));
  }

  lemma WidenEnd(files: seq<File>, begin: Bound, end: Bound, lo: Bound, hi: Bound, f: File)
    requires f in files && Overlaps(f, lo, hi) && hi.Some? && f.largest.user > hi.value
    requires Least(files, begin, end, lo, hi) && Within(begin, end, lo, hi)
    ensures Least(files, begin, end, lo, Some(f.largest.user)) && Within(begin, end, lo, Some(f.largest.user))
    ensures EndsAbove(files, Some(f.largest.user)) < EndsAbove(files, hi)
  {
    assert f in EndsAbove(files, hi) && f !in EndsAbove(files, Some(f.largest.user));
  }

  /** Scanning one more file. */
  lemma OneMoreFile(files: seq<File>, i: nat, lo: Bound, hi: Bound)
    requires i < |files|
    ensures Overlapping(files[..i + 1], lo, hi)
            == Overlapping(files[..i], lo, hi) + if Overlaps(files[i], lo, hi) then [files[i]] else []
    ensures ClosedRange(files[..i], lo, hi) && (Overlaps(files[i], lo, hi) ==>
              (lo.Some? ==> lo.value <= files[i].smallest.user) && (hi.Some? ==> files[i].largest.user <= hi.value))
            ==> ClosedRange(files[..i + 1], lo, hi)
  {
    assert files[..i + 1] == files[..i] + [files[i]];
    assert files[..i + 1][..i] == files[..i];
  }

  /** Version::GetOverlappingInputs.  In level 0 the range is widened, and the scan restarted,
    * until it is closed.
    */
  method GetOverlappingInputs(files: seq<File>, level: nat, begin: Bound, end: Bound)
    returns (inputs: seq<File>)
    ensures level > 0 ==> inputs == Overlapping(files, begin, end)
    ensures level == 0 ==> LeastClosedCover(files, begin, end, inputs)
  {
    hide Overlapping, ClosedRange, Least, StartsBelow, EndsAbove, LeastClosedCover;
    inputs := [];
    var userBegin, userEnd := begin, end;
    var i := 0;
    ScanStarts(files, begin, end);
    while i < |files|
      invariant i <= |files|
      invariant inputs == Overlapping(files[..i], userBegin, userEnd)
      invariant userBegin.Some? == begin.Some? && userEnd.Some? == end.Some?
      invariant Within(begin, end, userBegin, userEnd)
      invariant level > 0 ==> userBegin == begin && userEnd == end
      invariant level == 0 ==> ClosedRange(files[..i], userBegin, userEnd)
      invariant Least(files, begin, end, userBegin, userEnd)
      decreases StartsBelow(files, userBegin), EndsAbove(files, userEnd), |files| - i
    {
      var f := files[i];
      OneMoreFile(files, i, userBegin, userEnd);
      i := i + 1;
      if begin.Some? && f.largest.user < userBegin.value {
      } else if end.Some? && f.smallest.user > userEnd.value {
      } else {
        inputs := inputs + [f];
        if level == 0 {
          if begin.Some? && f.smallest.user < userBegin.value {
            WidenBegin(files, begin, end, userBegin, userEnd, f);
            userBegin := Some(f.smallest.user);
            inputs := [];
            i := 0;
            ScanStarts(files, userBegin, userEnd);
          } else if end.Some? && f.largest.user > userEnd.value {
            WidenEnd(files, begin, end, userBegin, userEnd, f);
            userEnd := Some(f.largest.user);
            inputs := [];
            i := 0;
            ScanStarts(files, userBegin, userEnd);
          }
        }
      }
    }
    assert files[..|files|] == files;
    if level == 0 {
      IsLeastClosedCover(files, begin, end, userBegin, userEnd);
    }
  }

  lemma ScanStarts(files: seq<File>, lo: Bound, hi: Bound)
    ensures Overlapping(files[..0], lo, hi) == [] && ClosedRange(files[..0], lo, hi)
    ensures Least(files, lo, hi, lo, hi)
  {
  }

  lemma IsLeastClosedCover(files: seq<File>, begin: Bound, end: Bound, lo: Bound, hi: Bound)
    requires ClosedRange(files, lo, hi) && Within(begin, end, lo, hi) && Least(files, begin, end, lo, hi)
    ensures LeastClosedCover(files, begin, end, Overlapping(files, lo, hi))
  {
    assert CoversRange(files, begin, end, lo, hi);
  }

  // ---- placing a flushed memtable -------------------------------------------------------------

  lemma LevelFacts(v: Version, l: nat)
    requires Shape(v) && l < NUM_LEVELS
    ensures LevelShape(v[l], l) && AllWellFormed(v[l]) && (l > 0 ==> Disjoint(v[l]))
  {
    assert LevelShape(v[l], l);
  }

  /** Putting a table at level l + 1 would leave it over too many bytes of level l + 2. */
  ghost predicate TooMuchBelow(v: Version, l: nat, lo: UserKey, hi: UserKey, maxFileSize: nat) {
    l + 2 < NUM_LEVELS && TotalFileSize(Overlapping(v[l + 2], Some(lo), Some(hi))) > 10 * maxFileSize
  }

  /** Nothing overlaps down to the level, and it goes no deeper because it may not, because the next level overlaps, or
    * because there would be too many bytes below.
    */
  ghost predicate LevelForFlush(v: Version, lo: UserKey, hi: UserKey, maxFileSize: nat, level: nat) {
    && level <= MAX_MEM_COMPACT_LEVEL
    && (level > 0 ==> forall l, f :: 0 <= l <= level && f in v[l] ==> !Overlaps(f, Some(lo), Some(hi)))
    && (forall l :: 0 <= l < level ==> !TooMuchBelow(v, l, lo, hi, maxFileSize))
    && (level < MAX_MEM_COMPACT_LEVEL ==>
          || (exists f :: f in v[0] && Overlaps(f, Some(lo), Some(hi)))
          || (exists f :: f in v[level + 1] && Overlaps(f, Some(lo), Some(hi)))
          || TooMuchBelow(v, level, lo, hi, maxFileSize))
  }

  /** Version::PickLevelForMemTableOutput: no level from 0 to the chosen one overlaps the range. */
  method PickLevelForMemTableOutput(v: Version, lo: UserKey, hi: UserKey, maxFileSize: nat)
    returns (level: nat)
    requires Shape(v)
    ensures LevelForFlush(v, lo, hi, maxFileSize, level)
  {
    hide Shape, LevelShape, AllWellFormed, Disjoint, Overlapping, TotalFileSize;
    level := 0;
    LevelFacts(v, 0);
    var overlap := SomeFileOverlapsRange(false, v[0], Some(lo), Some(hi));
    if !overlap {
      while level < MAX_MEM_COMPACT_LEVEL
        invariant level <= MAX_MEM_COMPACT_LEVEL
        invariant forall l, f :: 0 <= l <= level && f in v[l] ==> !Overlaps(f, Some(lo), Some(hi))
        invariant forall l :: 0 <= l < level ==> !TooMuchBelow(v, l, lo, hi, maxFileSize)
      {
        LevelFacts(v, level + 1);
        overlap := SomeFileOverlapsRange(true, v[level + 1], Some(lo), Some(hi));
        if overlap {
          break;
        }
        if level + 2 < NUM_LEVELS {
          var overlaps := GetOverlappingInputs(v[level + 2], level + 2, Some(lo), Some(hi));
          if TotalFileSize(overlaps) > 10 * maxFileSize {
            break;
          }
        }
        level := level + 1;
      }
    }
  }

  // ---- boundary files -------------------------------------------------------------------------

  ghost predicate IsLargestKey(files: seq<File>, k: InternalKey) {
    && (exists f :: f in files && f.largest == k)
    && forall f :: f in files ==> !Less(k, f.largest)
  }

  method FindLargestKey(files: seq<File>) returns (k: Option<InternalKey>)
    ensures k.None? <==> files == []
    ensures k.Some? ==> IsLargestKey(files, k.value)
  {
    if files == [] {
      return None;
    }
    var largest := files[0].largest;
    for i := 1 to |files|
      invariant IsLargestKey(files[..i], largest)
    {
      assert files[..i + 1] == files[..i] + [files[i]];
      assert files[i] in files[..i + 1];
      if Compare(files[i].largest, largest) > 0 {
        largest := files[i].largest;
      }
    }
    assert files[..|files|] == files;
    return Some(largest);
  }

  /** f starts with older entries of the user key that k ends with. */
  predicate IsBoundary(f: File, k: InternalKey) {
    Less(k, f.smallest) && f.smallest.user == k.user
  }

  method FindSmallestBoundaryFile(files: seq<File>, k: InternalKey) returns (r: Option<File>)
    ensures r.None? ==> forall f :: f in files ==> !IsBoundary(f, k)
    ensures r.Some? ==> r.value in files && IsBoundary(r.value, k)
    ensures r.Some? ==> forall f :: f in files && IsBoundary(f, k)
                                    ==> !Less(f.smallest, r.value.smallest)
  {
    r := None;
    for i := 0 to |files|
      invariant r.None? ==> forall j :: 0 <= j < i ==> !IsBoundary(files[j], k)
      invariant r.Some? ==> r.value in files && IsBoundary(r.value, k)
      invariant r.Some? ==> forall j :: 0 <= j < i && IsBoundary(files[j], k)
                                        ==> !Less(files[j].smallest, r.value.smallest)
    {
      var f := files[i];
      if Compare(f.smallest, k) > 0 && f.smallest.user == k.user {
        if r.None? || Compare(f.smallest, r.value.smallest) < 0 {
          r := Some(f);
        }
      }
    }
  }

  /** No file of the level is skipped between two chosen ones. */
  ghost predicate Convex(files: seq<File>, chosen: seq<File>) {
    forall f, g, h {:trigger Between(f, g, h)} ::
      f in files && g in chosen && h in chosen && Between(f, g, h) ==> f in chosen
  }

  predicate Between(f: File, g: File, h: File) {
    !Less(f.smallest, g.smallest) && !Less(h.smallest, f.smallest)
  }

  ghost predicate Chosen(files: seq<File>, chosen: seq<File>) {
    chosen != [] && forall f :: f in chosen ==> f in files
  }

  /** A run of consecutive files of a sorted level, in order. */
  ghost predicate Consecutive(files: seq<File>, chosen: seq<File>) {
    Chosen(files, chosen) && Convex(files, chosen) && Disjoint(chosen)
  }

  ghost predicate NoBoundary(files: seq<File>, chosen: seq<File>) {
    forall f, k :: f in files && IsLargestKey(chosen, k) ==> !IsBoundary(f, k)
  }

  /** r is what was chosen and then, one after the other, the smallest file that continues the last user key. */
  ghost predicate Chains(files: seq<File>, chosen: seq<File>, r: seq<File>) {
    chosen <= r && forall i :: |chosen| <= i < |r| ==> ContinuesAt(files, r, i)
  }

  ghost predicate ContinuesAt(files: seq<File>, r: seq<File>, i: nat)
    requires i < |r|
  {
    exists k :: IsLargestKey(r[..i], k) && SmallestBoundary(files, k, r[i])
  }

  ghost predicate SmallestBoundary(files: seq<File>, k: InternalKey, b: File) {
    b in files && IsBoundary(b, k) && forall f :: f in files && IsBoundary(f, k) ==> !Less(f.smallest, b.smallest)
  }

  lemma ChainsOnce(files: seq<File>, chosen: seq<File>, r: seq<File>, k: InternalKey, b: File)
    requires Chains(files, chosen, r) && IsLargestKey(r, k) && SmallestBoundary(files, k, b)
    ensures Chains(files, chosen, r + [b])
  {
    hide IsLargestKey, SmallestBoundary;
    var r' := r + [b];
    forall i | |chosen| <= i < |r'| ensures ContinuesAt(files, r', i) {
      if i < |r| {
        assert ContinuesAt(files, r, i) && r'[..i] == r[..i];
      } else {
        assert r'[..i] == r;
      }
    }
  }

  ghost function After(files: seq<File>, k: InternalKey): set<File> {
    set f | f in files && Less(k, f.smallest)
  }

  /** AddBoundaryInputs: follow the chain of files that continue the last user key. */
  method AddBoundaryInputs(files: seq<File>, chosen: seq<File>) returns (r: seq<File>)
    requires AllWellFormed(files)
    requires forall f :: f in chosen ==> f in files
    ensures chosen <= r && Chains(files, chosen, r)
    ensures chosen == [] ==> r == []
    ensures forall f :: f in r ==> f in files
    ensures NoBoundary(files, r)
    ensures NoBoundary(files, chosen) ==> r == chosen
    ensures Disjoint(files) && Consecutive(files, chosen) ==> Consecutive(files, r)
  {
    hide ContinuesAt;
    r := chosen;
    var found := FindLargestKey(chosen);
    if found.None? {
      return;
    }
    var largestKey := found.value;
    var continueSearching := true;
    while continueSearching
      invariant Chains(files, chosen, r) && forall f :: f in r ==> f in files
      invariant IsLargestKey(r, largestKey)
      invariant NoBoundary(files, chosen) ==> r == chosen
      invariant !continueSearching ==> forall f :: f in files ==> !IsBoundary(f, largestKey)
      invariant Disjoint(files) && Consecutive(files, chosen) ==> Consecutive(files, r)
      decreases continueSearching, After(files, largestKey)
    {
      var b := FindSmallestBoundaryFile(files, largestKey);
      if b.Some? {
        if Disjoint(files) && Consecutive(files, r) {
          BoundaryIsNext(files, r, largestKey, b.value);
        }
        BoundaryAdvances(files, r, largestKey, b.value);
        ChainsOnce(files, chosen, r, largestKey, b.value);
        r := r + [b.value];
        largestKey := b.value.largest;
      } else {
        continueSearching := false;
      }
    }
    LargestKeyIsUnique(r, largestKey);
  }

  lemma LargestKeyIsUnique(files: seq<File>, k: InternalKey)
    requires IsLargestKey(files, k)
    ensures forall m :: IsLargestKey(files, m) ==> m == k
  {
    forall m | IsLargestKey(files, m) ensures m == k {
      assert Compare(m, k) == 0;
    }
  }

  lemma BoundaryAdvances(files: seq<File>, r: seq<File>, k: InternalKey, b: File)
    requires AllWellFormed(files) && IsLargestKey(r, k) && b in files && IsBoundary(b, k)
    ensures IsLargestKey(r + [b], b.largest)
    ensures After(files, b.largest) < After(files, k)
    ensures !NoBoundary(files, r)
  {
    assert WellFormed(b);
    EntryInRange(b, b.entries[0]);
    assert b in After(files, k) && b !in After(files, b.largest);
    assert b in r + [b];
  }

  /** In a sorted level the smallest boundary file is the very next file. */
  lemma BoundaryIsNext(files: seq<File>, chosen: seq<File>, k: InternalKey, b: File)
    requires AllWellFormed(files) && Disjoint(files) && Consecutive(files, chosen)
    requires IsLargestKey(chosen, k) && b in files && IsBoundary(b, k)
    requires forall f :: f in files && IsBoundary(f, k) ==> !Less(f.smallest, b.smallest)
    ensures Consecutive(files, chosen + [b])
  {
    var r := chosen + [b];
    forall f, g, h | f in files && g in r && h in r && f !in chosen
                     && Between(f, g, h)
      ensures f == b
    {
      NotBeforeLast(files, chosen, k, f, g);
      if h != b {
        assert WellFormed(h);
        EntryInRange(h, h.entries[0]);
      } else {
        SameSmallest(files, f, b);
      }
    }
  }

  /** A file outside a consecutive run, but not before all of it, lies after all of it. */
  lemma NotBeforeLast(files: seq<File>, chosen: seq<File>, k: InternalKey, f: File, g: File)
    requires AllWellFormed(files) && Disjoint(files) && Consecutive(files, chosen)
    requires IsLargestKey(chosen, k) && f in files && f !in chosen
    requires (g in chosen || Less(k, g.smallest)) && !Less(f.smallest, g.smallest)
    ensures Less(k, f.smallest)
  {
    var last :| last in chosen && last.largest == k;
    var i :| 0 <= i < |files| && files[i] == f;
    var j :| 0 <= j < |files| && files[j] == last;
    assert WellFormed(last);
    EntryInRange(last, last.entries[0]);
    assert g in chosen ==> !Between(f, g, last);
    if i < j {
      FilesAreOrdered(files, i, j);
    }
  }

  lemma SameSmallest(files: seq<File>, f: File, g: File)
    requires AllWellFormed(files) && Disjoint(files) && f in files && g in files
    ensures f == g || Less(f.smallest, g.smallest) || Less(g.smallest, f.smallest)
  {
    var i :| 0 <= i < |files| && files[i] == f;
    var j :| 0 <= j < |files| && files[j] == g;
    if i < j { FilesAreOrdered(files, i, j); }
    if j < i { FilesAreOrdered(files, j, i); }
  }

  // ---- SetupOtherInputs -----------------------------------------------------------------------

  ghost predicate IsSmallestKey(files: seq<File>, k: InternalKey) {
    && (exists f :: f in files && f.smallest == k)
    && forall f :: f in files ==> !Less(f.smallest, k)
  }

  /** GetRange; GetRange2 is GetRange of the concatenation. */
  method GetRange(inputs: seq<File>) returns (smallest: InternalKey, largest: InternalKey)
    requires inputs != []
    ensures IsSmallestKey(inputs, smallest) && IsLargestKey(inputs, largest)
  {
    smallest, largest := inputs[0].smallest, inputs[0].largest;
    for i := 1 to |inputs|
      invariant IsSmallestKey(inputs[..i], smallest) && IsLargestKey(inputs[..i], largest)
    {
      assert inputs[..i + 1] == inputs[..i] + [inputs[i]];
      assert inputs[i] in inputs[..i + 1];
      if Compare(inputs[i].smallest, smallest) < 0 {
        smallest := inputs[i].smallest;
      }
      if Compare(inputs[i].largest, largest) > 0 {
        largest := inputs[i].largest;
      }
    }
    assert inputs[..|inputs|] == inputs;
  }

  /** What a compaction may start from: a closed set of level-0 files, or a run of a deeper level. */
  ghost predicate Start(files: seq<File>, level: nat, chosen: seq<File>) {
    && Chosen(files, chosen)
    && if level == 0 then
      exists lo, hi :: ClosedRange(files, lo, hi) && chosen == Overlapping(files, lo, hi)
    else
      Consecutive(files, chosen)
  }

  /** The chosen files of one level leave no older entry of a shared user key behind. */
  ghost predicate Settled(files: seq<File>, level: nat, chosen: seq<File>) {
    Start(files, level, chosen) && NoBoundary(files, chosen)
  }

  /** The user keys spanned by the chosen files decide the files of the next level. */
  ghost predicate NextLevelInputs(next: seq<File>, chosen: seq<File>, in1: seq<File>) {
    exists smallest, largest :: IsSmallestKey(chosen, smallest) && IsLargestKey(chosen, largest)
      && in1 == Overlapping(next, Some(smallest.user), Some(largest.user))
  }

  /** A closed set of level-0 files has no boundary files. */
  lemma ClosedHasNoBoundary(files: seq<File>, chosen: seq<File>)
    requires AllWellFormed(files) && Start(files, 0, chosen)
    ensures NoBoundary(files, chosen)
  {
    var lo, hi :| ClosedRange(files, lo, hi) && chosen == Overlapping(files, lo, hi);
    forall f, k | f in files && IsLargestKey(chosen, k) ensures !IsBoundary(f, k) {
      var g :| g in chosen && g.largest == k;
      assert WellFormed(f) && WellFormed(g);
      if Overlaps(f, lo, hi) {
        EntryInRange(f, f.entries[0]);
      } else {
        EntryInRange(g, g.entries[0]);
      }
    }
  }

  lemma OverlappingIsConsecutive(files: seq<File>, lo: Bound, hi: Bound)
    requires AllWellFormed(files) && Disjoint(files) && Overlapping(files, lo, hi) != []
    ensures Consecutive(files, Overlapping(files, lo, hi))
  {
    var r := Overlapping(files, lo, hi);
    OverlappingIsDisjoint(files, lo, hi);
    forall f, g, h | f in files && g in r && h in r
                     && Between(f, g, h)
      ensures f in r
    {
      assert WellFormed(f) && WellFormed(g);
      EntryInRange(f, f.entries[0]);
      var i :| 0 <= i < |files| && files[i] == f;
      var j :| 0 <= j < |files| && files[j] == g;
      if i < j { FilesAreOrdered(files, i, j); }
      if j < i { FilesAreOrdered(files, j, i); }
    }
  }

  lemma OverlappingIsDisjoint(files: seq<File>, lo: Bound, hi: Bound)
    requires Disjoint(files)
    ensures Disjoint(Overlapping(files, lo, hi))
  {
    if files != [] {
      var n := |files| - 1;
      OverlappingIsDisjoint(files[..n], lo, hi);
      var rest := Overlapping(files[..n], lo, hi);
      forall i | 0 <= i < |rest| ensures Overlaps(files[n], lo, hi) ==> Less(rest[i].largest, files[n].smallest) {
        assert rest[i] in files[..n];
      }
    }
  }

  /** Widening the range without gaining files gains nothing at all. */
  lemma SameCountSameFiles(files: seq<File>, lo: Bound, hi: Bound, a: Bound, b: Bound)
    requires Within(lo, hi, a, b)
    ensures |Overlapping(files, lo, hi)| <= |Overlapping(files, a, b)|
    ensures |Overlapping(files, lo, hi)| == |Overlapping(files, a, b)|
            ==> Overlapping(files, lo, hi) == Overlapping(files, a, b)
  {
    if files != [] {
      SameCountSameFiles(files[..|files| - 1], lo, hi, a, b);
    }
  }

  lemma KeepsStart(files: seq<File>, level: nat, chosen: seq<File>, r: seq<File>)
    requires LevelShape(files, level) && Start(files, level, chosen)
    requires NoBoundary(files, r)
    requires NoBoundary(files, chosen) ==> r == chosen
    requires Disjoint(files) && Consecutive(files, chosen) ==> Consecutive(files, r)
    ensures Settled(files, level, r)
  {
    if level == 0 {
      ClosedHasNoBoundary(files, chosen);
    }
  }

  /** SetupOtherInputs; `pointer` is where the next compaction of the level goes on, and `first` the set of level
    * inputs before the optional growth, which would make it `expanded`.
    */
  method SetupOtherInputs(v: Version, level: nat, start: seq<File>, maxFileSize: nat)
    returns (in0: seq<File>, in1: seq<File>, grandparents: seq<File>, pointer: InternalKey, ghost first: seq<File>,
             ghost expanded: seq<File>)
    requires Shape(v) && level + 1 < NUM_LEVELS && Start(v[level], level, start)
    ensures Settled(v[level], level, first) && Settled(v[level], level, in0)
    ensures (forall f :: f in start ==> f in first) && (forall f :: f in first ==> f in in0)
    ensures NextLevelInputs(v[level + 1], first, in1) && NextLevelInputs(v[level + 1], in0, in1)
    ensures Chains(v[level], start, first)
    ensures in1 == [] ==> in0 == first
    ensures in1 != [] ==> Expands(v[level], level, first + in1, expanded)
    ensures in1 != [] ==> in0 == if Grows(v[level + 1], first, in1, expanded, maxFileSize) then expanded else first
    ensures if level + 2 < NUM_LEVELS then NextLevelInputs(v[level + 2], in0 + in1, grandparents)
            else grandparents == []
    ensures IsLargestKey(in0, pointer)
  {
    hide NoBoundary, Disjoint, Consecutive, ClosedRange, NextLevelInputs, Expands, Grows, Chains;
    assert LevelShape(v[level], level);
    in0 := AddBoundaryInputs(v[level], start);
    KeepsStart(v[level], level, start, in0);
    first, expanded := in0, [];
    in1 := FindNextLevelInputs(v[level + 1], level + 1, in0);
    if in1 != [] {
      in0, in1, expanded := GrowInputs(v[level], v[level + 1], level, in0, in1, maxFileSize);
    }
    var allStart, allLimit := GetRange(in0 + in1);
    grandparents := [];
    if level + 2 < NUM_LEVELS {
      grandparents :=
        GetOverlappingInputs(v[level + 2], level + 2, Some(allStart.user), Some(allLimit.user));
      IsNextLevelInputs(v[level + 2], in0 + in1, allStart, allLimit);
    }
    var _, largest := GetRange(in0);
    pointer := largest;
  }

  lemma IsNextLevelInputs(next: seq<File>, chosen: seq<File>, smallest: InternalKey, largest: InternalKey)
    requires IsSmallestKey(chosen, smallest) && IsLargestKey(chosen, largest)
    ensures NextLevelInputs(next, chosen, Overlapping(next, Some(smallest.user), Some(largest.user)))
  {
  }

  /** The files of the next level that touch the range of the chosen ones. */
  method FindNextLevelInputs(next: seq<File>, level: nat, in0: seq<File>) returns (in1: seq<File>)
    requires in0 != [] && level > 0
    ensures NextLevelInputs(next, in0, in1)
  {
    var smallest, largest := GetRange(in0);
    in1 := GetOverlappingInputs(next, level, Some(smallest.user), Some(largest.user));
  }

  /** The growth step: more inputs from `level`, if that brings in no further file of the next. */
  method GrowInputs(files: seq<File>, next: seq<File>, level: nat,
                    in0: seq<File>, in1: seq<File>, maxFileSize: nat)
    returns (grown0: seq<File>, grown1: seq<File>, ghost expanded: seq<File>)
    requires LevelShape(files, level) && Settled(files, level, in0) && NextLevelInputs(next, in0, in1)
    ensures Settled(files, level, grown0) && forall f :: f in in0 ==> f in grown0
    ensures grown1 == in1 && NextLevelInputs(next, grown0, in1)
    ensures Expands(files, level, in0 + in1, expanded)
    ensures grown0 == if Grows(next, in0, in1, expanded, maxFileSize) then expanded else in0
  {
    hide Expands;
    grown0, grown1 := in0, in1;
    var expanded0 := ExpandInputs(files, level, in0, in0 + in1);
    expanded := expanded0;
    if |expanded0| > |in0| && TotalFileSize(in1) + TotalFileSize(expanded0) < 25 * maxFileSize {
      var newStart, newLimit := GetRange(expanded0);
      var expanded1 :=
        GetOverlappingInputs(next, level + 1, Some(newStart.user), Some(newLimit.user));
      OneNextLevel(next, expanded0, newStart, newLimit);
      if |expanded1| == |in1| {
        GrowthAddsNoNextFile(next, in0, in1, expanded0, newStart, newLimit);
        grown0, grown1 := expanded0, expanded1;
      }
    }
  }

  lemma OneNextLevel(next: seq<File>, chosen: seq<File>, smallest: InternalKey, largest: InternalKey)
    requires IsSmallestKey(chosen, smallest) && IsLargestKey(chosen, largest)
    ensures forall in1 :: NextLevelInputs(next, chosen, in1)
                          <==> in1 == Overlapping(next, Some(smallest.user), Some(largest.user))
  {
    LargestKeyIsUnique(chosen, largest);
    forall k | IsSmallestKey(chosen, k) ensures k == smallest {
      assert Compare(k, smallest) == 0;
    }
  }

  /** What looking at the level once more, with the range of all inputs, gives. */
  ghost predicate Expands(files: seq<File>, level: nat, all: seq<File>, expanded: seq<File>) {
    exists found, smallest, largest ::
      && IsSmallestKey(all, smallest) && IsLargestKey(all, largest)
      && (if level > 0 then found == Overlapping(files, Some(smallest.user), Some(largest.user))
          else LeastClosedCover(files, Some(smallest.user), Some(largest.user), found))
      && Chains(files, found, expanded) && NoBoundary(files, expanded)
  }

  /** More files of the level, not too many bytes, and the same files of the next level. */
  ghost predicate Grows(next: seq<File>, in0: seq<File>, in1: seq<File>, expanded: seq<File>, maxFileSize: nat) {
    && |expanded| > |in0| && TotalFileSize(in1) + TotalFileSize(expanded) < 25 * maxFileSize
    && NextLevelInputs(next, expanded, in1)
  }

  /** Looking at `level` again, with the range of all the inputs so far. */
  method ExpandInputs(files: seq<File>, level: nat, in0: seq<File>, all: seq<File>)
    returns (expanded0: seq<File>)
    requires LevelShape(files, level) && Start(files, level, in0)
    requires in0 <= all
    ensures Settled(files, level, expanded0) && forall f :: f in in0 ==> f in expanded0
    ensures Expands(files, level, all, expanded0)
  {
    hide Chains, Expands, NoBoundary, LeastClosedCover;
    var allStart, allLimit := GetRange(all);
    var found := GetOverlappingInputs(files, level, Some(allStart.user), Some(allLimit.user));
    GrowthKeeps(files, level, in0, all, allStart, allLimit, found);
    expanded0 := AddBoundaryInputs(files, found);
    KeepsStart(files, level, found, expanded0);
    IsExpansion(files, level, all, allStart, allLimit, found, expanded0);
  }

  lemma IsExpansion(files: seq<File>, level: nat, all: seq<File>, start: InternalKey, limit: InternalKey,
                    found: seq<File>, expanded: seq<File>)
    requires IsSmallestKey(all, start) && IsLargestKey(all, limit)
    requires level > 0 ==> found == Overlapping(files, Some(start.user), Some(limit.user))
    requires level == 0 ==> LeastClosedCover(files, Some(start.user), Some(limit.user), found)
    requires Chains(files, found, expanded) && NoBoundary(files, expanded)
    ensures Expands(files, level, all, expanded)
  {
    hide Chains, NoBoundary, LeastClosedCover, IsSmallestKey, IsLargestKey;
  }

  lemma GrowthAddsNoNextFile(next: seq<File>, in0: seq<File>, in1: seq<File>, expanded0: seq<File>,
                             start: InternalKey, limit: InternalKey)
    requires NextLevelInputs(next, in0, in1) && forall f :: f in in0 ==> f in expanded0
    requires IsSmallestKey(expanded0, start) && IsLargestKey(expanded0, limit)
    requires |Overlapping(next, Some(start.user), Some(limit.user))| == |in1|
    ensures Overlapping(next, Some(start.user), Some(limit.user)) == in1
  {
    var k, m :| IsSmallestKey(in0, k) && IsLargestKey(in0, m)
                && in1 == Overlapping(next, Some(k.user), Some(m.user));
    SameCountSameFiles(next, Some(k.user), Some(m.user), Some(start.user), Some(limit.user));
  }

  /** Looking again, with the range of all the inputs, finds the level inputs and perhaps more. */
  lemma GrowthKeeps(files: seq<File>, level: nat, in0: seq<File>, all: seq<File>,
                    start: InternalKey, limit: InternalKey, found: seq<File>)
    requires LevelShape(files, level) && Start(files, level, in0)
    requires in0 <= all
    requires IsSmallestKey(all, start) && IsLargestKey(all, limit)
    requires level > 0 ==> found == Overlapping(files, Some(start.user), Some(limit.user))
    requires level == 0 ==> LeastClosedCover(files, Some(start.user), Some(limit.user), found)
    ensures forall f :: f in in0 ==> f in found
    ensures Start(files, level, found)
  {
    forall f | f in in0 ensures f in found {
      assert WellFormed(f);
      EntryInRange(f, f.entries[0]);
      assert f in all && !Less(f.smallest, start) && !Less(limit, f.largest);
    }
    assert in0[0] in found;
    if level > 0 {
      OverlappingIsConsecutive(files, Some(start.user), Some(limit.user));
    }
  }

  // ---- where a compaction starts -------------------------------------------------------------------

  lemma OneFileIsConsecutive(files: seq<File>, f: File)
    requires AllWellFormed(files) && Disjoint(files) && f in files
    ensures Consecutive(files, [f])
  {
    forall g | g in files && Between(g, f, f) ensures g == f {
      SameSmallest(files, f, g);
    }
  }

  lemma PrefixIsConsecutive(files: seq<File>, chosen: seq<File>, n: nat)
    requires AllWellFormed(files) && Consecutive(files, chosen) && 0 < n <= |chosen|
    ensures Consecutive(files, chosen[..n])
  {
    var r := chosen[..n];
    forall f, g, h | f in files && g in r && h in r && Between(f, g, h) ensures f in r {
      assert f in chosen;
      var i :| 0 <= i < |chosen| && chosen[i] == f;
      var j :| 0 <= j < n && chosen[j] == h;
      assert AllWellFormed(chosen);
      if j < i { FilesAreOrdered(chosen, j, i); }
    }
  }

  /** f is the first file past the pointer, or the first of all if there is none. */
  ghost predicate FirstPast(files: seq<File>, pointer: Option<InternalKey>, f: File) {
    exists i :: 0 <= i < |files| && f == files[i]
      && if forall g :: g in files ==> !Past(g, pointer) then i == 0
         else Past(f, pointer) && forall j :: 0 <= j < i ==> !Past(files[j], pointer)
  }

  predicate Past(f: File, pointer: Option<InternalKey>) {
    pointer.Some? ==> Less(pointer.value, f.largest)
  }

  /** What a version asks to be compacted: the level whose score is the highest, if it is at least 1, and a file that
    * too many reads have gone through in vain.
    */
  datatype Wanted = Wanted(tooBig: Option<nat>, seek: Option<SeekFile>)

  datatype SeekFile = SeekFile(level: nat, file: File)

  ghost predicate Sensible(v: Version, w: Wanted) {
    && (w.tooBig.Some? ==> w.tooBig.value + 1 < NUM_LEVELS && v[w.tooBig.value] != [])
    && (w.seek.Some? ==> w.seek.value.level + 1 < NUM_LEVELS && w.seek.value.file in v[w.seek.value.level])
  }

  /** A level that is too big comes before seeks. */
  function LevelPicked(w: Wanted): nat {
    if w.tooBig.Some? then w.tooBig.value else if w.seek.Some? then w.seek.value.level else 0
  }

  ghost predicate PickedFirst(files: seq<File>, pointer: Option<InternalKey>, w: Wanted, f: File) {
    if w.tooBig.Some? then FirstPast(files, pointer, f) else w.seek.Some? && f == w.seek.value.file
  }

  /** In level 0, the file is taken with everything that overlaps it. */
  ghost predicate PickedFrom(files: seq<File>, level: nat, pointer: Option<InternalKey>, w: Wanted, chosen: seq<File>) {
    exists f :: PickedFirst(files, pointer, w, f)
                && if level > 0 then chosen == [f]
                   else LeastClosedCover(files, Some(f.smallest.user), Some(f.largest.user), chosen)
  }

  /** PickCompaction, up to the other inputs; `pointers` is where the last compaction of each level ended. */
  method PickCompaction(v: Version, pointers: seq<Option<InternalKey>>, w: Wanted) returns (level: nat, chosen: seq<File>)
    requires Sensible(v, w) && |pointers| == NUM_LEVELS && forall l :: 0 <= l < NUM_LEVELS ==> LevelShape(v[l], l)
    ensures level == LevelPicked(w) && level + 1 < NUM_LEVELS
    ensures chosen == [] <==> w.tooBig.None? && w.seek.None?
    ensures chosen != [] ==> Start(v[level], level, chosen) && PickedFrom(v[level], level, pointers[level], w, chosen)
  {
    if w.tooBig.Some? {
      level := w.tooBig.value;
      var f := FirstAfterPointer(v[level], pointers[level]);
      chosen := [f];
    } else if w.seek.Some? {
      level := w.seek.value.level;
      chosen := [w.seek.value.file];
    } else {
      return 0, [];
    }
    ghost var f := chosen[0];
    assert PickedFirst(v[level], pointers[level], w, f);
    if level == 0 {
      var smallest, largest := GetRange(chosen);
      chosen := GetOverlappingInputs(v[0], 0, Some(smallest.user), Some(largest.user));
      assert WellFormed(f);
      EntryInRange(f, f.entries[0]);
      assert f in chosen;
    } else {
      OneFileIsConsecutive(v[level], f);
    }
  }

  /** The first file past the compaction pointer, or, wrapping around, the first of all. */
  method FirstAfterPointer(files: seq<File>, pointer: Option<InternalKey>) returns (f: File)
    requires files != []
    ensures f in files && FirstPast(files, pointer, f)
  {
    var i := 0;
    while i < |files| && pointer.Some? && Compare(files[i].largest, pointer.value) <= 0
      invariant i <= |files| && forall j :: 0 <= j < i ==> !Past(files[j], pointer)
    {
      i := i + 1;
    }
    f := if i < |files| then files[i] else files[0];
  }

  /** The shortest prefix that fills a file, or everything. */
  ghost predicate CutShort(all: seq<File>, chosen: seq<File>, maxFileSize: nat) {
    && chosen <= all
    && (chosen != all ==> TotalFileSize(chosen) >= maxFileSize)
    && (|chosen| > 1 ==> TotalFileSize(chosen[..|chosen| - 1]) < maxFileSize)
  }

  lemma {:induction false} TotalFileSizeAppends(files: seq<File>, i: nat, j: nat)
    requires i <= j < |files|
    ensures TotalFileSize(files[i..j + 1]) == TotalFileSize(files[i..j]) + files[j].size
    decreases j - i
  {
    if i < j {
      TotalFileSizeAppends(files, i + 1, j);
      assert files[i..j + 1][1..] == files[i + 1..j + 1];
      assert files[i..j][1..] == files[i + 1..j];
    }
  }

  method CutInputs(all: seq<File>, maxFileSize: nat) returns (chosen: seq<File>)
    requires all != []
    ensures chosen != [] && CutShort(all, chosen, maxFileSize)
  {
    var total := 0;
    for i := 0 to |all|
      invariant total == TotalFileSize(all[0..i])
      invariant i > 0 ==> total < maxFileSize
    {
      TotalFileSizeAppends(all, 0, i);
      total := total + all[i].size;
      if total >= maxFileSize {
        assert all[..i + 1] == all[0..i + 1] && all[..i + 1][..i] == all[0..i];
        return all[..i + 1];
      }
    }
    assert all[..|all| - 1] == all[0..|all| - 1];
    TotalFileSizeAppends(all, 0, |all| - 1);
    assert all[0..|all|] == all;
    return all;
  }

  /** CompactRange: the files in the range, cut short once they add up to a full file, except in
    * level 0.
    */
  method CompactRange(files: seq<File>, level: nat, begin: Bound, end: Bound, maxFileSize: nat)
    returns (chosen: seq<File>)
    requires LevelShape(files, level)
    ensures chosen != [] ==> Start(files, level, chosen)
    ensures chosen == [] ==> forall f :: f in files ==> !Overlaps(f, begin, end)
    ensures level == 0 ==> LeastClosedCover(files, begin, end, chosen)
    ensures level > 0 ==> CutShort(Overlapping(files, begin, end), chosen, maxFileSize)
  {
    chosen := GetOverlappingInputs(files, level, begin, end);
    if chosen == [] {
      if level == 0 { NothingFound(files, begin, end); }
      return;
    }
    if level > 0 {
      var all := chosen;
      OverlappingIsConsecutive(files, begin, end);
      chosen := CutInputs(all, maxFileSize);
      PrefixIsConsecutive(files, all, |chosen|);
    }
  }

  lemma NothingFound(files: seq<File>, begin: Bound, end: Bound)
    requires LeastClosedCover(files, begin, end, [])
    ensures forall f :: f in files ==> !Overlaps(f, begin, end)
  {
    var lo, hi :| CoversRange(files, begin, end, lo, hi) && [] == Overlapping(files, lo, hi);
    forall f | f in files ensures !Overlaps(f, begin, end) {
      assert f !in Overlapping(files, lo, hi);
    }
  }
}
