/** What a compaction does to a version, apart from how it computes it: which inputs are sound,
  * what replacing them keeps, and when reads come out the same.
  */
module Compactions {
  import opened InternalKeys
  import opened History
  import opened Versions
  import opened InputSelection

  datatype Inputs = Inputs(level: nat, in0: seq<File>, in1: seq<File>)

  /** f lies wholly to one side of all the files, by internal key. */
  ghost predicate Apart(f: File, files: seq<File>) {
    || (forall g :: g in files ==> Less(f.largest, g.smallest))
    || (forall g :: g in files ==> Less(g.largest, f.smallest))
  }

  /** What replacing the inputs relies on: files left in `level` are newer than the ones taken, and
    * files left in the next level lie beside the whole lot.
    */
  ghost predicate ValidInputs(v: Version, c: Inputs) {
    && c.level + 1 < NUM_LEVELS
    && (forall f :: f in c.in0 ==> f in v[c.level])
    && (forall f :: f in c.in1 ==> f in v[c.level + 1])
    && (forall f, g :: f in v[c.level] && f !in c.in0 && g in c.in0 ==> NewerThan(f, g))
    && (forall f :: f in v[c.level + 1] && f !in c.in1 ==> Apart(f, c.in0 + c.in1))
  }

  lemma SelectionIsValid(v: Version, level: nat, in0: seq<File>, in1: seq<File>)
    requires Shape(v) && level + 1 < NUM_LEVELS
    requires Settled(v[level], level, in0) && NextLevelInputs(v[level + 1], in0, in1)
    ensures ValidInputs(v, Inputs(level, in0, in1))
  {
    hide NoBoundary, ClosedRange, Convex, Disjoint, Apart, NewerThan;
    assert LevelShape(v[level], level) && LevelShape(v[level + 1], level + 1);
    forall f, g | f in v[level] && f !in in0 && g in in0 ensures NewerThan(f, g) {
      LeftBehindIsNewer(v[level], level, in0, f, g);
    }
    forall f | f in v[level + 1] && f !in in1 ensures Apart(f, in0 + in1) {
      LeftBesideIsApart(v[level + 1], in0, in1, f);
    }
  }

  lemma LeftBehindIsNewer(files: seq<File>, level: nat, in0: seq<File>, f: File, g: File)
    requires LevelShape(files, level) && Settled(files, level, in0)
    requires f in files && f !in in0 && g in in0
    ensures NewerThan(f, g)
  {
    forall e, x | e in f.entries && x in g.entries && e.key.user == x.key.user
      ensures Tag(e.key) > Tag(x.key)
    {
      if level == 0 {
        NothingSharedInLevel0(files, in0, f, g, e, x);
      } else {
        var i :| 0 <= i < |files| && files[i] == f;
        var j :| 0 <= j < |files| && files[j] == g;
        if i < j {
          EarlierFileIsBefore(files, i, j, e, x);
        } else {
          NothingSharedAfterwards(files, in0, i, j, e, x);
        }
      }
    }
  }

  lemma NothingSharedInLevel0(files: seq<File>, in0: seq<File>, f: File, g: File, e: Entry, x: Entry)
    requires AllWellFormed(files) && Start(files, 0, in0)
    requires f in files && f !in in0 && g in in0 && e in f.entries && x in g.entries
    ensures e.key.user != x.key.user
  {
    CoversItsEntries(f, e);
    CoversItsEntries(g, x);
  }

  /** Files after a run that ends without a boundary file share no user key with the run. */
  lemma NothingSharedAfterwards(files: seq<File>, in0: seq<File>, i: nat, j: nat, e: Entry, x: Entry)
    requires AllWellFormed(files) && Disjoint(files) && Consecutive(files, in0) && NoBoundary(files, in0)
    requires j <= i < |files| && files[i] !in in0 && files[j] in in0
    requires e in files[i].entries && x in files[j].entries
    ensures e.key.user != x.key.user
  {
    var f, g := files[i], files[j];
    var k := LargestKey(in0);
    var last :| last in in0 && last.largest == k;
    FilesAreOrdered(files, j, i);
    NotBeforeLast(files, in0, k, f, g);
    assert WellFormed(f) && WellFormed(g);
    EntryInRange(f, e);
    EntryInRange(g, x);
    assert !Less(k, g.largest) && !IsBoundary(f, k);
  }

  lemma LargestKey(files: seq<File>) returns (k: InternalKey)
    requires files != []
    ensures IsLargestKey(files, k)
  {
    k := files[0].largest;
    for i := 1 to |files|
      invariant IsLargestKey(files[..i], k)
    {
      assert files[..i + 1] == files[..i] + [files[i]];
      assert files[i] in files[..i + 1];
      if Less(k, files[i].largest) {
        k := files[i].largest;
      }
    }
    assert files[..|files|] == files;
  }

  lemma LeftBesideIsApart(next: seq<File>, in0: seq<File>, in1: seq<File>, f: File)
    requires AllWellFormed(next) && Disjoint(next) && AllWellFormed(in0)
    requires NextLevelInputs(next, in0, in1) && f in next && f !in in1
    ensures Apart(f, in0 + in1)
  {
    var k, m :| IsSmallestKey(in0, k) && IsLargestKey(in0, m)
                && in1 == Overlapping(next, Some(k.user), Some(m.user));
    forall g | g in in1
      ensures f.largest.user < k.user ==> Less(f.largest, g.smallest)
      ensures m.user < f.smallest.user ==> Less(g.largest, f.smallest)
    {
      DisjointAreSideBySide(next, f, g);
      assert WellFormed(f) && WellFormed(g);
      EntryInRange(f, f.entries[0]);
      EntryInRange(g, g.entries[0]);
      assert Overlaps(g, Some(k.user), Some(m.user));
    }
    if f.largest.user < k.user {
      assert forall g :: g in in0 ==> Less(f.largest, g.smallest);
    } else {
      assert m.user < f.smallest.user;
    }
  }

  // ---- installing the results -------------------------------------------------------------------

  ghost function InputEntries(c: Inputs): iset<Entry> {
    LevelContents(c.in0 + c.in1)
  }

  /** A level with some files taken out and others put in, listed by smallest key. */
  ghost predicate Replaced(files: seq<File>, files': seq<File>, taken: seq<File>, put: seq<File>) {
    && SortedBySmallest(files')
    && forall f :: f in files' <==> (f in files && f !in taken) || f in put
  }

  /** InstallCompactionResults, and the edit of a trivial move. */
  ghost predicate Installs(v: Version, v': Version, c: Inputs, outs: seq<File>) {
    && c.level + 1 < NUM_LEVELS
    && (forall l :: 0 <= l < NUM_LEVELS && l != c.level && l != c.level + 1 ==> v'[l] == v[l])
    && Replaced(v[c.level], v'[c.level], c.in0, [])
    && Replaced(v[c.level + 1], v'[c.level + 1], c.in1, outs)
  }

  /** Output tables: sorted among themselves, freshly numbered, and made of input entries only. */
  ghost predicate ValidOutputs(v: Version, c: Inputs, outs: seq<File>) {
    && c.level + 1 < NUM_LEVELS
    && AllWellFormed(outs) && Disjoint(outs) && UniqueNumbers(outs)
    && (forall f, g :: f in outs && g in v[c.level + 1] ==> f.number != g.number)
    && (forall e {:trigger HoldsEntry(outs, e)} :: HoldsEntry(outs, e) ==> e in InputEntries(c))
  }

  lemma NextLevelKeepsShape(v: Version, v': Version, c: Inputs, outs: seq<File>)
    requires Shape(v) && ValidInputs(v, c) && Installs(v, v', c, outs) && ValidOutputs(v, c, outs)
    ensures LevelShape(v'[c.level + 1], c.level + 1)
  {
    hide SortedBySmallest, LevelOrder, Apart, SideBySide;
    var files, files' := v[c.level + 1], v'[c.level + 1];
    assert LevelShape(v[c.level], c.level) && LevelShape(files, c.level + 1);
    forall f, g | f in files' && g in files' && f != g ensures SideBySide(f, g) {
      if f in outs && g in outs {
        DisjointAreSideBySide(outs, f, g);
      } else if f in outs {
        OutputBesideLeft(v, c, outs, f, g);
      } else if g in outs {
        OutputBesideLeft(v, c, outs, g, f);
      } else {
        DisjointAreSideBySide(files, f, g);
      }
    }
    SortedAndApart(files');
  }

  lemma OutputBesideLeft(v: Version, c: Inputs, outs: seq<File>, f: File, g: File)
    requires ValidInputs(v, c) && ValidOutputs(v, c, outs)
    requires AllWellFormed(v[c.level]) && AllWellFormed(v[c.level + 1])
    requires f in outs && g in v[c.level + 1] && g !in c.in1
    ensures SideBySide(f, g) && SideBySide(g, f)
  {
    var first, last := f.entries[0], f.entries[|f.entries| - 1];
    assert HoldsEntry(outs, first) && HoldsEntry(outs, last);
    var a :| a in c.in0 + c.in1 && first in a.entries;
    var b :| b in c.in0 + c.in1 && last in b.entries;
    assert WellFormed(a) && WellFormed(b);
    EntryInRange(a, first);
    EntryInRange(b, last);
  }

  /** The files of one level of the new version, seen from the old one. */
  lemma OriginOfEntry(v: Version, v': Version, c: Inputs, outs: seq<File>, l: nat, f: File, e: Entry)
    returns (m: nat, g: File)
    requires ValidInputs(v, c) && Installs(v, v', c, outs) && ValidOutputs(v, c, outs)
    requires l < NUM_LEVELS && f in v'[l] && e in f.entries
    ensures m < NUM_LEVELS && g in v[m] && e in g.entries
    ensures if l == c.level + 1 && f in outs then g in c.in0 + c.in1 && (m == c.level || m == l)
            else m == l && g == f && f !in (if l == c.level then c.in0 else if l == c.level + 1 then c.in1 else [])
    ensures m == c.level && l == c.level + 1 ==> g in c.in0
  {
    if l == c.level + 1 && f in outs {
      assert HoldsEntry(outs, e);
      g :| g in c.in0 + c.in1 && e in g.entries;
      m := if g in c.in0 then c.level else l;
    } else {
      m, g := l, f;
    }
  }

  lemma InstallKeepsOrder(v: Version, v': Version, c: Inputs, outs: seq<File>,
                          l: nat, m: nat, f: File, g: File)
    requires Shape(v) && ValidInputs(v, c) && Installs(v, v', c, outs) && ValidOutputs(v, c, outs)
    requires l < m < NUM_LEVELS && f in v'[l] && g in v'[m]
    ensures NewerThan(f, g)
  {
    forall e, x | e in f.entries && x in g.entries && e.key.user == x.key.user
      ensures Tag(e.key) > Tag(x.key)
    {
      var l', f' := OriginOfEntry(v, v', c, outs, l, f, e);
      var m', g' := OriginOfEntry(v, v', c, outs, m, g, x);
      if l' == m' {
        assert NewerThan(f', g');
      } else {
        DeeperIsOlder(v, l', m', f', g', e, x);
      }
    }
  }

  /** Shape is kept by every compaction and every trivial move. */
  lemma InstallKeepsShape(v: Version, v': Version, c: Inputs, outs: seq<File>)
    requires Shape(v) && ValidInputs(v, c) && Installs(v, v', c, outs) && ValidOutputs(v, c, outs)
    ensures Shape(v')
  {
    NextLevelKeepsShape(v, v', c, outs);
    assert LevelShape(v[c.level], c.level);
    forall l, m, f, g | 0 <= l < m < NUM_LEVELS && f in v'[l] && g in v'[m] ensures NewerThan(f, g) {
      InstallKeepsOrder(v, v', c, outs, l, m, f, g);
    }
    ShrunkLevelKeepsShape(v[c.level], v'[c.level], c.level, c.in0);
    forall l | 0 <= l < NUM_LEVELS ensures LevelShape(v'[l], l) {
      assert LevelShape(v[l], l);
    }
  }

  lemma ShrunkLevelKeepsShape(files: seq<File>, files': seq<File>, level: nat, taken: seq<File>)
    requires LevelShape(files, level) && Replaced(files, files', taken, [])
    ensures LevelShape(files', level)
  {
    if level > 0 {
      forall f, g | f in files' && g in files' && f != g ensures SideBySide(f, g) {
        DisjointAreSideBySide(files, f, g);
      }
      SortedAndApart(files');
    }
  }

  // ---- which entries the merge drops, and what reads see of it ------------------------------------

  /** No file below the output level has u in its range. */
  ghost predicate BaseLevel(v: Version, level: nat, u: UserKey) {
    forall l, f :: level + 2 <= l < NUM_LEVELS && f in v[l] ==> !Covers(f, u)
  }

  /** Hidden at every snapshot from `snap` on: by a newer input entry, or as a needless marker. */
  ghost predicate Obsolete(v: Version, c: Inputs, snap: SequenceNumber, e: Entry) {
    || (exists x :: x in InputEntries(c) && x.key.user == e.key.user
                    && Tag(x.key) > Tag(e.key) && x.key.seqno <= snap)
    || (e.key.kind.Deletion? && e.key.seqno <= snap && BaseLevel(v, c.level, e.key.user))
  }

  ghost predicate KeepsTheRest(v: Version, c: Inputs, snap: SequenceNumber, outs: seq<File>) {
    forall e {:trigger HoldsEntry(outs, e)} ::
      HoldsEntry(outs, e) <==> e in InputEntries(c) && !Obsolete(v, c, snap, e)
  }

  ghost predicate InLeftFile(files: seq<File>, taken: seq<File>, e: Entry) {
    exists f :: f in files && f !in taken && e in f.entries
  }

  /** Entries in the files of a level that the compaction does not read. */
  ghost function LeftContents(files: seq<File>, taken: seq<File>): iset<Entry> {
    iset e | InLeftFile(files, taken, e)
  }

  /** A dropped deletion marker brings an old value back: the marker is what a read at the oldest
    * snapshot sees, it is dropped because no deeper level covers the key, and a file of the next
    * level that was not chosen as an input still holds a value for the key.
    */
  ghost predicate Resurrects(v: Version, c: Inputs, snap: SequenceNumber, u: UserKey) {
    && c.level + 1 < NUM_LEVELS
    && BaseLevel(v, c.level, u)
    && (exists e :: Newest(Contents(v), u, snap, e) && e in InputEntries(c) && e.key.kind.Deletion?)
    && (exists x :: Newest(LeftContents(v[c.level + 1], c.in1), u, snap, x) && x.key.kind.Value?)
  }

  ghost predicate Compacts(v: Version, v': Version, c: Inputs, snap: SequenceNumber, outs: seq<File>) {
    && c.level + 1 < NUM_LEVELS
    && Shape(v) && ValidInputs(v, c) && Installs(v, v', c, outs) && ValidOutputs(v, c, outs)
    && KeepsTheRest(v, c, snap, outs)
  }

  lemma NothingNew(v: Version, v': Version, c: Inputs, outs: seq<File>, e: Entry)
    requires ValidInputs(v, c) && Installs(v, v', c, outs) && ValidOutputs(v, c, outs)
    requires InVersion(v', e)
    ensures InVersion(v, e)
  {
    var l, f := Locate(v', e);
    var m, g := OriginOfEntry(v, v', c, outs, l, f, e);
    assert HoldsEntry(v[m], e);
  }

  /** An entry is still in the version unless it was an obsolete input. */
  lemma StillThere(v: Version, v': Version, c: Inputs, snap: SequenceNumber, outs: seq<File>, e: Entry)
    requires ValidInputs(v, c) && Installs(v, v', c, outs) && KeepsTheRest(v, c, snap, outs)
    requires InVersion(v, e) && !(e in InputEntries(c) && Obsolete(v, c, snap, e))
    ensures InVersion(v', e)
  {
    hide Obsolete, BySmallest, BaseLevel;
    var l, f := Locate(v, e);
    if (l == c.level && f in c.in0) || (l == c.level + 1 && f in c.in1) {
      assert f in c.in0 + c.in1;
      assert HoldsEntry(outs, e);
      var g :| g in outs && e in g.entries;
      assert g in v'[c.level + 1];
      assert HoldsEntry(v'[c.level + 1], e);
    } else {
      assert f in v'[l];
      assert HoldsEntry(v'[l], e);
    }
  }

  /** If the newest entry is dropped, it is a deletion marker of a key that no deeper level covers. */
  lemma DroppedNewestIsMarker(v: Version, c: Inputs, u: UserKey, s: SequenceNumber,
                              snap: SequenceNumber, e: Entry)
    requires ValidInputs(v, c) && snap <= s && Newest(Contents(v), u, s, e)
    requires e in InputEntries(c) && Obsolete(v, c, snap, e)
    ensures e.key.kind.Deletion? && BaseLevel(v, c.level, u) && Newest(Contents(v), u, snap, e)
  {
    forall x | x in InputEntries(c) ensures x in Contents(v) {
      InputsAreContents(v, c, x);
    }
  }

  lemma InputsAreContents(v: Version, c: Inputs, x: Entry)
    requires ValidInputs(v, c) && x in InputEntries(c)
    ensures x in Contents(v)
  {
    var f :| f in c.in0 + c.in1 && x in f.entries;
    if f in c.in0 {
      assert HoldsEntry(v[c.level], x);
    } else {
      assert HoldsEntry(v[c.level + 1], x);
    }
  }

  /** No output holds an entry as old as a dropped marker: rule (A) has dropped them all. */
  lemma NoOutputBehind(v: Version, c: Inputs, snap: SequenceNumber, outs: seq<File>, e: Entry, y: Entry)
    requires ValidInputs(v, c) && Shape(v) && KeepsTheRest(v, c, snap, outs)
    requires e in InputEntries(c) && Obsolete(v, c, snap, e) && e.key.seqno <= snap
    requires y.key.user == e.key.user && Tag(y.key) <= Tag(e.key)
    ensures !HoldsEntry(outs, y)
  {
    if y in InputEntries(c) && Tag(y.key) == Tag(e.key) {
      assert Compare(y.key, e.key) == 0;
      InputsAreContents(v, c, e);
      InputsAreContents(v, c, y);
      ShapeKeysUnique(v);
    }
  }

  lemma OtherFileOtherKey(files: seq<File>, g: File, h: File, y: Entry, e: Entry)
    requires LevelShape(files, 1) && g in files && h in files && g != h
    requires y in g.entries && e in h.entries
    ensures y.key != e.key
  {
    DisjointAreSideBySide(files, g, h);
    EntryInRange(g, y);
    EntryInRange(h, e);
  }

  lemma LeftIsNewer(v: Version, c: Inputs, g: File, h: File, y: Entry, e: Entry)
    requires ValidInputs(v, c) && g in v[c.level] && g !in c.in0 && h in c.in0
    requires y in g.entries && e in h.entries && y.key.user == e.key.user
    ensures Tag(y.key) > Tag(e.key)
  {
    assert NewerThan(g, h);
  }

  /** An entry the compaction leaves alone, and older than an input entry, sits below it. */
  lemma OlderAndLeft(v: Version, c: Inputs, m: nat, g: File, y: Entry, e: Entry)
    requires Shape(v) && ValidInputs(v, c) && e in InputEntries(c)
    requires m < NUM_LEVELS && g in v[m] && y in g.entries
    requires (m == c.level ==> g !in c.in0) && (m == c.level + 1 ==> g !in c.in1)
    requires y.key.user == e.key.user && Tag(y.key) <= Tag(e.key)
    ensures m > c.level && Tag(y.key) < Tag(e.key)
  {
    hide SortedBySmallest, Apart, Level0Order, BySmallest;
    var h :| h in c.in0 + c.in1 && e in h.entries;
    var n := if h in c.in0 then c.level else c.level + 1;
    if m < n {
      DeeperIsOlder(v, m, n, g, h, y, e);
    } else if m > n {
      DeeperIsOlder(v, n, m, h, g, e, y);
    } else if m == c.level {
      LeftIsNewer(v, c, g, h, y, e);
    } else {
      OtherFileOtherKey(v[m], g, h, y, e);
      assert Tag(y.key) == Tag(e.key) ==> Compare(y.key, e.key) == 0;
    }
  }

  /** Behind a dropped marker, only unread files of the next level can still answer. */
  lemma BehindMarker(v: Version, v': Version, c: Inputs, snap: SequenceNumber, outs: seq<File>,
                     u: UserKey, s: SequenceNumber, e: Entry, y: Entry)
    requires Compacts(v, v', c, snap, outs) && snap <= s && Newest(Contents(v), u, s, e)
    requires e in InputEntries(c) && Obsolete(v, c, snap, e)
    requires InVersion(v', y) && Visible(y, u, s)
    ensures y in LeftContents(v[c.level + 1], c.in1) && Tag(y.key) < Tag(e.key)
  {
    hide Obsolete, KeepsTheRest, ValidOutputs, Replaced, Apart, LevelShape, LevelOrder;
    DroppedNewestIsMarker(v, c, u, s, snap, e);
    NothingNew(v, v', c, outs, y);
    NoOutputBehind(v, c, snap, outs, e, y);
    var l, f := Locate(v', y);
    var m, g := OriginOfEntry(v, v', c, outs, l, f, y);
    OlderAndLeft(v, c, m, g, y, e);
    if m >= c.level + 2 {
      assert LevelShape(v[m], m);
      WellFormedInLevel(v, m, g);
      CoversItsEntries(g, y);
    }
  }

  lemma WellFormedInLevel(v: Version, m: nat, g: File)
    requires Shape(v) && m < NUM_LEVELS && g in v[m]
    ensures WellFormed(g)
  {
    assert LevelShape(v[m], m);
  }

  lemma ReadIsKept(v: Version, v': Version, c: Inputs, snap: SequenceNumber, outs: seq<File>,
                   u: UserKey, s: SequenceNumber)
    requires Compacts(v, v', c, snap, outs) && snap <= s && !Resurrects(v, c, snap, u)
    ensures Read(Contents(v'), u, s) == Read(Contents(v), u, s)
  {
    hide Obsolete, KeepsTheRest, ValidOutputs, ValidInputs, Installs, Shape;
    InstallKeepsShape(v, v', c, outs);
    ShapeKeysUnique(v);
    ShapeKeysUnique(v');
    forall y | InVersion(v', y) ensures InVersion(v, y) {
      NothingNew(v, v', c, outs, y);
    }
    if !Hidden(Contents(v), u, s) {
      var e := NewestExists(Contents(v), u, s);
      ReadIsNewest(Contents(v), u, s, e);
      if !(e in InputEntries(c) && Obsolete(v, c, snap, e)) {
        StillThere(v, v', c, snap, outs, e);
        ReadIsNewest(Contents(v'), u, s, e);
      } else {
        DroppedNewestIsMarker(v, c, u, s, snap, e);
        forall y | Newest(Contents(v'), u, s, y) ensures y.key.kind.Deletion? {
          LeftNewest(v, v', c, snap, outs, u, s, e, y);
        }
      }
    }
  }

  /** What a read finds behind a dropped marker is the newest entry of the unread files. */
  lemma LeftNewest(v: Version, v': Version, c: Inputs, snap: SequenceNumber, outs: seq<File>,
                   u: UserKey, s: SequenceNumber, e: Entry, y: Entry)
    requires Compacts(v, v', c, snap, outs) && snap <= s && Newest(Contents(v), u, s, e)
    requires e in InputEntries(c) && Obsolete(v, c, snap, e)
    ensures Newest(Contents(v'), u, s, y) <==> Newest(LeftContents(v[c.level + 1], c.in1), u, snap, y)
  {
    hide Obsolete, KeepsTheRest, ValidOutputs, Shape;
    DroppedNewestIsMarker(v, c, u, s, snap, e);
    var left := LeftContents(v[c.level + 1], c.in1);
    forall x | x in left ensures InVersion(v', x) && InVersion(v, x) {
      var f :| f in v[c.level + 1] && f !in c.in1 && x in f.entries;
      assert f in v'[c.level + 1];
      assert HoldsEntry(v'[c.level + 1], x) && HoldsEntry(v[c.level + 1], x);
    }
    forall x | InVersion(v', x) && Visible(x, u, s) ensures x in left && Visible(x, u, snap) {
      BehindMarker(v, v', c, snap, outs, u, s, e, x);
    }
  }

  lemma ResurrectionChangesRead(v: Version, v': Version, c: Inputs, snap: SequenceNumber,
                                outs: seq<File>, u: UserKey)
    requires Compacts(v, v', c, snap, outs) && Resurrects(v, c, snap, u)
    ensures Read(Contents(v), u, snap) == NotFound && Read(Contents(v'), u, snap).Found?
  {
    hide KeepsTheRest, ValidOutputs, ValidInputs, Installs, Shape;
    InstallKeepsShape(v, v', c, outs);
    ShapeKeysUnique(v);
    ShapeKeysUnique(v');
    var e :| Newest(Contents(v), u, snap, e) && e in InputEntries(c) && e.key.kind.Deletion?;
    var x :| Newest(LeftContents(v[c.level + 1], c.in1), u, snap, x) && x.key.kind.Value?;
    LeftNewest(v, v', c, snap, outs, u, snap, e, x);
    ReadIsNewest(Contents(v), u, snap, e);
    ReadIsNewest(Contents(v'), u, snap, x);
  }

  /** A compaction keeps every read at the oldest snapshot or later, for every user key, exactly
    * when it resurrects nothing.
    */
  lemma CompactionKeepsReads(v: Version, v': Version, c: Inputs, snap: SequenceNumber, outs: seq<File>)
    requires Compacts(v, v', c, snap, outs)
    ensures (forall u, s :: snap <= s ==> Read(Contents(v'), u, s) == Read(Contents(v), u, s))
            <==> (forall u :: !Resurrects(v, c, snap, u))
  {
    hide Compacts, Resurrects, Read;
    forall u, s | snap <= s && !Resurrects(v, c, snap, u)
      ensures Read(Contents(v'), u, s) == Read(Contents(v), u, s)
    {
      ReadIsKept(v, v', c, snap, outs, u, s);
    }
    if u :| Resurrects(v, c, snap, u) {
      ResurrectionChangesRead(v, v', c, snap, outs, u);
      assert Read(Contents(v'), u, snap) != Read(Contents(v), u, snap);
    }
  }

  /** Enough for that: no unread file of the next level shares a user key with the inputs. */
  lemma UnsharedKeysAreSafe(v: Version, c: Inputs, snap: SequenceNumber, u: UserKey)
    requires ValidInputs(v, c)
    requires forall e, x :: e in InputEntries(c) && x in LeftContents(v[c.level + 1], c.in1)
                            ==> e.key.user != x.key.user
    ensures !Resurrects(v, c, snap, u)
  {
  }
}
