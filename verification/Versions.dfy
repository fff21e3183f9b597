/** Versions: seven lists of table files (db/version_set.cc), the shape they keep, and the
  * level-by-level point read that relies on it.  A table is its strictly sorted entries; how a
  * table finds its first entry at or after a key is the subject of module Tables.
  */
module Versions {
  import opened InternalKeys
  import opened History

  datatype File = File(number: nat, size: nat, smallest: InternalKey, largest: InternalKey,
                       entries: seq<Entry>)

  type Version = v: seq<seq<File>> | |v| == NUM_LEVELS witness [[], [], [], [], [], [], []]

  ghost predicate WellFormed(f: File) {
    && |f.entries| > 0
    && Sorted(f.entries)
    && f.smallest == f.entries[0].key
    && f.largest == f.entries[|f.entries| - 1].key
  }

  /** Files sorted by range, each wholly before the next (levels 1 and deeper). */
  ghost predicate Disjoint(files: seq<File>) {
    forall i, j :: 0 <= i < j < |files| ==> Less(files[i].largest, files[j].smallest)
  }

  /** BySmallestKey: the order in which a level lists its files. */
  predicate BySmallest(f: File, g: File) {
    Less(f.smallest, g.smallest) || (f.smallest == g.smallest && f.number < g.number)
  }

  ghost predicate SortedBySmallest(files: seq<File>) {
    forall i, j :: 0 <= i < j < |files| ==> BySmallest(files[i], files[j])
  }

  ghost predicate AllWellFormed(files: seq<File>) {
    forall f :: f in files ==> WellFormed(f)
  }

  ghost predicate UniqueNumbers(files: seq<File>) {
    forall f, g :: f in files && g in files && f.number == g.number ==> f == g
  }

  /** For every user key in both, f holds the newer entries. */
  ghost predicate NewerThan(f: File, g: File) {
    forall e, x :: e in f.entries && x in g.entries && e.key.user == x.key.user
                   ==> Tag(e.key) > Tag(x.key)
  }

  ghost predicate Level0Order(files: seq<File>) {
    forall f, g :: f in files && g in files && f.number > g.number ==> NewerThan(f, g)
  }

  ghost predicate LevelOrder(v: Version) {
    forall l, m, f, g :: 0 <= l < m < NUM_LEVELS && f in v[l] && g in v[m] ==> NewerThan(f, g)
  }

  ghost predicate LevelShape(files: seq<File>, level: nat) {
    && AllWellFormed(files)
    && UniqueNumbers(files)
    && SortedBySmallest(files)
    && (if level == 0 then Level0Order(files) else Disjoint(files))
  }

  /** What every version keeps: the reason why a read may stop at the first level that answers. */
  ghost predicate Shape(v: Version) {
    && (forall l :: 0 <= l < NUM_LEVELS ==> LevelShape(v[l], l))
    && LevelOrder(v)
  }

  ghost predicate HoldsEntry(files: seq<File>, e: Entry) {
    exists f :: f in files && e in f.entries
  }

  ghost function LevelContents(files: seq<File>): iset<Entry> {
    iset e | HoldsEntry(files, e)
  }

  ghost predicate InVersion(v: Version, e: Entry) {
    exists l :: 0 <= l < NUM_LEVELS && HoldsEntry(v[l], e)
  }

  ghost function Contents(v: Version): iset<Entry> {
    iset e | InVersion(v, e)
  }

  // ---- tables -------------------------------------------------------------------------------

  /** Where a table iterator lands when it seeks to k. */
  function SeekIndex(es: seq<Entry>, k: InternalKey): (i: nat)
    ensures i <= |es|
    ensures forall j :: 0 <= j < i ==> Less(es[j].key, k)
    ensures i < |es| ==> !Less(es[i].key, k)
  {
    if es == [] || !Less(es[0].key, k) then 0 else SeekIndex(es[1..], k) + 1
  }

  /** TableCache::Get with SaveValue: the entry sought to, if it is one of user key u. */
  function TableGet(es: seq<Entry>, u: UserKey, s: SequenceNumber): Option<Entry> {
    var i := SeekIndex(es, LookupKey(u, s));
    if i < |es| && es[i].key.user == u then Some(es[i]) else None
  }

  lemma TableGetIsNewest(es: seq<Entry>, u: UserKey, s: SequenceNumber)
    requires Sorted(es)
    ensures IsHit(EntrySet(es), u, s, TableGet(es, u, s))
  {
    var k := LookupKey(u, s);
    var i := SeekIndex(es, k);
    forall j | 0 <= j < |es| && Visible(es[j], u, s)
      ensures i <= j && es[i].key.user == u && Tag(es[j].key) <= Tag(es[i].key)
    {
      LookupKeySplits(es[j].key, u, s);
      assert i < j ==> Less(es[i].key, es[j].key);
    }
  }

  lemma EntryInRange(f: File, e: Entry)
    requires WellFormed(f) && e in f.entries
    ensures !Less(e.key, f.smallest) && !Less(f.largest, e.key)
  {
  }

  // ---- searching a level ----------------------------------------------------------------------

  /** FindFile: the first file whose largest key is at or after the given one. */
  method FindFile(files: seq<File>, key: InternalKey) returns (right: nat)
    requires AllWellFormed(files) && Disjoint(files)
    ensures right <= |files|
    ensures forall i :: 0 <= i < right ==> Less(files[i].largest, key)
    ensures forall i :: right <= i < |files| ==> !Less(files[i].largest, key)
  {
    var left := 0;
    right := |files|;
    while left < right
      invariant left <= right <= |files|
      invariant forall i :: 0 <= i < left ==> Less(files[i].largest, key)
      invariant forall i :: right <= i < |files| ==> !Less(files[i].largest, key)
    {
      var mid := (left + right) / 2;
      FilesAscend(files, mid);
      if Compare(files[mid].largest, key) < 0 {
        left := mid + 1;
      } else {
        right := mid;
      }
    }
  }

  lemma FilesAscend(files: seq<File>, mid: nat)
    requires AllWellFormed(files) && Disjoint(files) && mid < |files|
    ensures forall i :: 0 <= i < mid ==> Less(files[i].largest, files[mid].largest)
    ensures forall i :: mid < i < |files| ==> Less(files[mid].largest, files[i].largest)
  {
    forall i | 0 <= i < |files| ensures !Less(files[i].largest, files[i].smallest) {
      assert WellFormed(files[i]);
      EntryInRange(files[i], files[i].entries[0]);
    }
  }

  predicate Covers(f: File, u: UserKey) {
    f.smallest.user <= u <= f.largest.user
  }

  lemma CoversItsEntries(f: File, e: Entry)
    requires WellFormed(f) && e in f.entries
    ensures Covers(f, e.key.user)
  {
    EntryInRange(f, e);
  }

  /** The level-0 files that may hold u, newest (highest number) first. */
  method Level0Candidates(files: seq<File>, u: UserKey) returns (tmp: seq<File>)
    requires UniqueNumbers(files)
    ensures forall f :: f in tmp <==> f in files && Covers(f, u)
    ensures forall i, j :: 0 <= i < j < |tmp| ==> tmp[i].number >= tmp[j].number
  {
    tmp := [];
    for i := 0 to |files|
      invariant forall f :: f in tmp <==> f in files[..i] && Covers(f, u)
      invariant forall a, b :: 0 <= a < b < |tmp| ==> tmp[a].number >= tmp[b].number
    {
      assert files[..i + 1] == files[..i] + [files[i]];
      if files[i].smallest.user <= u && files[i].largest.user >= u {
        tmp := InsertNewestFirst(tmp, files[i]);
      }
    }
    assert files[..|files|] == files;
  }

  /** One insertion of the sort by NewestFirst. */
  method InsertNewestFirst(files: seq<File>, f: File) returns (r: seq<File>)
    requires forall i, j :: 0 <= i < j < |files| ==> files[i].number >= files[j].number
    ensures forall i, j :: 0 <= i < j < |r| ==> r[i].number >= r[j].number
    ensures forall g :: g in r <==> g in files || g == f
  {
    var n := 0;
    while n < |files| && files[n].number > f.number
      invariant n <= |files|
      invariant forall i :: 0 <= i < n ==> files[i].number > f.number
    {
      n := n + 1;
    }
    r := files[..n] + [f] + files[n..];
    assert files == files[..n] + files[n..];
  }

  // ---- the point read -------------------------------------------------------------------------

  /** The part of Version::Get that searches level 0: newest file first, stop at the first hit. */
  method GetLevel0(files: seq<File>, u: UserKey, s: SequenceNumber) returns (r: Option<Entry>)
    requires LevelShape(files, 0)
    ensures IsHit(LevelContents(files), u, s, r)
  {
    var tmp := Level0Candidates(files, u);
    for i := 0 to |tmp|
      invariant forall j, e :: 0 <= j < i && e in tmp[j].entries ==> !Visible(e, u, s)
    {
      assert tmp[i] in files && WellFormed(tmp[i]);
      r := TableGet(tmp[i].entries, u, s);
      TableGetIsNewest(tmp[i].entries, u, s);
      if r.Some? {
        forall f, e | f in files && e in f.entries && Visible(e, u, s)
          ensures Tag(e.key) <= Tag(r.value.key)
        {
          CoversItsEntries(f, e);
          var j :| 0 <= j < |tmp| && tmp[j] == f;
          assert tmp[i].number > f.number ==> NewerThan(tmp[i], f);
          assert e in EntrySet(f.entries);
        }
        return;
      }
      forall e | e in tmp[i].entries ensures !Visible(e, u, s) {
        assert e in EntrySet(tmp[i].entries);
      }
    }
    forall f, e | f in files && e in f.entries ensures !Visible(e, u, s) {
      if Visible(e, u, s) { CoversItsEntries(f, e); }
    }
    r := None;
  }

  /** The part of Version::Get that searches a deeper level: binary search for the only file that
    * can answer, although entries of u may continue in the files after it.
    */
  method GetSortedLevel(files: seq<File>, u: UserKey, s: SequenceNumber) returns (r: Option<Entry>)
    requires AllWellFormed(files) && Disjoint(files)
    ensures IsHit(LevelContents(files), u, s, r)
  {
    var ikey := LookupKey(u, s);
    var index := FindFile(files, ikey);
    r := None;
    if index < |files| && !(u < files[index].smallest.user) {
      assert WellFormed(files[index]);
      r := TableGet(files[index].entries, u, s);
      TableGetIsNewest(files[index].entries, u, s);
    }
    forall f, e | f in files && e in f.entries && Visible(e, u, s)
      ensures r.Some? && Tag(e.key) <= Tag(r.value.key)
    {
      var j :| 0 <= j < |files| && files[j] == f;
      EntryInRange(f, e);
      LookupKeySplits(e.key, u, s);
      assert index <= j;
      var g := files[index];
      assert WellFormed(g);
      assert j > index ==> Less(g.largest, f.smallest);
      EntryInRange(g, g.entries[0]);
      if j > index {
        LookupKeySplits(g.largest, u, s);
        assert Visible(g.entries[|g.entries| - 1], u, s);
        assert g.entries[|g.entries| - 1] in EntrySet(g.entries);
      } else {
        assert e in EntrySet(g.entries);
      }
    }
  }

  ghost predicate HiddenAbove(v: Version, level: nat, u: UserKey, s: SequenceNumber)
    requires level <= NUM_LEVELS
  {
    forall l :: 0 <= l < level ==> Hidden(LevelContents(v[l]), u, s)
  }

  /** Version::Get: the first level that has a visible entry has the newest one. */
  method Get(v: Version, u: UserKey, s: SequenceNumber) returns (r: ReadResult)
    requires Shape(v)
    ensures r == Read(Contents(v), u, s)
  {
    ShapeKeysUnique(v);
    for level := 0 to NUM_LEVELS
      invariant HiddenAbove(v, level, u, s)
    {
      var hit;
      if level == 0 {
        hit := GetLevel0(v[level], u, s);
      } else {
        hit := GetSortedLevel(v[level], u, s);
      }
      if hit.Some? {
        HitIsNewest(v, level, u, s, hit.value);
        ReadIsNewest(Contents(v), u, s, hit.value);
        return Outcome(hit.value);
      }
    }
    r := NotFound;
  }

  lemma HitIsNewest(v: Version, level: nat, u: UserKey, s: SequenceNumber, hit: Entry)
    requires LevelOrder(v) && level < NUM_LEVELS && HiddenAbove(v, level, u, s)
    requires Newest(LevelContents(v[level]), u, s, hit)
    ensures Newest(Contents(v), u, s, hit)
  {
    var f :| f in v[level] && hit in f.entries;
    forall x | x in Contents(v) && Visible(x, u, s) ensures Tag(x.key) <= Tag(hit.key) {
      var m :| 0 <= m < NUM_LEVELS && HoldsEntry(v[m], x);
      assert x in LevelContents(v[m]);
      if m > level {
        var g :| g in v[m] && x in g.entries;
        DeeperIsOlder(v, level, m, f, g, hit, x);
      }
    }
  }

  // ---- consequences of the shape ----------------------------------------------------------------

  lemma DeeperIsOlder(v: Version, l: nat, m: nat, f: File, g: File, e: Entry, x: Entry)
    requires LevelOrder(v) && l < m < NUM_LEVELS && f in v[l] && g in v[m]
    requires e in f.entries && x in g.entries && e.key.user == x.key.user
    ensures Tag(e.key) > Tag(x.key)
  {
    assert NewerThan(f, g);
  }

  lemma LowerNumberIsOlder(files: seq<File>, f: File, g: File, e: Entry, x: Entry)
    requires Level0Order(files) && f in files && g in files && f.number > g.number
    requires e in f.entries && x in g.entries && e.key.user == x.key.user
    ensures Tag(e.key) > Tag(x.key)
  {
    assert NewerThan(f, g);
  }

  lemma EarlierFileIsBefore(files: seq<File>, i: nat, j: nat, e: Entry, x: Entry)
    requires AllWellFormed(files) && Disjoint(files) && i < j < |files|
    requires e in files[i].entries && x in files[j].entries
    ensures Less(e.key, x.key)
  {
    EntryInRange(files[i], e);
    EntryInRange(files[j], x);
  }

  lemma SameLevelKeysUnique(files: seq<File>, level: nat, f: File, g: File, e: Entry, x: Entry)
    requires LevelShape(files, level)
    requires f in files && g in files && e in f.entries && x in g.entries && e.key == x.key
    ensures e == x
  {
    var i :| 0 <= i < |files| && files[i] == f;
    var j :| 0 <= j < |files| && files[j] == g;
    if f == g {
      var a :| 0 <= a < |f.entries| && f.entries[a] == e;
      var b :| 0 <= b < |f.entries| && f.entries[b] == x;
    } else if level == 0 {
      if f.number > g.number { LowerNumberIsOlder(files, f, g, e, x); }
      if g.number > f.number { LowerNumberIsOlder(files, g, f, x, e); }
    } else {
      if i < j { EarlierFileIsBefore(files, i, j, e, x); }
      if j < i { EarlierFileIsBefore(files, j, i, x, e); }
    }
  }

  lemma VersionKeysUnique(v: Version, l: nat, m: nat, f: File, g: File, e: Entry, x: Entry)
    requires Shape(v) && l < NUM_LEVELS && m < NUM_LEVELS && f in v[l] && g in v[m]
    requires e in f.entries && x in g.entries && e.key == x.key
    ensures e == x
  {
    if l < m {
      DeeperIsOlder(v, l, m, f, g, e, x);
    } else if m < l {
      DeeperIsOlder(v, m, l, g, f, x, e);
    } else {
      SameLevelKeysUnique(v[l], l, f, g, e, x);
    }
  }

  lemma ShapeKeysUnique(v: Version)
    requires Shape(v)
    ensures KeysUnique(Contents(v))
  {
    forall e, x | e in Contents(v) && x in Contents(v) && e.key == x.key ensures e == x {
      var l, f := Locate(v, e);
      var m, g := Locate(v, x);
      VersionKeysUnique(v, l, m, f, g, e, x);
    }
  }

  lemma Locate(v: Version, e: Entry) returns (l: nat, f: File)
    requires InVersion(v, e)
    ensures l < NUM_LEVELS && f in v[l] && e in f.entries
  {
    l :| 0 <= l < NUM_LEVELS && HoldsEntry(v[l], e);
    f :| f in v[l] && e in f.entries;
  }

  ghost predicate SideBySide(f: File, g: File) {
    Less(f.largest, g.smallest) || Less(g.largest, f.smallest)
  }

  /** Files listed by smallest key, no two of which interleave, are sorted by range. */
  lemma SortedAndApart(files: seq<File>)
    requires AllWellFormed(files) && SortedBySmallest(files)
    requires forall f, g :: f in files && g in files && f != g ==> SideBySide(f, g)
    ensures Disjoint(files)
  {
    forall i, j | 0 <= i < j < |files| ensures Less(files[i].largest, files[j].smallest) {
      var f, g := files[i], files[j];
      assert f in files && g in files && BySmallest(f, g);
      EntryInRange(f, f.entries[0]);
      EntryInRange(g, g.entries[0]);
      assert SideBySide(f, g);
    }
  }

  lemma DisjointAreSideBySide(files: seq<File>, f: File, g: File)
    requires Disjoint(files) && f in files && g in files && f != g
    ensures SideBySide(f, g)
  {
  }
}
