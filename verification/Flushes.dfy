/** Placing a flushed memtable as a new table of some level. */
module Flushes {
  import opened InternalKeys
  import opened History
  import opened Versions
  import opened InputSelection
  import opened Compactions

  /** v' is v with table f added at level l. */
  ghost predicate Adds(v: Version, v': Version, l: nat, f: File) {
    && l < NUM_LEVELS
    && (forall m :: 0 <= m < NUM_LEVELS && m != l ==> v'[m] == v[m])
    && Replaced(v[l], v'[l], [], [f])
  }

  ghost predicate NewerThanAll(f: File, v: Version) {
    forall l, g :: 0 <= l < NUM_LEVELS && g in v[l] ==> NewerThan(f, g) && f.number > g.number
  }

  /** What PickLevelForMemTableOutput promises about the level it picks. */
  ghost predicate ClearAbove(v: Version, l: nat, f: File) {
    l > 0 ==> forall m, g :: 0 <= m <= l && m < NUM_LEVELS && g in v[m]
                             ==> !Overlaps(g, Some(f.smallest.user), Some(f.largest.user))
  }

  lemma NoOverlapNoSharing(f: File, g: File)
    requires WellFormed(f) && WellFormed(g) && !Overlaps(g, Some(f.smallest.user), Some(f.largest.user))
    ensures NewerThan(g, f)
    ensures SideBySide(f, g) && SideBySide(g, f)
  {
    forall e, x | e in g.entries && x in f.entries ensures e.key.user != x.key.user {
      CoversItsEntries(g, e);
      CoversItsEntries(f, x);
    }
  }

  lemma FlushedLevelShape(files: seq<File>, files': seq<File>, l: nat, f: File)
    requires LevelShape(files, l) && WellFormed(f) && Replaced(files, files', [], [f])
    requires forall g :: g in files ==> NewerThan(f, g) && f.number > g.number
    requires l > 0 ==> forall g :: g in files ==> !Overlaps(g, Some(f.smallest.user), Some(f.largest.user))
    ensures LevelShape(files', l)
  {
    hide WellFormed;
    if l > 0 {
      hide SortedBySmallest, Level0Order, NewerThan, Overlaps;
      forall a, b | a in files' && b in files' && a != b ensures SideBySide(a, b) {
        if a in files && b in files {
          DisjointAreSideBySide(files, a, b);
        } else {
          NoOverlapNoSharing(f, if a == f then b else a);
        }
      }
      SortedAndApart(files');
    }
  }

  /** Shape is kept by every flush, at whichever level the table is put. */
  lemma FlushKeepsShape(v: Version, v': Version, l: nat, f: File)
    requires Shape(v) && WellFormed(f) && Adds(v, v', l, f)
    requires NewerThanAll(f, v) && ClearAbove(v, l, f)
    ensures Shape(v')
  {
    assert LevelShape(v[l], l);
    FlushedLevelShape(v[l], v'[l], l, f);
    forall m | 0 <= m < NUM_LEVELS ensures LevelShape(v'[m], m) {
      assert LevelShape(v[m], m);
    }
    forall m, n, a, b | 0 <= m < n < NUM_LEVELS && a in v'[m] && b in v'[n] ensures NewerThan(a, b) {
      if n == l && b == f {
        WellFormedInLevel(v, m, a);
        NoOverlapNoSharing(f, a);
      }
    }
  }

  lemma FlushedContents(v: Version, v': Version, l: nat, f: File, e: Entry)
    requires Adds(v, v', l, f)
    ensures InVersion(v', e) <==> InVersion(v, e) || e in f.entries
  {
    if InVersion(v', e) {
      var m, g := Locate(v', e);
      assert g == f || (g in v[m] && HoldsEntry(v[m], e));
    }
    if InVersion(v, e) {
      var m, g := Locate(v, e);
      assert g in v'[m] && HoldsEntry(v'[m], e);
    }
    if e in f.entries {
      assert f in v'[l] && HoldsEntry(v'[l], e);
    }
  }
}
