/** A deleted key comes back: inputs_[1] is not extended by its boundary files, and so there is a version, which
  * flushes and compactions lead to, and a compaction of it after which reads see something else.
  */
module Resurrection {
  import opened InternalKeys
  import opened History
  import opened Versions
  import opened InputSelection
  import opened Compactions
  import opened Flushes

  function Put(u: UserKey, s: SequenceNumber): Entry {
    Entry(InternalKey(u, s, Value), [1])
  }

  function Marker(u: UserKey, s: SequenceNumber): Entry {
    Entry(InternalKey(u, s, Deletion), [])
  }

  function TableOf(number: nat, es: seq<Entry>): File
    requires es != []
  {
    File(number, 1, es[0].key, es[|es| - 1].key, es)
  }

  const UPPER := TableOf(7, [Put(1.0, 5)])
  const MIDDLE := TableOf(5, [Put(1.0, 2), Marker(2.0, 4)])
  const LAST := TableOf(6, [Put(2.0, 3)])

  /** User key 2.0 ends one level-2 file with its deletion marker and starts the next with the value. */
  const BEFORE: Version := [[], [UPPER], [MIDDLE, LAST], [], [], [], []]

  lemma BeforeHasShape()
    ensures Shape(BEFORE)
  {
    hide LevelShape, NewerThan;
    LevelsAreShaped();
    UpperIsNewer();
  }

  lemma LevelsAreShaped()
    ensures LevelShape(BEFORE[1], 1) && LevelShape(BEFORE[2], 2) && forall l: nat :: LevelShape([], l)
  {
    assert WellFormed(UPPER) && WellFormed(MIDDLE) && WellFormed(LAST);
    assert [UPPER][0] == UPPER;
    assert BEFORE[2][0] == MIDDLE && BEFORE[2][1] == LAST;
  }

  lemma UpperIsNewer()
    ensures NewerThan(UPPER, MIDDLE) && NewerThan(UPPER, LAST)
  {
  }

  /** Compacting level 1: its one file is settled, and there is one choice for the next level. */
  lemma SelectionIsForced(in1: seq<File>)
    ensures Settled(BEFORE[1], 1, [UPPER])
    ensures NextLevelInputs(BEFORE[2], [UPPER], in1) <==> in1 == [MIDDLE]
  {
    assert UPPER in [UPPER];
    assert IsSmallestKey([UPPER], UPPER.smallest) && IsLargestKey([UPPER], UPPER.largest);
    LargestKeyIsUnique([UPPER], UPPER.largest);
    forall k | IsSmallestKey([UPPER], k) ensures k == UPPER.smallest {
      assert Compare(k, UPPER.smallest) == 0;
    }
    assert [MIDDLE, LAST][..1] == [MIDDLE] && [MIDDLE][..0] == [];
    assert Overlapping([], Some(1.0), Some(1.0)) == [];
    assert Overlapping([MIDDLE], Some(1.0), Some(1.0)) == [MIDDLE];
    assert Overlapping(BEFORE[2], Some(1.0), Some(1.0)) == [MIDDLE];
  }

  lemma MarkerIsSeen()
    ensures Newest(Contents(BEFORE), 2.0, 5, Marker(2.0, 4))
    ensures Marker(2.0, 4) in InputEntries(Inputs(1, [UPPER], [MIDDLE]))
  {
    assert Marker(2.0, 4) in MIDDLE.entries;
    assert HoldsEntry(BEFORE[2], Marker(2.0, 4));
    assert MIDDLE in [UPPER] + [MIDDLE];
  }

  lemma ValueIsLeft()
    ensures Newest(LeftContents(BEFORE[2], [MIDDLE]), 2.0, 5, Put(2.0, 3))
  {
    assert Put(2.0, 3) in LAST.entries && LAST in BEFORE[2] && LAST !in [MIDDLE];
  }

  const MERGED := TableOf(8, [Put(1.0, 5)])
  const AFTER: Version := [[], [], [MERGED, LAST], [], [], [], []]

  /** What DoCompactionWork makes of it: the older value of 1.0 is hidden, the marker of 2.0 needless. */
  lemma OneEntrySurvives(e: Entry)
    ensures HoldsEntry([MERGED], e)
            <==> e in InputEntries(Inputs(1, [UPPER], [MIDDLE])) && !Obsolete(BEFORE, Inputs(1, [UPPER], [MIDDLE]), 5, e)
  {
    var c := Inputs(1, [UPPER], [MIDDLE]);
    assert forall x :: x in InputEntries(c) <==> HoldsEntry([UPPER, MIDDLE], x);
    assert UPPER in [UPPER, MIDDLE] && MIDDLE in [UPPER, MIDDLE] && MERGED in [MERGED];
    assert Put(1.0, 5) in UPPER.entries && Put(1.0, 2) in MIDDLE.entries;
    assert HoldsEntry([UPPER, MIDDLE], Put(1.0, 5)) && HoldsEntry([MERGED], Put(1.0, 5));
    assert BaseLevel(BEFORE, 1, 2.0);
    assert Obsolete(BEFORE, c, 5, Put(1.0, 2)) && Obsolete(BEFORE, c, 5, Marker(2.0, 4));
  }

  lemma ItCompacts()
    ensures Compacts(BEFORE, AFTER, Inputs(1, [UPPER], [MIDDLE]), 5, [MERGED])
  {
    hide Obsolete, KeepsTheRest, LevelShape, LevelOrder, Settled, NextLevelInputs, Apart;
    var c := Inputs(1, [UPPER], [MIDDLE]);
    BeforeHasShape();
    SelectionIsForced([MIDDLE]);
    SelectionIsValid(BEFORE, 1, [UPPER], [MIDDLE]);
    assert Installs(BEFORE, AFTER, c, [MERGED]);
    OutputIsValid();
    ItKeepsTheRest();
  }

  lemma ItKeepsTheRest()
    ensures KeepsTheRest(BEFORE, Inputs(1, [UPPER], [MIDDLE]), 5, [MERGED])
  {
    hide Obsolete, HoldsEntry;
    forall e ensures HoldsEntry([MERGED], e) <==>
      e in InputEntries(Inputs(1, [UPPER], [MIDDLE])) && !Obsolete(BEFORE, Inputs(1, [UPPER], [MIDDLE]), 5, e)
    {
      OneEntrySurvives(e);
    }
  }

  lemma OutputIsValid()
    ensures ValidOutputs(BEFORE, Inputs(1, [UPPER], [MIDDLE]), [MERGED])
  {
    assert WellFormed(MERGED);
    assert UPPER in [UPPER] + [MIDDLE] && Put(1.0, 5) in UPPER.entries;
  }

  /** The compaction can happen; with the one selection there is, every run of it at sequence number 5
    * brings the deleted key back.
    */
  lemma DeletedKeyComesBack()
    ensures Shape(BEFORE) && Settled(BEFORE[1], 1, [UPPER]) && NextLevelInputs(BEFORE[2], [UPPER], [MIDDLE])
    ensures Compacts(BEFORE, AFTER, Inputs(1, [UPPER], [MIDDLE]), 5, [MERGED])
    ensures Read(Contents(BEFORE), 2.0, 5) == NotFound && Read(Contents(AFTER), 2.0, 5).Found?
  {
    hide Compacts, Read, Newest, Settled, NextLevelInputs, Shape;
    BeforeHasShape();
    SelectionIsForced([MIDDLE]);
    MarkerIsSeen();
    ValueIsLeft();
    assert BaseLevel(BEFORE, 1, 2.0);
    ItCompacts();
    ResurrectionChangesRead(BEFORE, AFTER, Inputs(1, [UPPER], [MIDDLE]), 5, [MERGED], 2.0);
  }

  // ---- the way there ------------------------------------------------------------------------------------

  /** A memtable flush to the level that PickLevelForMemTableOutput gives: nothing overlaps down to there, and it goes
    * no deeper because it may not or because the next level overlaps.
    */
  ghost predicate FlushesTo(v: Version, v': Version, l: nat, f: File) {
    && Shape(v) && WellFormed(f) && NewerThanAll(f, v) && ClearAbove(v, l, f) && Adds(v, v', l, f)
    && l <= MAX_MEM_COMPACT_LEVEL
    && (l == MAX_MEM_COMPACT_LEVEL
        || exists g :: g in v[l + 1] && Overlaps(g, Some(f.smallest.user), Some(f.largest.user)))
  }

  /** The first table has a value of 1.0; the second a newer one, and a value of 2.0 that was deleted while a snapshot
    * in between was live.
    */
  const FIRST := TableOf(3, [Put(1.0, 1)])
  const SECOND := TableOf(4, [Put(1.0, 2), Marker(2.0, 4), Put(2.0, 3)])

  const EMPTY: Version := [[], [], [], [], [], [], []]
  const ONE_TABLE: Version := [[], [], [FIRST], [], [], [], []]
  const TWO_TABLES: Version := [[], [SECOND], [FIRST], [], [], [], []]
  const COMPACTED: Version := [[], [], [MIDDLE, LAST], [], [], [], []]

  lemma EarlierShapes()
    ensures Shape(EMPTY) && Shape(ONE_TABLE) && Shape(TWO_TABLES) && Shape(COMPACTED)
    ensures WellFormed(FIRST) && WellFormed(SECOND) && WellFormed(UPPER)
  {
    hide LevelShape, NewerThan, WellFormed;
    TablesAreWellFormed();
    LevelsAreShaped();
    EarlierLevels();
    SecondIsNewer();
  }

  lemma EarlierLevels()
    ensures LevelShape([FIRST], 2) && LevelShape([SECOND], 1)
  {
    hide NewerThan;
    TablesAreWellFormed();
    assert [FIRST][0] == FIRST && [SECOND][0] == SECOND;
  }

  lemma TablesAreWellFormed()
    ensures WellFormed(FIRST) && WellFormed(SECOND) && WellFormed(UPPER) && WellFormed(MIDDLE) && WellFormed(LAST)
  {
  }

  lemma SecondIsNewer()
    ensures NewerThan(SECOND, FIRST)
  {
  }

  /** Three flushes, and between the second and the third a compaction whose output is cut between the marker and the
    * value, lead from the empty database to the version above.
    */
  lemma VersionIsReached()
    ensures FlushesTo(EMPTY, ONE_TABLE, 2, FIRST) && FlushesTo(ONE_TABLE, TWO_TABLES, 1, SECOND)
    ensures Settled(TWO_TABLES[1], 1, [SECOND]) && NextLevelInputs(TWO_TABLES[2], [SECOND], [FIRST])
    ensures Compacts(TWO_TABLES, COMPACTED, Inputs(1, [SECOND], [FIRST]), 3, [MIDDLE, LAST])
    ensures FlushesTo(COMPACTED, BEFORE, 1, UPPER)
  {
    hide Shape, Compacts, Settled, NextLevelInputs, WellFormed;
    EarlierShapes();
    FlushesHappen();
    FirstSelection();
    FirstCompaction();
  }

  lemma FlushesHappen()
    ensures FlushesTo(EMPTY, ONE_TABLE, 2, FIRST) && FlushesTo(ONE_TABLE, TWO_TABLES, 1, SECOND)
    ensures FlushesTo(COMPACTED, BEFORE, 1, UPPER)
  {
    hide Shape, NewerThan, WellFormed, ClearAbove, Overlaps;
    EarlierShapes();
    BeforeHasShape();
    SecondIsNewer();
    UpperIsNewer();
    NothingAbove();
    assert FIRST in ONE_TABLE[2] && MIDDLE in COMPACTED[2];
  }

  lemma NothingAbove()
    ensures ClearAbove(EMPTY, 2, FIRST) && ClearAbove(ONE_TABLE, 1, SECOND) && ClearAbove(COMPACTED, 1, UPPER)
    ensures Overlaps(FIRST, Some(SECOND.smallest.user), Some(SECOND.largest.user))
    ensures Overlaps(MIDDLE, Some(UPPER.smallest.user), Some(UPPER.largest.user))
  {
  }

  lemma FirstSelection()
    ensures Settled(TWO_TABLES[1], 1, [SECOND]) && NextLevelInputs(TWO_TABLES[2], [SECOND], [FIRST])
  {
    assert SECOND in [SECOND];
    assert IsSmallestKey([SECOND], SECOND.smallest) && IsLargestKey([SECOND], SECOND.largest);
    LargestKeyIsUnique([SECOND], SECOND.largest);
    assert [FIRST][..0] == [] && Overlapping([], Some(1.0), Some(2.0)) == [];
    assert Overlapping([FIRST], Some(1.0), Some(2.0)) == [FIRST];
  }

  /** At sequence number 3, only the oldest value of 1.0 is needless. */
  lemma FirstSurvivors(e: Entry)
    ensures HoldsEntry([MIDDLE, LAST], e)
            <==> e in InputEntries(Inputs(1, [SECOND], [FIRST]))
                 && !Obsolete(TWO_TABLES, Inputs(1, [SECOND], [FIRST]), 3, e)
  {
    var c := Inputs(1, [SECOND], [FIRST]);
    assert forall x :: x in InputEntries(c) <==> HoldsEntry([SECOND, FIRST], x);
    assert SECOND in [SECOND, FIRST] && FIRST in [SECOND, FIRST] && MIDDLE in [MIDDLE, LAST] && LAST in [MIDDLE, LAST];
    assert forall x :: x in SECOND.entries <==> x == Put(1.0, 2) || x == Marker(2.0, 4) || x == Put(2.0, 3);
    assert forall x :: x in MIDDLE.entries <==> x == Put(1.0, 2) || x == Marker(2.0, 4);
    assert forall x :: x in FIRST.entries <==> x == Put(1.0, 1);
    assert HoldsEntry([SECOND, FIRST], Put(1.0, 2));
    assert Obsolete(TWO_TABLES, c, 3, Put(1.0, 1));
  }

  lemma FirstCompaction()
    ensures Compacts(TWO_TABLES, COMPACTED, Inputs(1, [SECOND], [FIRST]), 3, [MIDDLE, LAST])
  {
    hide Obsolete, KeepsTheRest, LevelShape, LevelOrder, Settled, NextLevelInputs, Apart;
    var c := Inputs(1, [SECOND], [FIRST]);
    EarlierShapes();
    FirstSelection();
    SelectionIsValid(TWO_TABLES, 1, [SECOND], [FIRST]);
    assert Installs(TWO_TABLES, COMPACTED, c, [MIDDLE, LAST]);
    FirstOutputs();
    FirstKeeps();
  }

  lemma FirstKeeps()
    ensures KeepsTheRest(TWO_TABLES, Inputs(1, [SECOND], [FIRST]), 3, [MIDDLE, LAST])
  {
    hide Obsolete, HoldsEntry;
    forall e ensures HoldsEntry([MIDDLE, LAST], e) <==>
      e in InputEntries(Inputs(1, [SECOND], [FIRST])) && !Obsolete(TWO_TABLES, Inputs(1, [SECOND], [FIRST]), 3, e)
    {
      FirstSurvivors(e);
    }
  }

  lemma FirstOutputs()
    ensures ValidOutputs(TWO_TABLES, Inputs(1, [SECOND], [FIRST]), [MIDDLE, LAST])
  {
    hide Obsolete;
    TablesAreWellFormed();
    forall e | HoldsEntry([MIDDLE, LAST], e) ensures e in InputEntries(Inputs(1, [SECOND], [FIRST])) {
      FirstSurvivors(e);
    }
  }
}
