/** DBImpl::NewIterator (db/db_impl.cc): the iterators of memtable, immutable memtable and version, merged, and
  * the user's iterator on top.
  */
module UserIterators {
  import opened InternalKeys
  import opened History
  import opened Versions
  import opened Compactions
  import opened Merging
  import opened Sequences
  import opened Cursors
  import Tables
  import Engine
  import MergingIterators
  import DBIterators

  // ---- what is merged -----------------------------------------------------------------------------------

  /** Files of level 0 may overlap, so each has its own iterator; those of a deeper level are walked through one
    * after the other.
    */
  function LevelRuns(files: seq<File>, level: nat): seq<seq<Entry>> {
    if level == 0 then Engine.Tables(files)
    else if files == [] then []
    else [Tables.Flat(Engine.Tables(files))]
  }

  /** Version::AddIterators, for the levels below n. */
  function VersionRuns(v: Version, n: nat): seq<seq<Entry>>
    requires n <= NUM_LEVELS
  {
    if n == 0 then [] else VersionRuns(v, n - 1) + LevelRuns(v[n - 1], n - 1)
  }

  function Runs(d: Engine.Store): seq<seq<Entry>> {
    [d.mem] + (if d.imm.Some? then [d.imm.value] else []) + VersionRuns(d.version, NUM_LEVELS)
  }

  ghost predicate Holds(runs: seq<seq<Entry>>, e: Entry) {
    exists i :: 0 <= i < |runs| && e in runs[i]
  }

  /** What the index of a concatenating iterator has for each file: its largest key. */
  function LevelIndex(files: seq<File>): seq<Entry> {
    seq(|files|, i requires 0 <= i < |files| => Entry(files[i].largest, []))
  }

  /** The files of a deeper level are blocks of one long table. */
  lemma LevelIsIndexed(files: seq<File>, level: nat)
    requires LevelShape(files, level) && level > 0
    ensures Tables.Indexed(Engine.Tables(files), LevelIndex(files))
    ensures forall e :: e in Tables.Flat(Engine.Tables(files)) <==> HoldsEntry(files, e)
  {
    hide Concat, Less;
    var blocks, index := Engine.Tables(files), LevelIndex(files);
    FlatIsSorted(files, level);
    FlatHolds(files);
    forall i, j | 0 <= i < j < |files| ensures Less(index[i].key, index[j].key) {
      assert WellFormed(files[i]) && WellFormed(files[j]);
      FilesInOrder(files, level, i, j, files[i].entries[0], files[j].entries[0]);
    }
    forall i, e: Entry | 0 <= i < |blocks| && e in blocks[i] ensures !Less(index[i].key, e.key) {
      EntryInRange(files[i], e);
    }
    forall i, j, e: Entry | 0 <= i < j < |blocks| && e in blocks[j] ensures Less(index[i].key, e.key) {
      assert WellFormed(files[i]);
      FilesInOrder(files, level, i, j, files[i].entries[0], e);
    }
  }

  lemma FilesInOrder(files: seq<File>, level: nat, i: nat, j: nat, e: Entry, x: Entry)
    requires LevelShape(files, level) && level > 0 && i < j < |files| && e in files[i].entries && x in files[j].entries
    ensures Less(e.key, x.key) && Less(files[i].largest, x.key) && Less(files[i].largest, files[j].largest)
  {
    EntryInRange(files[i], e);
    EntryInRange(files[j], x);
  }

  lemma FlatIsSorted(files: seq<File>, level: nat)
    requires LevelShape(files, level) && level > 0
    ensures Sorted(Tables.Flat(Engine.Tables(files)))
  {
    hide Concat, Less;
    var blocks := Engine.Tables(files);
    var es := Tables.Flat(blocks);
    forall p, q | 0 <= p < q < |es| ensures Less(es[p].key, es[q].key) {
      var i, a := ConcatFrom(blocks, |blocks|, p);
      var j, b := ConcatFrom(blocks, |blocks|, q);
      if i > j {
        EarlierPart(blocks, j, b, i);
      }
      if i < j {
        FilesInOrder(files, level, i, j, es[p], es[q]);
      }
    }
  }

  lemma FlatHolds(files: seq<File>)
    ensures forall e :: e in Tables.Flat(Engine.Tables(files)) <==> HoldsEntry(files, e)
  {
    hide Concat;
    var blocks := Engine.Tables(files);
    var es := Tables.Flat(blocks);
    forall e ensures e in es <==> HoldsEntry(files, e) {
      if e in es {
        var p :| 0 <= p < |es| && es[p] == e;
        var i, a := ConcatFrom(blocks, |blocks|, p);
        assert files[i] in files;
      }
      if f :| f in files && e in f.entries {
        var i :| 0 <= i < |files| && files[i] == f;
        var a :| 0 <= a < |f.entries| && f.entries[a] == e;
        ConcatAt(blocks, i, a, |blocks|);
      }
    }
  }

  // ---- it can be merged ---------------------------------------------------------------------------------

  lemma MoreRuns(a: seq<seq<Entry>>, b: seq<seq<Entry>>)
    requires Mergeable(a) && Mergeable(b) && forall e, x :: Holds(a, e) && Holds(b, x) ==> e.key != x.key
    ensures Mergeable(a + b) && forall e :: Holds(a + b, e) <==> Holds(a, e) || Holds(b, e)
  {
    var runs := a + b;
    forall i, j | 0 <= i < j < |runs| ensures NoSharedKey(runs[i], runs[j]) {
      forall e: Entry, x: Entry | e in runs[i] && x in runs[j] ensures e.key != x.key {
        if i < |a| <= j {
          assert e in a[i] && x in b[j - |a|];
          assert Holds(a, e) && Holds(b, x);
        } else if j < |a| {
          assert NoSharedKey(a[i], a[j]);
        } else {
          assert NoSharedKey(b[i - |a|], b[j - |a|]);
        }
      }
    }
    forall e ensures Holds(runs, e) <==> Holds(a, e) || Holds(b, e) {
      if i :| 0 <= i < |a| && e in a[i] {
        assert e in runs[i];
      }
      if i :| 0 <= i < |b| && e in b[i] {
        assert e in runs[|a| + i];
      }
    }
  }

  lemma OneRun(es: seq<Entry>)
    requires Sorted(es)
    ensures Mergeable([es]) && forall e :: Holds([es], e) <==> e in es
  {
    forall e | e in es ensures Holds([es], e) {
      assert e in [es][0];
    }
  }

  lemma LevelMerges(v: Version, l: nat)
    requires Shape(v) && l < NUM_LEVELS
    ensures Mergeable(LevelRuns(v[l], l)) && forall e :: Holds(LevelRuns(v[l], l), e) <==> HoldsEntry(v[l], e)
  {
    hide Sorted, Concat, Less;
    var files := v[l];
    assert LevelShape(files, l);
    if l == 0 {
      Level0Merges(v);
    } else if files != [] {
      LevelIsIndexed(files, l);
      OneRun(Tables.Flat(Engine.Tables(files)));
    }
  }

  lemma NotBeforeItself(f: File)
    ensures !BySmallest(f, f)
  {
  }

  lemma Level0Merges(v: Version)
    requires Shape(v)
    ensures Mergeable(Engine.Tables(v[0])) && forall e :: Holds(Engine.Tables(v[0]), e) <==> HoldsEntry(v[0], e)
  {
    hide Less, Level0Order, LevelOrder;
    var files := v[0];
    assert LevelShape(files, 0);
    var runs := Engine.Tables(files);
    forall i | 0 <= i < |runs| ensures Sorted(runs[i]) {
      assert files[i] in files && WellFormed(files[i]);
    }
    forall i, j | 0 <= i < j < |runs| ensures NoSharedKey(runs[i], runs[j]) {
      assert files[i] in files && files[j] in files && BySmallest(files[i], files[j]);
      NotBeforeItself(files[i]);
      Engine.DifferentFilesShareNoKey(v, 0, 0, files[i], files[j]);
    }
    Engine.TablesHold(files);
  }

  ghost predicate Above(v: Version, n: nat, e: Entry)
    requires n <= NUM_LEVELS
  {
    exists l :: 0 <= l < n && HoldsEntry(v[l], e)
  }

  lemma {:induction false} VersionMerges(v: Version, n: nat)
    requires Shape(v) && n <= NUM_LEVELS
    ensures Mergeable(VersionRuns(v, n)) && forall e :: Holds(VersionRuns(v, n), e) <==> Above(v, n, e)
  {
    hide Shape, Mergeable, LevelRuns, HoldsEntry;
    if n > 0 {
      VersionMerges(v, n - 1);
      LevelMerges(v, n - 1);
      forall e, x | Above(v, n - 1, e) && HoldsEntry(v[n - 1], x) ensures e.key != x.key {
        LevelsShareNoKey(v, n - 1, e, x);
      }
      MoreRuns(VersionRuns(v, n - 1), LevelRuns(v[n - 1], n - 1));
    } else {
      NoRuns();
    }
  }

  lemma NoRuns()
    ensures Mergeable([])
  {
  }

  lemma LevelsShareNoKey(v: Version, m: nat, e: Entry, x: Entry)
    requires Shape(v) && m < NUM_LEVELS && Above(v, m, e) && HoldsEntry(v[m], x)
    ensures e.key != x.key
  {
    hide Shape;
    var l :| 0 <= l < m && HoldsEntry(v[l], e);
    var f :| f in v[l] && e in f.entries;
    var g :| g in v[m] && x in g.entries;
    Engine.DifferentFilesShareNoKey(v, l, m, f, g);
  }

  /** All that is stored, merged into one sorted sequence. */
  lemma StoreMerges(d: Engine.Store)
    requires Engine.Layered(d)
    ensures Mergeable(Runs(d)) && Sorted(MergeTables(Runs(d)))
    ensures EntrySet(MergeTables(Runs(d))) == Engine.Stored(d)
  {
    hide Shape, Mergeable, VersionRuns, Above, Holds, Sorted, MergeTables;
    var imm := if d.imm.Some? then [d.imm.value] else [];
    var version := VersionRuns(d.version, NUM_LEVELS);
    VersionMerges(d.version, NUM_LEVELS);
    AllLevels(d.version);
    OneRun(d.mem);
    if d.imm.Some? {
      OneRun(d.imm.value);
    } else {
      NoRuns();
      HoldsNothing();
    }
    MoreRuns([d.mem], imm);
    MoreRuns([d.mem] + imm, version);
    MergeTablesSorted(Runs(d));
    HeldByOne(Runs(d));
  }

  lemma HoldsNothing()
    ensures forall e :: !Holds([], e)
  {
  }

  lemma AllLevels(v: Version)
    ensures forall e :: Above(v, NUM_LEVELS, e) <==> e in Contents(v)
  {
  }

  lemma HeldByOne(runs: seq<seq<Entry>>)
    requires forall e :: e in MergeTables(runs) <==> exists i :: 0 <= i < |runs| && e in runs[i]
    ensures forall e :: e in EntrySet(MergeTables(runs)) <==> Holds(runs, e)
  {
  }

  // ---- the iterators --------------------------------------------------------------------------------------

  /** NewInternalIterator: it walks through exactly what is stored. */
  method NewInternalIterator(db: Engine.DBImpl) returns (iter: MergingIterators.MergingIterator, latest: SequenceNumber)
    requires db.Valid()
    ensures fresh(iter) && fresh(iter.children) && iter.Inv() && !iter.IsValid()
    ensures Sorted(iter.merged) && EntrySet(iter.merged) == Engine.Stored(db.Layers()) && latest == db.lastSequence
  {
    hide Engine.Layered, Engine.Recorded, Engine.Numbered, Engine.Snapshots, Engine.Stored, Sorted, NoSharedKey, Runs;
    latest := db.lastSequence;
    var runs := Runs(db.Layers());
    StoreMerges(db.Layers());
    var list: seq<Cursor> := [];
    for i := 0 to |runs|
      invariant |list| == i && fresh(list)
      invariant forall j :: 0 <= j < i ==> list[j].entries == runs[j]
      invariant forall j, k :: 0 <= j < i && 0 <= k < i && j != k ==> list[j] != list[k]
    {
      var child := new Cursor(runs[i]);
      list := list + [child];
    }
    EachApart(runs);
    iter := new MergingIterators.MergingIterator(list);
    SameMerge(iter.merged, runs);
  }

  lemma EachApart(runs: seq<seq<Entry>>)
    requires Mergeable(runs)
    ensures forall i, j :: 0 <= i < |runs| && 0 <= j < |runs| && i != j ==> NoSharedKey(runs[i], runs[j])
  {
    forall i, j | 0 <= i < |runs| && 0 <= j < |runs| && i != j ensures NoSharedKey(runs[i], runs[j]) {
      assert NoSharedKey(runs[if i < j then i else j], runs[if i < j then j else i]);
    }
  }

  lemma SameMerge(merged: seq<Entry>, runs: seq<seq<Entry>>)
    requires Mergeable(runs) && Sorted(merged)
    requires forall e :: e in merged <==> exists i :: 0 <= i < |runs| && e in runs[i]
    ensures merged == MergeTables(runs)
  {
    MergeTablesSorted(runs);
    OneSorting(merged, MergeTables(runs));
  }

  /** What a caller can do with an internal iterator. */
  datatype Call = SeekToFirst | SeekToLast | Seek(target: InternalKey) | Next | Prev

  /** Where a call leads to in sorted entries, from place i; the end is where nothing is. */
  function AfterCall(es: seq<Entry>, i: nat, call: Call): nat {
    match call
    case SeekToFirst => 0
    case SeekToLast => if es == [] then 0 else |es| - 1
    case Seek(target) => SeekIndex(es, target)
    case Next => if i < |es| then i + 1 else i
    case Prev => if i < |es| then if i > 0 then i - 1 else |es| else i
  }

  function AfterCalls(es: seq<Entry>, i: nat, calls: seq<Call>, n: nat): nat
    requires n <= |calls|
  {
    if n == 0 then i else AfterCall(es, AfterCalls(es, i, calls, n - 1), calls[n - 1])
  }

  /** Whatever calls are made, a merging iterator is where a cursor over the merge would be. */
  method Lockstep(iter: MergingIterators.MergingIterator, cursor: Cursor, calls: seq<Call>)
    requires iter.Inv() && cursor.entries == iter.merged && cursor !in iter.children
    requires iter.IsValid() == cursor.Valid() && (iter.IsValid() ==> iter.position == cursor.index)
    modifies iter, iter.children, cursor
    ensures iter.Inv() && iter.IsValid() == cursor.Valid()
    ensures iter.IsValid() ==> iter.Current() == cursor.Current()
    ensures cursor.Valid() <==> AfterCalls(cursor.entries, old(cursor.index), calls, |calls|) < |cursor.entries|
    ensures cursor.Valid() ==> cursor.index == AfterCalls(cursor.entries, old(cursor.index), calls, |calls|)
  {
    hide MergingIterators.MergingIterator.Fixed, MergingIterators.MergingIterator.Cut, SeekIndex;
    for i := 0 to |calls|
      invariant iter.Inv() && iter.IsValid() == cursor.Valid() && (iter.IsValid() ==> iter.position == cursor.index)
      invariant cursor.index == AfterCalls(cursor.entries, old(cursor.index), calls, i)
    {
      if calls[i].Next? || calls[i].Prev? {
        BothStep(iter, cursor, calls[i].Next?);
      } else {
        BothSeek(iter, cursor, calls[i]);
      }
    }
  }

  method BothSeek(iter: MergingIterators.MergingIterator, cursor: Cursor, call: Call)
    requires iter.Inv() && cursor.entries == iter.merged && cursor !in iter.children
    requires call.SeekToFirst? || call.SeekToLast? || call.Seek?
    modifies iter, iter.children, cursor
    ensures iter.Inv() && iter.IsValid() == cursor.Valid() && (iter.IsValid() ==> iter.position == cursor.index)
    ensures cursor.index == AfterCall(cursor.entries, old(cursor.index), call)
  {
    hide MergingIterators.MergingIterator.Fixed, MergingIterators.MergingIterator.Cut, SeekIndex;
    match call
    case SeekToFirst =>
      iter.SeekToFirst();
      cursor.SeekToFirst();
    case SeekToLast =>
      iter.SeekToLast();
      cursor.SeekToLast();
    case Seek(target) =>
      iter.Seek(target);
      cursor.Seek(target);
  }

  method BothStep(iter: MergingIterators.MergingIterator, cursor: Cursor, forward: bool)
    requires iter.Inv() && cursor.entries == iter.merged && cursor !in iter.children
    requires iter.IsValid() == cursor.Valid() && (iter.IsValid() ==> iter.position == cursor.index)
    modifies iter, iter.children, cursor
    ensures iter.Inv() && iter.IsValid() == cursor.Valid() && (iter.IsValid() ==> iter.position == cursor.index)
    ensures cursor.index == AfterCall(cursor.entries, old(cursor.index), if forward then Next else Prev)
  {
    hide MergingIterators.MergingIterator.Fixed, MergingIterators.MergingIterator.Cut;
    if iter.IsValid() && forward {
      iter.Next();
      cursor.Next();
    } else if iter.IsValid() {
      iter.Prev();
      cursor.Prev();
    }
  }

  ghost predicate Shows(view: seq<Entry>, u: UserKey, value: Bytes) {
    exists e :: e in view && e.key.user == u && e.value == value
  }

  /** NewIterator: what the user walks through is what point reads find, at the snapshot given or the latest. */
  method NewIterator(db: Engine.DBImpl, snapshot: Option<SequenceNumber>) returns (iter: DBIterators.DBIter)
    requires db.Valid() && (snapshot.Some? ==> snapshot.value in db.snapshots)
    ensures fresh(iter) && fresh(iter.iter) && iter.Inv() && !iter.valid
    ensures iter.sequence == if snapshot.Some? then snapshot.value else db.lastSequence
    ensures forall u, value :: Shows(iter.TheView(), u, value)
                               <==> Read(Engine.Stored(db.Layers()), u, iter.sequence) == Found(value)
    ensures db.ReadsAgree() ==> forall u, value :: Shows(iter.TheView(), u, value)
                                                   <==> Read(db.history, u, iter.sequence) == Found(value)
  {
    hide Engine.Layered, Engine.Recorded, Engine.Numbered, Engine.Stored, Sorted, Read, Runs, DBIterators.View, MergeTables;
    StoreMerges(db.Layers());
    var cursor := new Cursor(MergeTables(Runs(db.Layers())));
    iter := new DBIterators.DBIter(cursor, if snapshot.Some? then snapshot.value else db.lastSequence);
    forall u, value
      ensures Shows(iter.TheView(), u, value) <==> Read(Engine.Stored(db.Layers()), u, iter.sequence) == Found(value)
    {
      DBIterators.ViewIsAllReads(cursor.entries, iter.sequence, u, value);
    }
  }
}
