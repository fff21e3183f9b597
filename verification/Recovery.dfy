/** VersionSet (db/version_set.cc): edits are logged to the manifest and installed one at a time, and the
  * manifest, or what a crash has left of it, leads back to the version that was in force.
  */
module Recovery {
  import opened InternalKeys
  import opened Coding
  import opened Versions
  import opened LogFormat
  import opened LogReader
  import opened LogRoundTrip
  import M = Manifest
  import E = VersionEdits

  const NO_EDIT: E.Edit := E.Edit(None, None, None, None, None, [], [], [])

  const NO_FILES: Version := [[], [], [], [], [], [], []]

  // ---- from records to changes of files -----------------------------------------------------------------

  /** The table behind the metadata in a record. */
  type Load = E.FileRecord -> File

  function NumbersAt(deleted: seq<E.DeletedFile>, l: nat): set<nat> {
    set d | d in deleted && d.level == l :: d.number
  }

  function FilesAt(load: Load, files: seq<(E.Level, E.FileRecord)>, l: nat): seq<File> {
    if files == [] then []
    else
      var n := |files| - 1;
      FilesAt(load, files[..n], l) + if files[n].0 == l then [load(files[n].1)] else []
  }

  /** The file changes of an edit, level by level. */
  function Changes(load: Load, e: E.Edit): M.VersionEdit {
    M.Edit(seq(NUM_LEVELS, l requires l >= 0 => NumbersAt(e.deletedFiles, l)),
           seq(NUM_LEVELS, l requires l >= 0 => FilesAt(load, e.newFiles, l)))
  }

  function AllChanges(load: Load, edits: seq<E.Edit>): (r: seq<M.VersionEdit>)
    ensures |r| == |edits|
  {
    seq(|edits|, i requires 0 <= i < |edits| => Changes(load, edits[i]))
  }

  /** A file of the version stays in its level if the edit does not delete its number there. */
  ghost predicate Stays(e: E.Edit, v: Version, l: nat, f: File)
    requires l < NUM_LEVELS
  {
    f in v[l] && forall d :: d in e.deletedFiles ==> !(d.level == l && d.number == f.number)
  }

  /** The edit adds the file to the level. */
  ghost predicate Comes(load: Load, e: E.Edit, l: nat, f: File) {
    exists i :: 0 <= i < |e.newFiles| && e.newFiles[i].0 == l && load(e.newFiles[i].1) == f
  }

  lemma {:induction false} FilesAtIs(load: Load, files: seq<(E.Level, E.FileRecord)>, l: nat, f: File)
    ensures f in FilesAt(load, files, l)
            <==> exists i :: 0 <= i < |files| && files[i].0 == l && load(files[i].1) == f
    decreases |files|
  {
    if files != [] {
      var n := |files| - 1;
      FilesAtIs(load, files[..n], l, f);
      assert forall i :: 0 <= i < n ==> files[..n][i] == files[i];
    }
  }

  /** What an edit makes of a version, file by file. */
  lemma FilesAfter(load: Load, e: E.Edit, v: Version, v': Version)
    requires M.LeadTo(v, [Changes(load, e)], v')
    ensures forall l, f :: 0 <= l < NUM_LEVELS ==> (f in v'[l] <==> Stays(e, v, l, f) || Comes(load, e, l, f))
  {
    forall l: nat, f | l < NUM_LEVELS ensures f in v'[l] <==> Stays(e, v, l, f) || Comes(load, e, l, f) {
      M.OneEdit(M.FileSet(v[l]), Changes(load, e), l);
      FilesAtIs(load, e.newFiles, l, f);
      assert f in v'[l] <==> f in M.FileSet(v'[l]);
    }
  }

  lemma SameFiles(load: Load, a: E.Edit, b: E.Edit)
    requires a.deletedFiles == b.deletedFiles && a.newFiles == b.newFiles
    ensures forall v, l, f :: 0 <= l < NUM_LEVELS ==> Stays(a, v, l, f) == Stays(b, v, l, f)
    ensures forall l, f :: Comes(load, a, l, f) == Comes(load, b, l, f)
  {
  }

  // ---- the numbers that edits set -------------------------------------------------------------------------

  datatype Numbers = Numbers(log: Option<DoubleWord>, prevLog: Option<DoubleWord>, nextFile: Option<DoubleWord>,
                             lastSequence: Option<DoubleWord>)

  function Later(a: Option<DoubleWord>, b: Option<DoubleWord>): Option<DoubleWord> {
    if b.Some? then b else a
  }

  /** The last value set counts. */
  function Noted(edits: seq<E.Edit>): Numbers {
    if edits == [] then Numbers(None, None, None, None)
    else
      var n := |edits| - 1;
      var before, e := Noted(edits[..n]), edits[n];
      Numbers(Later(before.log, e.logNumber), Later(before.prevLog, e.prevLogNumber),
              Later(before.nextFile, e.nextFileNumber), Later(before.lastSequence, e.lastSequence))
  }

  // ---- reading ----------------------------------------------------------------------------------------------

  datatype Status = OK | BadRecord(error: E.Status) | WrongComparator | NoNextFile | NoLogNumber | NoLastSequence

  datatype Decoded = Decoded(edits: seq<E.Edit>, status: Status)

  /** The edits of the first n records, as far as they can be read and are meant for this comparator. */
  function DecodeRecords(records: seq<Bytes>, n: nat, name: Bytes): (r: Decoded)
    requires n <= |records|
    ensures r.status == OK ==> |r.edits| == n
  {
    if n == 0 then Decoded([], OK)
    else
      var before := DecodeRecords(records, n - 1, name);
      if before.status != OK then before
      else
        var d := E.DecodeOn(NO_EDIT, records[n - 1]);
        if d.status != E.Status.OK then Decoded(before.edits, BadRecord(d.status))
        else if d.edit.comparator.Some? && d.edit.comparator.value != name then Decoded(before.edits, WrongComparator)
        else Decoded(before.edits + [d.edit], OK)
  }

  function FinalStatus(status: Status, noted: Numbers): Status {
    if status != OK then status
    else if noted.nextFile.None? then NoNextFile
    else if noted.log.None? then NoLogNumber
    else if noted.lastSequence.None? then NoLastSequence
    else OK
  }

  // ---- what the manifest says -------------------------------------------------------------------------------

  ghost predicate Loggable(e: E.Edit, name: Bytes) {
    && E.Ordered(e.deletedFiles) && E.AllEncodable(E.RecordsOf(e))
    && (e.comparator.Some? ==> e.comparator.value == name)
  }

  /** Every edit but the first, which is a snapshot, says all the numbers. */
  ghost predicate Complete(e: E.Edit) {
    e.logNumber.Some? && e.prevLogNumber.Some? && e.nextFileNumber.Some? && e.lastSequence.Some?
  }

  /** The records are the edits, and installed[i] is the version that was in force after record i. */
  ghost predicate Tells(load: Load, name: Bytes, manifest: seq<Bytes>, edits: seq<E.Edit>, installed: seq<Version>) {
    && |manifest| == |edits| == |installed|
    && (forall i :: 0 <= i < |edits| ==> Loggable(edits[i], name) && manifest[i] == E.AllBytes(E.RecordsOf(edits[i])))
    && (forall i :: 0 < i < |edits| ==> Complete(edits[i]))
    && M.Replayable(NO_FILES, AllChanges(load, edits))
    && forall i: nat :: i < |edits| ==> M.LeadTo(NO_FILES, AllChanges(load, edits[..i + 1]), installed[i])
  }

  class VersionSet {
    const name: Bytes
    const load: Load
    const save: File -> E.FileRecord
    var current: Version
    var nextFileNumber: DoubleWord
    var lastSequence: DoubleWord
    var logNumber: DoubleWord
    var prevLogNumber: DoubleWord
    var compactPointers: seq<(E.Level, E.EncodedKey)>

    /** The records of the manifest; none before the first edit is logged. */
    var manifest: seq<Bytes>

    ghost var edits: seq<E.Edit>
    ghost var installed: seq<Version>

    ghost predicate Valid()
      reads this
    {
      && M.Listed(current) && Tells(load, name, manifest, edits, installed) && |manifest| != 1
      && (manifest != [] ==> current == installed[|installed| - 1] && InForce(edits[|edits| - 1]))
    }

    /** The log numbers are those of the edit; the other numbers may have grown since. */
    ghost predicate InForce(e: E.Edit)
      reads this
    {
      && e.logNumber == Some(logNumber) && e.prevLogNumber == Some(prevLogNumber)
      && e.nextFileNumber.Some? && e.nextFileNumber.value <= nextFileNumber
      && e.lastSequence.Some? && e.lastSequence.value <= lastSequence
    }

    constructor (name: Bytes, load: Load, save: File -> E.FileRecord)
      ensures Valid() && manifest == [] && current == NO_FILES
      ensures this.name == name && this.load == load && this.save == save
      ensures nextFileNumber == 2 && lastSequence == logNumber == prevLogNumber == 0 && compactPointers == []
    {
      this.name, this.load, this.save := name, load, save;
      current, nextFileNumber, lastSequence, logNumber, prevLogNumber := NO_FILES, 2, 0, 0, 0;
      compactPointers, manifest, edits, installed := [], [], [], [];
    }

    /** The edit that WriteSnapshot writes: everything the current version has. */
    function Snapshot(): E.Edit
      reads `compactPointers, `current
    {
      NO_EDIT.(comparator := Some(name), compactPointers := compactPointers, newFiles := FileRecords(save, current, NUM_LEVELS))
    }

    /** LogAndApply fills in the numbers that an edit does not set. */
    function Completed(edit: E.Edit): (e: E.Edit)
      reads `logNumber, `prevLogNumber, `nextFileNumber, `lastSequence
      ensures Complete(e)
    {
      edit.(logNumber := Some(if edit.logNumber.Some? then edit.logNumber.value else logNumber),
            prevLogNumber := Some(if edit.prevLogNumber.Some? then edit.prevLogNumber.value else prevLogNumber),
            nextFileNumber := Some(nextFileNumber), lastSequence := Some(lastSequence))
    }

    /** What is to be in the manifest before the edit is logged: a snapshot, if there is no manifest yet. */
    ghost function Before(): (r: seq<E.Edit>)
      reads `manifest, `edits, `compactPointers, `current
      ensures r != [] || manifest != []
    {
      if manifest == [] then [Snapshot()] else edits
    }

    /** LogAndApply, when nothing fails: no edit adds a file number to a level that has held it before. */
    method LogAndApply(edit: E.VersionEdit)
      requires Valid() && Loggable(Completed(edit.Value()), name)
      requires M.Replayable(NO_FILES, AllChanges(load, Before() + [Completed(edit.Value())]))
      requires edit.logNumber.Some? ==> logNumber <= edit.logNumber.value < nextFileNumber
      requires manifest == [] ==> Loggable(Snapshot(), name) && AllSaved(load, save, current)
      modifies this, edit
      ensures Valid() && edits == old(Before()) + [old(Completed(edit.Value()))]
      ensures installed == (if old(manifest) == [] then [old(current)] else old(installed)) + [current]
      ensures forall l, f :: 0 <= l < NUM_LEVELS ==>
                (f in current[l] <==> Stays(old(edit.Value()), old(current), l, f) || Comes(load, old(edit.Value()), l, f))
      ensures var e, logged := old(edit.Value()), edits[|edits| - 1];
              && logged.logNumber == (if e.logNumber.Some? then e.logNumber else Some(old(logNumber)))
              && logged.prevLogNumber == (if e.prevLogNumber.Some? then e.prevLogNumber else Some(old(prevLogNumber)))
              && logged.nextFileNumber == Some(nextFileNumber) && logged.lastSequence == Some(lastSequence)
              && logged.comparator == e.comparator && logged.compactPointers == e.compactPointers
              && logged.deletedFiles == e.deletedFiles && logged.newFiles == e.newFiles
              && Some(logNumber) == logged.logNumber && Some(prevLogNumber) == logged.prevLogNumber
      ensures nextFileNumber == old(nextFileNumber) && lastSequence == old(lastSequence)
    {
      hide M.LeadTo, M.Replayable, M.Listed, Loggable, Changes, Snapshot, Tells, E.Ordered, Complete, AllChanges, AllSaved,
        Stays, Comes;
      FillIn(edit);
      ghost var e, before := edit.Value(), Before();
      AllChangesAppend(load, before, e);
      ApartFromNumbers();
      if manifest == [] {
        WriteSnapshot(Changes(load, e));
      }
      assert edits == before;
      LastIsInForce(load, name, manifest, edits, installed);
      EditFits(AllChanges(load, edits), current, Changes(load, e));
      var v := ApplyToCurrent(edit);
      Stepwise(AllChanges(load, edits), current, Changes(load, e), v);
      FilesAfter(load, e, current, v);
      SameFiles(load, old(edit.Value()), e);
      LogEdit(edit, v);
    }

    lemma ApartFromNumbers()
      requires Valid()
      ensures M.Listed(current) && Tells(load, name, manifest, edits, installed) && |manifest| == |edits| == |installed|
      ensures manifest != [] ==> current == installed[|installed| - 1] && InForce(edits[|edits| - 1])
    {
    }

    /** A number for a new file. */
    method NewFileNumber() returns (n: DoubleWord)
      requires Valid() && nextFileNumber + 1 < TWO_TO_64
      modifies this`nextFileNumber
      ensures Valid() && n == old(nextFileNumber) && nextFileNumber == n + 1
    {
      n := nextFileNumber;
      nextFileNumber := nextFileNumber + 1;
    }

    method SetLastSequence(last: DoubleWord)
      requires Valid() && last >= lastSequence
      modifies this`lastSequence
      ensures Valid() && lastSequence == last
    {
      lastSequence := last;
    }

    /** The numbers that the edit does not set. */
    method FillIn(edit: E.VersionEdit)
      modifies edit
      ensures edit.Value() == Completed(old(edit.Value()))
    {
      if edit.logNumber.None? {
        edit.logNumber := Some(logNumber);
      }
      if edit.prevLogNumber.None? {
        edit.prevLogNumber := Some(prevLogNumber);
      }
      edit.nextFileNumber := Some(nextFileNumber);
      edit.lastSequence := Some(lastSequence);
    }

    /** The new version, from a builder that takes just this edit. */
    method ApplyToCurrent(edit: E.VersionEdit) returns (v: Version)
      requires M.Listed(current) && M.Replayable(current, [Changes(load, edit.Value())])
      ensures M.LeadTo(current, [Changes(load, edit.Value())], v) && M.Listed(v)
    {
      hide M.LeadTo, M.Replayable, M.Listed, Changes;
      v := M.ApplyEdit(current, Changes(load, edit.Value()));
      LedToIsListed(current, [Changes(load, edit.Value())], v);
    }

    /** The record goes to the manifest, and the version is installed with its log numbers. */
    method LogEdit(edit: E.VersionEdit, v: Version)
      requires Tells(load, name, manifest, edits, installed) && edits != [] && M.Listed(v)
      requires Loggable(edit.Value(), name) && Complete(edit.Value())
      requires M.Replayable(NO_FILES, AllChanges(load, edits) + [Changes(load, edit.Value())])
      requires M.LeadTo(NO_FILES, AllChanges(load, edits) + [Changes(load, edit.Value())], v)
      requires edit.nextFileNumber == Some(nextFileNumber) && edit.lastSequence == Some(lastSequence)
      modifies this`manifest, this`edits, this`installed, this`current, this`logNumber, this`prevLogNumber
      ensures Valid() && edits == old(edits) + [edit.Value()] && installed == old(installed) + [v] && current == v
      ensures Some(logNumber) == edit.logNumber && Some(prevLogNumber) == edit.prevLogNumber
    {
      hide M.LeadTo, M.Replayable, M.Listed, Loggable, Changes, AllChanges;
      ghost var e := edit.Value();
      var record := edit.EncodeTo([]);
      NothingBefore(E.AllBytes(E.RecordsOf(e)));
      AllChangesAppend(load, edits, e);
      TellsMore(load, name, manifest, edits, installed, e, v);
      hide Tells;
      manifest := manifest + [record];
      edits, installed := edits + [e], installed + [v];
      current := v;
      logNumber, prevLogNumber := edit.logNumber.value, edit.prevLogNumber.value;
    }

    /** WriteSnapshot, to a new manifest. */
    method WriteSnapshot(ghost next: M.VersionEdit)
      requires manifest == [] && M.Listed(current)
      requires M.Replayable(NO_FILES, AllChanges(load, [Snapshot()]) + [next])
      requires Loggable(Snapshot(), name) && AllSaved(load, save, current)
      modifies this`manifest, this`edits, this`installed
      ensures edits == [Snapshot()] && installed == [current] && |manifest| == 1
      ensures Tells(load, name, manifest, edits, installed)
    {
      hide M.LeadTo, M.Replayable, M.Listed, Loggable, Changes, Snapshot, AllChanges, AllSaved, Tells, E.AllBytes,
        E.RecordsOf, E.Ordered, FileRecords;
      var edit := SnapshotEdit();
      var record := edit.EncodeTo([]);
      NothingBefore(E.AllBytes(E.RecordsOf(Snapshot())));
      M.ReplayablePrefix(NO_FILES, AllChanges(load, [Snapshot()]) + [next], 1);
      assert (AllChanges(load, [Snapshot()]) + [next])[..1] == AllChanges(load, [Snapshot()]);
      SnapshotIs();
      SnapshotLeads(load, save, current, Snapshot());
      manifest, edits, installed := [record], [Snapshot()], [current];
      TellsFirst(load, name, record, Snapshot(), current);
    }

    method SnapshotEdit() returns (edit: E.VersionEdit)
      ensures fresh(edit) && edit.Value() == Snapshot()
    {
      hide FileRecords;
      edit := new E.VersionEdit();
      edit.comparator := Some(name);
      edit.compactPointers := compactPointers;
      edit.newFiles := AllFileRecords();
    }

    lemma SnapshotIs()
      ensures Snapshot() == E.Edit(Some(name), None, None, None, None, compactPointers, [],
                                   FileRecords(save, current, NUM_LEVELS))
    {
    }

    method AllFileRecords() returns (files: seq<(E.Level, E.FileRecord)>)
      ensures files == FileRecords(save, current, NUM_LEVELS)
    {
      files := [];
      for l := 0 to NUM_LEVELS
        invariant files == FileRecords(save, current, l)
      {
        ghost var before := files;
        for i := 0 to |current[l]|
          invariant files == before + LevelRecords(save, current[l][..i], l)
        {
          var f := current[l][i];
          assert LevelRecords(save, current[l][..i + 1], l) == LevelRecords(save, current[l][..i], l) + [(l, save(f))];
          files := files + [(l, save(f))];
        }
        assert current[l][..|current[l]|] == current[l];
      }
    }

    /** Recover, in a database that has no version yet: the version and the numbers that the records lead to.  The
      * next edit logged starts a new manifest, with a snapshot of that version.
      */
    method Recover(records: seq<Bytes>) returns (status: Status)
      requires Valid() && manifest == [] && current == NO_FILES
      requires M.Replayable(NO_FILES, AllChanges(load, DecodeRecords(records, |records|, name).edits))
      modifies this`current, this`nextFileNumber, this`lastSequence, this`logNumber, this`prevLogNumber
      ensures Valid() && manifest == [] && (status != OK ==> current == NO_FILES)
      ensures var read := DecodeRecords(records, |records|, name);
              var noted := Noted(read.edits);
              && status == FinalStatus(read.status, noted)
              && (status == OK ==>
                    && M.LeadTo(NO_FILES, AllChanges(load, read.edits), current)
                    && logNumber == noted.log.value && lastSequence == noted.lastSequence.value
                    && prevLogNumber == (if noted.prevLog.Some? then noted.prevLog.value else 0)
                    && (noted.nextFile.value + 1 < TWO_TO_64 ==> nextFileNumber == noted.nextFile.value + 1))
    {
      hide M.LeadTo, M.Replayable, M.Listed, Changes, E.DecodeOn, AllChanges, DecodeRecords, Noted, Tells;
      ApartFromNumbers();
      NoFilesListed();
      var builder := new M.Builder(NO_FILES);
      var noted := Numbers(None, None, None, None);
      ghost var done: seq<E.Edit> := [];
      NothingDecoded(load, records, name);
      status := OK;
      var i := 0;
      while i < |records| && status == OK
        invariant i <= |records| && builder.base == NO_FILES && fresh(builder)
        invariant DecodeRecords(records, i, name) == Decoded(done, status)
        invariant builder.Valid(AllChanges(load, done)) && noted == Noted(done)
        modifies builder
        decreases |records| - i
      {
        status, noted, done := RecoverRecord(records, i, builder, noted, done);
        i := i + 1;
      }
      DecodeStops(records, i, name);
      status := FinalStatus(status, noted);
      if status == OK {
        current := builder.SaveTo(AllChanges(load, done));
        SavedLeads(NO_FILES, AllChanges(load, done), current);
        LedToIsListed(NO_FILES, AllChanges(load, done), current);
        nextFileNumber := (noted.nextFile.value + 1) % TWO_TO_64;
        lastSequence := noted.lastSequence.value;
        logNumber := noted.log.value;
        prevLogNumber := if noted.prevLog.Some? then noted.prevLog.value else 0;
      }
    }

    /** One record of the manifest. */
    method RecoverRecord(records: seq<Bytes>, i: nat, builder: M.Builder, noted: Numbers, ghost done: seq<E.Edit>)
      returns (status: Status, noted': Numbers, ghost done': seq<E.Edit>)
      requires i < |records| && DecodeRecords(records, i, name) == Decoded(done, OK)
      requires M.Replayable(NO_FILES, AllChanges(load, DecodeRecords(records, |records|, name).edits))
      requires builder.base == NO_FILES && builder.Valid(AllChanges(load, done)) && noted == Noted(done)
      modifies builder
      ensures DecodeRecords(records, i + 1, name) == Decoded(done', status)
      ensures builder.Valid(AllChanges(load, done')) && noted' == Noted(done')
    {
      hide M.LeadTo, M.Replayable, Changes, E.DecodeOn, AllChanges, DecodeRecords, Noted, M.Builder.Valid;
      noted', done' := noted, done;
      var edit := new E.VersionEdit();
      var error := edit.DecodeFrom(records[i]);
      DecodeOneMore(records, i, name);
      if error != E.Status.OK {
        status := BadRecord(error);
      } else if edit.comparator.Some? && edit.comparator.value != name {
        status := WrongComparator;
      } else {
        status := OK;
        ghost var e := edit.Value();
        done' := done + [e];
        MayApply(load, records, i, name, done, e);
        AllChangesAppend(load, done, e);
        builder.Apply(Changes(load, edit.Value()), AllChanges(load, done));
        NotedMore(done, e);
        noted' := Numbers(Later(noted.log, edit.logNumber), Later(noted.prevLog, edit.prevLogNumber),
                          Later(noted.nextFile, edit.nextFileNumber), Later(noted.lastSequence, edit.lastSequence));
      }
    }
  }

  /** A file record for each file of the levels below n. */
  function FileRecords(save: File -> E.FileRecord, v: Version, n: nat): seq<(E.Level, E.FileRecord)>
    requires n <= NUM_LEVELS
  {
    if n == 0 then [] else FileRecords(save, v, n - 1) + LevelRecords(save, v[n - 1], n - 1)
  }

  function LevelRecords(save: File -> E.FileRecord, files: seq<File>, l: E.Level): seq<(E.Level, E.FileRecord)> {
    seq(|files|, i requires 0 <= i < |files| => (l, save(files[i])))
  }

  ghost predicate AllSaved(load: Load, save: File -> E.FileRecord, v: Version) {
    forall l, f :: 0 <= l < NUM_LEVELS && f in v[l] ==> load(save(f)) == f
  }

  // ---- reading more records ---------------------------------------------------------------------------------

  lemma DecodeOneMore(records: seq<Bytes>, n: nat, name: Bytes)
    requires n < |records|
    ensures var before, d := DecodeRecords(records, n, name), E.DecodeOn(NO_EDIT, records[n]);
            before.status == OK ==>
              DecodeRecords(records, n + 1, name)
              == if d.status != E.Status.OK then Decoded(before.edits, BadRecord(d.status))
                 else if d.edit.comparator.Some? && d.edit.comparator.value != name then Decoded(before.edits, WrongComparator)
                 else Decoded(before.edits + [d.edit], OK)
  {
  }

  lemma {:induction false} DecodedPrefix(records: seq<Bytes>, n: nat, name: Bytes)
    requires n <= |records|
    ensures DecodeRecords(records, n, name).edits <= DecodeRecords(records, |records|, name).edits
    decreases |records| - n
  {
    hide E.DecodeOn;
    if n < |records| {
      DecodedPrefix(records, n + 1, name);
    }
  }

  lemma {:induction false} DecodeStops(records: seq<Bytes>, n: nat, name: Bytes)
    requires n <= |records| && (n == |records| || DecodeRecords(records, n, name).status != OK)
    ensures DecodeRecords(records, |records|, name) == DecodeRecords(records, n, name)
    decreases |records| - n
  {
    hide E.DecodeOn;
    if n < |records| {
      DecodeStops(records, n + 1, name);
    }
  }

  lemma AllChangesAppend(load: Load, edits: seq<E.Edit>, e: E.Edit)
    ensures AllChanges(load, edits + [e]) == AllChanges(load, edits) + [Changes(load, e)]
  {
    hide Changes;
  }

  lemma AllChangesPrefix(load: Load, a: seq<E.Edit>, b: seq<E.Edit>)
    requires a <= b
    ensures AllChanges(load, a) <= AllChanges(load, b)
  {
    hide Changes;
  }

  // ---- edits on top of one another ----------------------------------------------------------------------------

  /** Decoded one record further, the edits can still be replayed. */
  lemma MayApply(load: Load, records: seq<Bytes>, i: nat, name: Bytes, done: seq<E.Edit>, e: E.Edit)
    requires i < |records| && DecodeRecords(records, i + 1, name) == Decoded(done + [e], OK)
    requires M.Replayable(NO_FILES, AllChanges(load, DecodeRecords(records, |records|, name).edits))
    ensures forall l :: 0 <= l < NUM_LEVELS ==>
              M.NeverReused(M.FileSet(NO_FILES[l]), AllChanges(load, done) + [Changes(load, e)], l)
  {
    hide DecodeRecords, Changes, AllChanges, M.NeverReused;
    DecodedPrefix(records, i + 1, name);
    var all := DecodeRecords(records, |records|, name).edits;
    AllChangesPrefix(load, done + [e], all);
    AllChangesAppend(load, done, e);
    M.ReplayablePrefix(NO_FILES, AllChanges(load, all), |done| + 1);
    assert AllChanges(load, all)[..|done| + 1] == AllChanges(load, done + [e]);
  }

  lemma NothingDecoded(load: Load, records: seq<Bytes>, name: Bytes)
    ensures DecodeRecords(records, 0, name) == Decoded([], OK) && AllChanges(load, []) == []
    ensures Noted([]) == Numbers(None, None, None, None)
  {
  }

  lemma NotedMore(done: seq<E.Edit>, e: E.Edit)
    ensures var n := Noted(done);
            Noted(done + [e]) == Numbers(Later(n.log, e.logNumber), Later(n.prevLog, e.prevLogNumber),
                                         Later(n.nextFile, e.nextFileNumber), Later(n.lastSequence, e.lastSequence))
  {
    assert (done + [e])[..|done|] == done;
  }

  lemma NothingBefore(b: Bytes)
    ensures [] + b == b
  {
  }

  lemma SavedLeads(base: Version, edits: seq<M.VersionEdit>, v: Version)
    requires forall l :: 0 <= l < NUM_LEVELS ==>
               SortedBySmallest(v[l]) && M.FileSet(v[l]) == M.Installed(M.FileSet(base[l]), edits, l)
    ensures M.LeadTo(base, edits, v)
  {
  }

  lemma EditFits(edits: seq<M.VersionEdit>, v: Version, next: M.VersionEdit)
    requires M.LeadTo(NO_FILES, edits, v) && M.Replayable(NO_FILES, edits + [next])
    ensures M.Replayable(v, [next])
  {
    assert (edits + [next])[..|edits|] == edits;
    forall l | 0 <= l < NUM_LEVELS ensures M.NeverReused(M.FileSet(v[l]), [next], l) {
      var base := M.FileSet(NO_FILES[l]);
      M.HeldIsDistinct(base, edits, l);
      M.OneEdit(M.FileSet(v[l]), next, l);
      assert M.Numbers(M.FileSet(v[l])) <= M.Numbers(M.Held(base, edits, l));
    }
  }

  lemma Stepwise(edits: seq<M.VersionEdit>, v: Version, next: M.VersionEdit, v': Version)
    requires M.LeadTo(NO_FILES, edits, v) && M.LeadTo(v, [next], v')
    ensures M.LeadTo(NO_FILES, edits + [next], v')
  {
    assert (edits + [next])[..|edits|] == edits;
    forall l | 0 <= l < NUM_LEVELS
      ensures M.FileSet(v'[l]) == M.Installed(M.FileSet(NO_FILES[l]), edits + [next], l)
    {
      M.OneEdit(M.FileSet(v[l]), next, l);
    }
  }

  lemma NoFilesListed()
    ensures M.Listed(NO_FILES)
  {
  }

  lemma LedToIsListed(v: Version, edits: seq<M.VersionEdit>, v': Version)
    requires M.Listed(v) && M.Replayable(v, edits) && M.LeadTo(v, edits, v')
    ensures M.Listed(v')
  {
    forall l | 0 <= l < NUM_LEVELS ensures UniqueNumbers(v'[l]) {
      M.HeldIsDistinct(M.FileSet(v[l]), edits, l);
      assert M.Distinct(M.FileSet(v'[l]));
      forall f, g | f in v'[l] && g in v'[l] && f.number == g.number ensures f == g {
        assert f in M.FileSet(v'[l]) && g in M.FileSet(v'[l]);
      }
    }
  }

  /** There is only one version that edits lead to. */
  lemma LeadsToOne(base: Version, edits: seq<M.VersionEdit>, v: Version, w: Version)
    requires M.LeadTo(base, edits, v) && M.LeadTo(base, edits, w)
    ensures v == w
  {
    forall l | 0 <= l < NUM_LEVELS ensures v[l] == w[l] {
      M.OneListing(v[l], w[l]);
    }
  }

  // ---- snapshots --------------------------------------------------------------------------------------------

  lemma {:induction false} FilesAtAppend(load: Load, a: seq<(E.Level, E.FileRecord)>, b: seq<(E.Level, E.FileRecord)>,
                                         l: nat)
    ensures FilesAt(load, a + b, l) == FilesAt(load, a, l) + FilesAt(load, b, l)
    decreases |b|
  {
    if b == [] {
      assert a + b == a;
    } else {
      var n := |b| - 1;
      FilesAtAppend(load, a, b[..n], l);
      assert (a + b)[..|a + b| - 1] == a + b[..n];
    }
  }

  lemma {:induction false} LevelBack(load: Load, save: File -> E.FileRecord, files: seq<File>, at: E.Level, l: nat)
    requires forall f :: f in files ==> load(save(f)) == f
    ensures FilesAt(load, LevelRecords(save, files, at), l) == if at == l then files else []
    decreases |files|
  {
    if files != [] {
      var n := |files| - 1;
      LevelBack(load, save, files[..n], at, l);
      LastRecord(save, files, at);
      assert files[..n] + [files[n]] == files;
    }
  }

  lemma LastRecord(save: File -> E.FileRecord, files: seq<File>, at: E.Level)
    requires files != []
    ensures var records, n := LevelRecords(save, files, at), |files| - 1;
            |records| == n + 1 && records[..n] == LevelRecords(save, files[..n], at)
            && records[n] == (at, save(files[n]))
  {
  }

  lemma NoFilesAt(load: Load, l: nat)
    ensures FilesAt(load, [], l) == []
  {
  }

  lemma {:induction false} RecordsBack(load: Load, save: File -> E.FileRecord, v: Version, n: nat, l: nat)
    requires n <= NUM_LEVELS && AllSaved(load, save, v) && l < NUM_LEVELS
    ensures FilesAt(load, FileRecords(save, v, n), l) == if l < n then v[l] else []
  {
    hide LevelRecords, FilesAt;
    if n == 0 {
      NoFilesAt(load, l);
    } else {
      RecordsBack(load, save, v, n - 1, l);
      FilesAtAppend(load, FileRecords(save, v, n - 1), LevelRecords(save, v[n - 1], n - 1), l);
      LevelBack(load, save, v[n - 1], n - 1, l);
    }
  }

  /** A snapshot leads from nothing to the version that it was taken of. */
  lemma SnapshotLeads(load: Load, save: File -> E.FileRecord, v: Version, e: E.Edit)
    requires M.Listed(v) && AllSaved(load, save, v) && e.newFiles == FileRecords(save, v, NUM_LEVELS)
    requires e.deletedFiles == []
    ensures M.LeadTo(NO_FILES, AllChanges(load, [e]), v)
  {
    hide FileRecords, Changes, SortedBySmallest, M.FileSet, M.Installed;
    AllChangesAppend(load, [], e);
    assert [] + [e] == [e] && AllChanges(load, []) + [Changes(load, e)] == [Changes(load, e)];
    forall l: nat | l < NUM_LEVELS ensures M.FileSet(v[l]) == M.Installed(M.FileSet(NO_FILES[l]), [Changes(load, e)], l) {
      SnapshotOfLevel(load, save, v, e, l);
    }
  }

  lemma SnapshotOfLevel(load: Load, save: File -> E.FileRecord, v: Version, e: E.Edit, l: nat)
    requires AllSaved(load, save, v) && e.newFiles == FileRecords(save, v, NUM_LEVELS) && e.deletedFiles == []
    requires l < NUM_LEVELS
    ensures M.FileSet(v[l]) == M.Installed(M.FileSet(NO_FILES[l]), [Changes(load, e)], l)
  {
    hide FileRecords, FilesAt;
    RecordsBack(load, save, v, NUM_LEVELS, l);
    M.OneEdit(M.FileSet(NO_FILES[l]), Changes(load, e), l);
  }

  // ---- what the manifest tells --------------------------------------------------------------------------------

  lemma TellsFirst(load: Load, name: Bytes, record: Bytes, e: E.Edit, v: Version)
    requires Loggable(e, name) && record == E.AllBytes(E.RecordsOf(e))
    requires M.Replayable(NO_FILES, AllChanges(load, [e])) && M.LeadTo(NO_FILES, AllChanges(load, [e]), v)
    ensures Tells(load, name, [record], [e], [v])
  {
    hide M.LeadTo, M.Replayable, AllChanges, Loggable;
    assert [e][..1] == [e];
  }

  lemma LastIsInForce(load: Load, name: Bytes, manifest: seq<Bytes>, edits: seq<E.Edit>, installed: seq<Version>)
    requires Tells(load, name, manifest, edits, installed) && edits != []
    ensures |installed| == |edits| && M.LeadTo(NO_FILES, AllChanges(load, edits), installed[|installed| - 1])
  {
    hide M.LeadTo, M.Replayable, AllChanges, Loggable;
    assert edits[..|edits| - 1 + 1] == edits;
  }

  lemma TellsMore(load: Load, name: Bytes, manifest: seq<Bytes>, edits: seq<E.Edit>, installed: seq<Version>,
                  e: E.Edit, v: Version)
    requires Tells(load, name, manifest, edits, installed) && edits != [] && Loggable(e, name) && Complete(e)
    requires M.Replayable(NO_FILES, AllChanges(load, edits + [e])) && M.LeadTo(NO_FILES, AllChanges(load, edits + [e]), v)
    ensures Tells(load, name, manifest + [E.AllBytes(E.RecordsOf(e))], edits + [e], installed + [v])
  {
    hide M.LeadTo, M.Replayable, AllChanges, Loggable;
    var edits', installed' := edits + [e], installed + [v];
    forall i: nat | i < |edits'| ensures M.LeadTo(NO_FILES, AllChanges(load, edits'[..i + 1]), installed'[i]) {
      if i < |edits| {
        assert edits'[..i + 1] == edits[..i + 1];
      } else {
        assert edits'[..i + 1] == edits';
      }
    }
  }

  /** Reading the first k records gives the first k edits. */
  lemma {:induction false} PrefixReadsBack(load: Load, name: Bytes, manifest: seq<Bytes>, edits: seq<E.Edit>,
                                           installed: seq<Version>, k: nat, n: nat)
    requires Tells(load, name, manifest, edits, installed) && n <= k <= |manifest|
    ensures DecodeRecords(manifest[..k], n, name) == Decoded(edits[..n], OK)
    decreases n
  {
    hide E.DecodeOn, E.AllBytes, E.RecordsOf, M.LeadTo, M.Replayable;
    if n > 0 {
      PrefixReadsBack(load, name, manifest, edits, installed, k, n - 1);
      E.FreshRoundTrip(edits[n - 1]);
      assert edits[..n - 1] + [edits[n - 1]] == edits[..n];
    }
  }

  /** The numbers of the first k edits are those of the last of them. */
  lemma NumbersOfLast(load: Load, name: Bytes, manifest: seq<Bytes>, edits: seq<E.Edit>, installed: seq<Version>, k: nat)
    requires Tells(load, name, manifest, edits, installed) && k <= |edits|
    ensures var noted := Noted(edits[..k]);
            && (k == 0 ==> FinalStatus(OK, noted) == NoNextFile)
            && (k > 0 ==>
                  var e := edits[k - 1];
                  noted == Numbers(e.logNumber, e.prevLogNumber, e.nextFileNumber, e.lastSequence))
            && (k > 1 ==> FinalStatus(OK, noted) == OK)
  {
    hide M.LeadTo, M.Replayable, Loggable, AllChanges;
    if k > 0 {
      assert edits[..k][..k - 1] == edits[..k - 1] && edits[..k][k - 1] == edits[k - 1];
    }
  }

  /** However much of the manifest has survived, recovering from it leads to the very version that was in force
    * after its last complete record, with the numbers of that record.  It fails without any record; and with one alone
    * if that is a snapshot, which has no numbers.
    */
  lemma TornManifestRecovers(crc: Crc, load: Load, name: Bytes, manifest: seq<Bytes>, edits: seq<E.Edit>,
                             installed: seq<Version>, n: nat, v: Version)
    requires Tells(load, name, manifest, edits, installed) && n <= |LogOf(crc, manifest)|
    ensures var k := CompleteRecords(crc, 0, manifest, n);
            var records := ReadAllFrom(crc, LogOf(crc, manifest)[..n], ReadState(0, 0, false, 0)).records;
            var read := DecodeRecords(records, |records|, name);
            && read == Decoded(edits[..k], OK) && M.Replayable(NO_FILES, AllChanges(load, read.edits))
            && (k > 0 && M.LeadTo(NO_FILES, AllChanges(load, read.edits), v) ==> v == installed[k - 1])
            && (k == 0 ==> FinalStatus(read.status, Noted(read.edits)) == NoNextFile)
            && (k > 0 ==>
                  var e := edits[k - 1];
                  Noted(read.edits) == Numbers(e.logNumber, e.prevLogNumber, e.nextFileNumber, e.lastSequence))
            && (k > 1 ==> FinalStatus(read.status, Noted(read.edits)) == OK)
            && (k == |manifest| > 0 ==> installed[k - 1] == installed[|installed| - 1])
  {
    hide M.LeadTo, M.Replayable, E.DecodeOn, LogOf, CompleteRecords, ReadAllFrom, DecodeRecords, Noted, FinalStatus, Changes,
      Loggable, Complete;
    var k := CompleteRecords(crc, 0, manifest, n);
    TornLogReadsBack(crc, manifest, n);
    PrefixReadsBack(load, name, manifest, edits, installed, k, k);
    NumbersOfLast(load, name, manifest, edits, installed, k);
    assert AllChanges(load, edits)[..k] == AllChanges(load, edits[..k]);
    M.ReplayablePrefix(NO_FILES, AllChanges(load, edits), k);
    if k > 0 {
      assert M.LeadTo(NO_FILES, AllChanges(load, edits[..k - 1 + 1]), installed[k - 1]);
      if M.LeadTo(NO_FILES, AllChanges(load, edits[..k]), v) {
        LeadsToOne(NO_FILES, AllChanges(load, edits[..k]), v, installed[k - 1]);
      }
    }
  }

  /** Opening the database again, with the manifest cut at n.  If two records or more are complete, the version and the
    * log numbers are those in force after the last of them, and no file number in use by then is given out again.
    */
  method Reopen(s: VersionSet, ghost crc: Crc, ghost n: nat, records: seq<Bytes>) returns (r: VersionSet, status: Status)
    requires s.Valid() && n <= |LogOf(crc, s.manifest)|
    requires records == ReadAllFrom(crc, LogOf(crc, s.manifest)[..n], ReadState(0, 0, false, 0)).records
    ensures fresh(r) && r.Valid() && r.manifest == []
    ensures var k := CompleteRecords(crc, 0, s.manifest, n);
            && k <= |s.edits| && (k == 0 ==> status == NoNextFile)
            && (n == |LogOf(crc, s.manifest)| ==> k == |s.edits|)
            && (k > 1 ==>
                  var e := s.edits[k - 1];
                  && Complete(e) && status == OK && r.current == s.installed[k - 1]
                  && r.logNumber == e.logNumber.value && r.prevLogNumber == e.prevLogNumber.value
                  && r.lastSequence == e.lastSequence.value
                  && (e.nextFileNumber.value + 1 < TWO_TO_64 ==> r.nextFileNumber == e.nextFileNumber.value + 1)
                  && (k == |s.edits| ==>
                        && r.current == s.current && r.logNumber == s.logNumber && r.prevLogNumber == s.prevLogNumber
                        && (e.lastSequence.value == s.lastSequence ==> r.lastSequence == s.lastSequence)))
  {
    hide M.LeadTo, M.Replayable, M.Listed, Changes, E.DecodeOn, AllChanges, DecodeRecords, Noted, Tells, LogOf, CompleteRecords,
      ReadAllFrom;
    r := new VersionSet(s.name, s.load, s.save);
    ManifestTells(s, crc, n, s.current);
    status := r.Recover(records);
    ManifestTells(s, crc, n, r.current);
  }

  lemma ManifestTells(s: VersionSet, crc: Crc, n: nat, v: Version)
    requires s.Valid() && n <= |LogOf(crc, s.manifest)|
    ensures var k := CompleteRecords(crc, 0, s.manifest, n);
            var records := ReadAllFrom(crc, LogOf(crc, s.manifest)[..n], ReadState(0, 0, false, 0)).records;
            var read := DecodeRecords(records, |records|, s.name);
            && k <= |s.edits| == |s.installed| && (n == |LogOf(crc, s.manifest)| ==> k == |s.edits|)
            && read == Decoded(s.edits[..k], OK) && M.Replayable(NO_FILES, AllChanges(s.load, read.edits))
            && (k > 0 && M.LeadTo(NO_FILES, AllChanges(s.load, read.edits), v) ==> v == s.installed[k - 1])
            && (k == 0 ==> FinalStatus(read.status, Noted(read.edits)) == NoNextFile)
            && (k > 0 ==>
                  var e := s.edits[k - 1];
                  Noted(read.edits) == Numbers(e.logNumber, e.prevLogNumber, e.nextFileNumber, e.lastSequence))
            && (k > 1 ==> Complete(s.edits[k - 1]) && FinalStatus(read.status, Noted(read.edits)) == OK)
  {
    hide M.LeadTo, M.Replayable, E.DecodeOn, LogOf, CompleteRecords, ReadAllFrom, DecodeRecords, Noted, Changes, FinalStatus;
    TornManifestRecovers(crc, s.load, s.name, s.manifest, s.edits, s.installed, n, v);
    if n == |LogOf(crc, s.manifest)| {
      AllComplete(crc, s.manifest, n);
    }
  }
}
