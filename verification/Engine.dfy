/** The database (db/db_impl.cc): memtable, immutable memtable and versions against the plain
  * history of all writes.  Flush, compaction and trivial move are atomic steps here.
  */
module Engine {
  import opened InternalKeys
  import opened History
  import opened Versions
  import opened InputSelection
  import opened Compactions
  import opened CompactionWork
  import opened Manifest
  import opened Flushes
  import opened Merging

  datatype WriteOp = WriteOp(kind: ValueType, user: UserKey, value: Bytes)

  /** What a read may look through. */
  datatype Store = Store(mem: seq<Entry>, imm: Option<seq<Entry>>, version: Version)

  function ImmEntries(imm: Option<seq<Entry>>): seq<Entry> {
    if imm.Some? then imm.value else []
  }

  ghost function Stored(d: Store): iset<Entry> {
    EntrySet(d.mem) + (EntrySet(ImmEntries(d.imm)) + Contents(d.version))
  }

  ghost predicate SeqBelow(S: iset<Entry>, T: iset<Entry>) {
    forall x, e :: x in S && e in T ==> x.key.seqno < e.key.seqno
  }

  ghost predicate OneWritePerSequence(H: iset<Entry>) {
    forall e, x :: e in H && x in H && e.key.seqno == x.key.seqno ==> e == x
  }

  /** Each layer holds later writes than the one below it. */
  ghost predicate Layered(d: Store) {
    && Sorted(d.mem) && Sorted(ImmEntries(d.imm)) && Shape(d.version)
    && SeqBelow(EntrySet(ImmEntries(d.imm)) + Contents(d.version), EntrySet(d.mem))
    && SeqBelow(Contents(d.version), EntrySet(ImmEntries(d.imm)))
  }

  ghost predicate Recorded(d: Store, H: iset<Entry>, last: SequenceNumber) {
    && Stored(d) <= H
    && OneWritePerSequence(H)
    && forall e :: e in H ==> e.key.seqno <= last
  }

  /** File numbers: all in use are below the next one, and no two levels share one. */
  ghost predicate Numbered(v: Version, next: nat) {
    && (forall l, f :: 0 <= l < NUM_LEVELS && f in v[l] ==> f.number < next)
    && (forall l, m, f, g :: 0 <= l < m < NUM_LEVELS && f in v[l] && g in v[m] ==> f.number != g.number)
  }

  /** Snapshots in the order they were taken; nothing older than the horizon can be read. */
  ghost predicate Snapshots(snaps: seq<SequenceNumber>, horizon: SequenceNumber, last: SequenceNumber) {
    && horizon <= last < MAX_SEQUENCE
    && (forall i :: 0 <= i < |snaps| ==> horizon <= snaps[i] <= last)
    && (forall i, j :: 0 <= i < j < |snaps| ==> snaps[i] <= snaps[j])
  }

  /** From the horizon on, the store answers like the history. */
  ghost predicate Agree(S: iset<Entry>, H: iset<Entry>, horizon: SequenceNumber) {
    forall u, s :: horizon <= s ==> Read(S, u, s) == Read(H, u, s)
  }

  lemma RecordedKeysUnique(d: Store, H: iset<Entry>, last: SequenceNumber)
    requires Recorded(d, H, last)
    ensures KeysUnique(Stored(d)) && KeysUnique(H)
  {
  }

  // ---- reading ------------------------------------------------------------------------------------

  /** mem, then imm, then the version: the first answer is the newest entry of the whole store. */
  lemma MemAnswers(d: Store, H: iset<Entry>, last: SequenceNumber, u: UserKey, s: SequenceNumber)
    requires Layered(d) && Recorded(d, H, last)
    ensures var r := TableGet(d.mem, u, s); r.Some? ==> Read(Stored(d), u, s) == Outcome(r.value)
    ensures var r := TableGet(d.mem, u, s);
            r.None? ==> Read(Stored(d), u, s) == Read(EntrySet(ImmEntries(d.imm)) + Contents(d.version), u, s)
  {
    hide Read, Shape;
    RecordedKeysUnique(d, H, last);
    TableGetIsNewest(d.mem, u, s);
    var r := TableGet(d.mem, u, s);
    var rest := EntrySet(ImmEntries(d.imm)) + Contents(d.version);
    if r.Some? {
      TopLayerAnswers(EntrySet(d.mem), rest, u, s, r.value);
    } else {
      ReadDependsOnVisible(rest, Stored(d), u, s);
    }
  }

  lemma ImmAnswers(d: Store, H: iset<Entry>, last: SequenceNumber, u: UserKey, s: SequenceNumber)
    requires Layered(d) && Recorded(d, H, last)
    ensures var rest := EntrySet(ImmEntries(d.imm)) + Contents(d.version);
            var r := TableGet(ImmEntries(d.imm), u, s);
            Read(rest, u, s) == if r.Some? then Outcome(r.value) else Read(Contents(d.version), u, s)
  {
    hide Read, Shape;
    RecordedKeysUnique(d, H, last);
    var es := ImmEntries(d.imm);
    TableGetIsNewest(es, u, s);
    var r := TableGet(es, u, s);
    assert EntrySet(es) + Contents(d.version) <= Stored(d);
    if r.Some? {
      TopLayerAnswers(EntrySet(es), Contents(d.version), u, s, r.value);
    } else {
      ReadDependsOnVisible(Contents(d.version), EntrySet(es) + Contents(d.version), u, s);
    }
  }

  // ---- writing ------------------------------------------------------------------------------------

  /** The skip list insert behind MemTable::Add, on the sorted sequence it stands for. */
  function InsertEntry(es: seq<Entry>, e: Entry): seq<Entry> {
    var i := SeekIndex(es, e.key);
    es[..i] + [e] + es[i..]
  }

  lemma InsertKeepsSorted(es: seq<Entry>, e: Entry)
    requires Sorted(es) && forall x :: x in es ==> x.key != e.key
    ensures Sorted(InsertEntry(es, e)) && EntrySet(InsertEntry(es, e)) == EntrySet(es) + iset{e}
  {
    hide SeekIndex, Sorted, Less;
    var i := SeekIndex(es, e.key);
    SeekPoint(es, e.key, i);
    SplicedIsSorted(es[..i], e, es[i..]);
    assert es == es[..i] + es[i..];
  }

  lemma SeekPoint(es: seq<Entry>, k: InternalKey, i: nat)
    requires Sorted(es) && i == SeekIndex(es, k) && forall x :: x in es ==> x.key != k
    ensures Sorted(es[..i]) && Sorted(es[i..])
    ensures forall x :: x in es[..i] ==> Less(x.key, k)
    ensures forall x :: x in es[i..] ==> Less(k, x.key)
  {
    forall j | i <= j < |es| ensures Less(k, es[j].key) {
      assert es[j] in es && Compare(es[j].key, k) != 0;
      assert j > i ==> Less(es[i].key, es[j].key);
    }
  }

  lemma SplicedIsSorted(a: seq<Entry>, e: Entry, b: seq<Entry>)
    requires Sorted(a) && Sorted(b)
    requires forall x :: x in a ==> Less(x.key, e.key)
    requires forall x :: x in b ==> Less(e.key, x.key)
    ensures Sorted(a + [e] + b)
  {
    var r := a + [e] + b;
    forall i, j | 0 <= i < j < |r| ensures Less(r[i].key, r[j].key) {
      assert i < |a| ==> r[i] in a;
      assert j > |a| ==> r[j] in b;
    }
  }

  lemma WriteKeepsAll(d: Store, H: iset<Entry>, last: SequenceNumber, horizon: SequenceNumber, e: Entry)
    requires Layered(d) && Recorded(d, H, last) && last < e.key.seqno
    ensures var d' := d.(mem := InsertEntry(d.mem, e));
            && Layered(d') && Recorded(d', H + iset{e}, e.key.seqno)
            && Stored(d') == Stored(d) + iset{e}
            && (Agree(Stored(d), H, horizon) ==> Agree(Stored(d'), H + iset{e}, horizon))
  {
    hide Read, Shape;
    var d' := d.(mem := InsertEntry(d.mem, e));
    forall x | x in d.mem ensures x.key != e.key {
      assert x in Stored(d);
    }
    InsertKeepsSorted(d.mem, e);
    hide InsertEntry, Sorted, Contents;
    assert Stored(d') == Stored(d) + iset{e};
    RecordedKeysUnique(d', H + iset{e}, e.key.seqno);
    OnTopOfBoth(Stored(d), H, horizon, e);
  }

  /** One more write on top changes what both answer in the same way. */
  lemma OnTopOfBoth(S: iset<Entry>, H: iset<Entry>, horizon: SequenceNumber, e: Entry)
    requires S <= H && KeysUnique(H + iset{e}) && forall x :: x in H ==> x.key.seqno < e.key.seqno
    ensures Agree(S, H, horizon) ==> Agree(S + iset{e}, H + iset{e}, horizon)
  {
    hide Read;
    forall u, s | horizon <= s && Read(S, u, s) == Read(H, u, s) ensures Read(S + iset{e}, u, s) == Read(H + iset{e}, u, s) {
      assert iset{e} + S == S + iset{e} && iset{e} + H == H + iset{e};
      UnderNewer(iset{e}, S, H, u, s);
    }
  }

  lemma SwitchKeepsAll(d: Store, H: iset<Entry>, last: SequenceNumber)
    requires Layered(d) && Recorded(d, H, last) && d.imm.None?
    ensures var d' := Store([], Some(d.mem), d.version);
            Layered(d') && Recorded(d', H, last) && Stored(d') == Stored(d)
  {
    hide Shape, Contents;
    assert Stored(Store([], Some(d.mem), d.version)) == Stored(d);
  }

  // ---- flushing -----------------------------------------------------------------------------------

  lemma ImmIsNewer(d: Store, f: File)
    requires Layered(d) && f.entries == ImmEntries(d.imm)
    requires forall l, g :: 0 <= l < NUM_LEVELS && g in d.version[l] ==> g.number < f.number
    ensures NewerThanAll(f, d.version)
  {
    hide Shape;
    forall l, g | 0 <= l < NUM_LEVELS && g in d.version[l] ensures NewerThan(f, g) {
      forall e, x | e in f.entries && x in g.entries ensures Tag(e.key) > Tag(x.key) {
        assert HoldsEntry(d.version[l], x);
        assert x in Contents(d.version) && e in EntrySet(f.entries);
      }
    }
  }

  /** A flush moves the immutable memtable below nothing that it should hide. */
  lemma FlushKeepsAll(d: Store, v': Version, l: nat, f: File)
    requires Layered(d) && WellFormed(f) && f.entries == ImmEntries(d.imm)
    requires Adds(d.version, v', l, f) && NewerThanAll(f, d.version) && ClearAbove(d.version, l, f)
    ensures var d' := d.(imm := None, version := v'); Layered(d') && Stored(d') == Stored(d)
  {
    hide Shape, NewerThanAll, Adds, ClearAbove, WellFormed, Contents;
    FlushKeepsShape(d.version, v', l, f);
    FlushedIsUnion(d.version, v', l, f);
  }

  lemma FlushedIsUnion(v: Version, v': Version, l: nat, f: File)
    requires Adds(v, v', l, f)
    ensures Contents(v') == EntrySet(f.entries) + Contents(v)
  {
    hide Adds;
    forall e ensures e in Contents(v') <==> e in Contents(v) || e in f.entries {
      FlushedContents(v, v', l, f, e);
    }
  }

  // ---- compacting ---------------------------------------------------------------------------------

  lemma LessContentsKeepsLayers(d: Store, H: iset<Entry>, last: SequenceNumber, v': Version)
    requires Layered(d) && Recorded(d, H, last) && Shape(v') && Contents(v') <= Contents(d.version)
    ensures var d' := d.(version := v'); Layered(d') && Recorded(d', H, last)
  {
    hide Shape;
  }

  lemma SameReadsBelow(d: Store, H: iset<Entry>, last: SequenceNumber, v': Version,
                       horizon: SequenceNumber, snap: SequenceNumber)
    requires Layered(d) && Recorded(d, H, last) && Contents(v') <= Contents(d.version)
    requires forall u, s :: snap <= s ==> Read(Contents(v'), u, s) == Read(Contents(d.version), u, s)
    requires horizon <= snap && Agree(Stored(d), H, horizon)
    ensures Agree(Stored(d.(version := v')), H, snap)
  {
    hide Read, Shape;
    var M := EntrySet(d.mem) + EntrySet(ImmEntries(d.imm));
    var d' := d.(version := v');
    forall u, s | snap <= s ensures Read(Stored(d'), u, s) == Read(H, u, s) {
      assert Stored(d) == M + Contents(d.version) && Stored(d') == M + Contents(v');
      RecordedKeysUnique(d, H, last);
      UnderNewer(M, Contents(d.version), Contents(v'), u, s);
    }
  }

  lemma CompactionKeepsAll(d: Store, H: iset<Entry>, last: SequenceNumber, horizon: SequenceNumber,
                           v': Version, c: Inputs, snap: SequenceNumber, outs: seq<File>)
    requires Layered(d) && Recorded(d, H, last) && horizon <= snap
    requires Compacts(d.version, v', c, snap, outs)
    ensures var d' := d.(version := v');
            && Layered(d') && Recorded(d', H, last)
            && (Agree(Stored(d), H, horizon) && (forall u :: !Resurrects(d.version, c, snap, u))
                ==> Agree(Stored(d'), H, snap))
  {
    InstallKeepsShape(d.version, v', c, outs);
    CompactionKeepsReads(d.version, v', c, snap, outs);
    forall e | e in Contents(v') ensures e in Contents(d.version) {
      NothingNew(d.version, v', c, outs, e);
    }
    hide Compacts, Resurrects, Shape, Read;
    LessContentsKeepsLayers(d, H, last, v');
    if Agree(Stored(d), H, horizon) && forall u :: !Resurrects(d.version, c, snap, u) {
      SameReadsBelow(d, H, last, v', horizon, snap);
    }
  }

  /** Moving one file down a level changes no contents at all. */
  lemma MoveKeepsAll(d: Store, H: iset<Entry>, last: SequenceNumber, v': Version, c: Inputs)
    requires Layered(d) && Recorded(d, H, last) && ValidInputs(d.version, c) && c.in1 == []
    requires Installs(d.version, v', c, c.in0) && ValidOutputs(d.version, c, c.in0)
    ensures var d' := d.(version := v');
            Layered(d') && Recorded(d', H, last) && Stored(d') == Stored(d)
  {
    InstallKeepsShape(d.version, v', c, c.in0);
    forall e ensures e in Contents(v') <==> e in Contents(d.version) {
      if e in Contents(v') {
        NothingNew(d.version, v', c, c.in0, e);
      }
      if e in Contents(d.version) {
        MovedEntryStays(d.version, v', c, e);
      }
    }
    hide Shape, Installs, ValidOutputs, ValidInputs;
    LessContentsKeepsLayers(d, H, last, v');
  }

  lemma MovedEntryStays(v: Version, v': Version, c: Inputs, e: Entry)
    requires Installs(v, v', c, c.in0) && c.in1 == [] && InVersion(v, e)
    ensures InVersion(v', e)
  {
    var l, f := Locate(v, e);
    var m := if l == c.level && f in c.in0 then l + 1 else l;
    assert f in v'[m] && HoldsEntry(v'[m], e);
  }

  // ---- version edits ------------------------------------------------------------------------------

  /** AddInputDeletions: the numbers an edit takes out of level l. */
  function InputNumbers(c: Inputs, l: nat): set<nat> {
    if l == c.level then Numbers(FileSet(c.in0))
    else if l == c.level + 1 then Numbers(FileSet(c.in1))
    else {}
  }

  function CompactionEdit(c: Inputs, outs: seq<File>): VersionEdit {
    Edit(seq(NUM_LEVELS, l requires 0 <= l => InputNumbers(c, l)),
         seq(NUM_LEVELS, l => if l == c.level + 1 then outs else []))
  }

  function FlushEdit(level: nat, f: File): VersionEdit {
    Edit(seq(NUM_LEVELS, l => {}), seq(NUM_LEVELS, l => if l == level then [f] else []))
  }

  lemma ShapeIsListed(v: Version)
    requires Shape(v)
    ensures Listed(v)
  {
    forall l | 0 <= l < NUM_LEVELS ensures SortedBySmallest(v[l]) && UniqueNumbers(v[l]) {
      assert LevelShape(v[l], l);
    }
  }

  /** Fresh numbers make an edit replayable. */
  lemma FreshEdit(v: Version, edit: VersionEdit)
    requires forall l :: 0 <= l < NUM_LEVELS ==> Distinct(FileSet(edit.added[l]))
    requires forall l, f, g :: 0 <= l < NUM_LEVELS && f in edit.added[l] && g in v[l] ==> f.number != g.number
    ensures Replayable(v, [edit])
  {
    forall l | 0 <= l < NUM_LEVELS ensures NeverReused(FileSet(v[l]), [edit], l) {
      OneEdit(FileSet(v[l]), edit, l);
    }
  }

  lemma FreshFlush(v: Version, level: nat, f: File)
    requires forall l, g :: 0 <= l < NUM_LEVELS && g in v[l] ==> g.number < f.number
    ensures Replayable(v, [FlushEdit(level, f)])
  {
    FreshEdit(v, FlushEdit(level, f));
  }

  lemma FreshCompaction(v: Version, c: Inputs, outs: seq<File>)
    requires ValidOutputs(v, c, outs)
    ensures Replayable(v, [CompactionEdit(c, outs)])
  {
    FreshEdit(v, CompactionEdit(c, outs));
  }

  lemma FlushedNumbers(v: Version, v': Version, level: nat, f: File)
    requires Numbered(v, f.number) && Adds(v, v', level, f)
    ensures Numbered(v', f.number + 1)
  {
  }

  /** Deleting by number takes out just the inputs. */
  lemma DeletesTheInputs(files: seq<File>, taken: seq<File>, f: File)
    requires UniqueNumbers(files) && (forall g :: g in taken ==> g in files) && f in files
    ensures f in Without(FileSet(files), Numbers(FileSet(taken))) <==> f !in taken
  {
    if f in taken {
      assert f in FileSet(taken);
    }
  }

  lemma LevelIsReplaced(v: Version, v': Version, edit: VersionEdit, l: nat, taken: seq<File>)
    requires Listed(v) && LeadTo(v, [edit], v') && l < NUM_LEVELS
    requires forall g :: g in taken ==> g in v[l]
    requires edit.deleted[l] == Numbers(FileSet(taken))
    ensures Replaced(v[l], v'[l], taken, edit.added[l])
  {
    OneEdit(FileSet(v[l]), edit, l);
    forall f ensures f in v'[l] <==> (f in v[l] && f !in taken) || f in edit.added[l] {
      assert f in v'[l] <==> f in FileSet(v'[l]);
      assert f in edit.added[l] <==> f in FileSet(edit.added[l]);
      if f in v[l] { DeletesTheInputs(v[l], taken, f); }
    }
  }

  lemma UntouchedLevel(v: Version, v': Version, edit: VersionEdit, l: nat)
    requires Listed(v) && LeadTo(v, [edit], v') && l < NUM_LEVELS
    requires edit.deleted[l] == {} && edit.added[l] == []
    ensures v'[l] == v[l]
  {
    OneEdit(FileSet(v[l]), edit, l);
    OneListing(v[l], v'[l]);
  }

  lemma EditInstalls(v: Version, v': Version, c: Inputs, outs: seq<File>)
    requires Listed(v) && ValidInputs(v, c) && LeadTo(v, [CompactionEdit(c, outs)], v')
    ensures Installs(v, v', c, outs)
  {
    hide LeadTo, Listed, Replaced;
    var edit := CompactionEdit(c, outs);
    LevelIsReplaced(v, v', edit, c.level, c.in0);
    LevelIsReplaced(v, v', edit, c.level + 1, c.in1);
    forall l | 0 <= l < NUM_LEVELS && l != c.level && l != c.level + 1 ensures v'[l] == v[l] {
      UntouchedLevel(v, v', edit, l);
    }
  }

  lemma EditAdds(v: Version, v': Version, level: nat, f: File)
    requires Listed(v) && level < NUM_LEVELS && LeadTo(v, [FlushEdit(level, f)], v')
    ensures Adds(v, v', level, f)
  {
    hide LeadTo, Listed, Replaced;
    var edit := FlushEdit(level, f);
    LevelIsReplaced(v, v', edit, level, []);
    forall l | 0 <= l < NUM_LEVELS && l != level ensures v'[l] == v[l] {
      UntouchedLevel(v, v', edit, l);
    }
  }

  /** New tables take fresh numbers; a moved file keeps the one that was its own. */
  lemma InstalledNumbers(v: Version, v': Version, c: Inputs, outs: seq<File>, next: nat, next': nat)
    requires Numbered(v, next) && ValidInputs(v, c) && Installs(v, v', c, outs) && next <= next'
    requires UniqueNumbers(v[c.level])
    requires forall f :: f in outs ==> next <= f.number < next' || f in c.in0
    ensures Numbered(v', next')
  {
    forall l, m, f, g | 0 <= l < m < NUM_LEVELS && f in v'[l] && g in v'[m] ensures f.number != g.number {
      if l == c.level + 1 && f in outs {
        OutputNumber(v, v', c, outs, next, f, m, g);
      } else if m == c.level + 1 && g in outs {
        OutputNumber(v, v', c, outs, next, g, l, f);
      }
    }
  }

  lemma OutputNumber(v: Version, v': Version, c: Inputs, outs: seq<File>, next: nat, f: File, m: nat, g: File)
    requires Numbered(v, next) && ValidInputs(v, c) && Installs(v, v', c, outs)
    requires UniqueNumbers(v[c.level])
    requires f in outs && (next <= f.number || f in c.in0)
    requires m < NUM_LEVELS && m != c.level + 1 && g in v'[m]
    ensures f.number != g.number
  {
    assert g in v[m];
  }

  // ---- the steps before and after an edit is installed ----------------------------------------------

  lemma FlushIsReady(d: Store, level: nat, f: File)
    requires Layered(d) && f.entries == ImmEntries(d.imm) && Numbered(d.version, f.number)
    ensures Listed(d.version) && Replayable(d.version, [FlushEdit(level, f)])
  {
    ShapeIsListed(d.version);
    FreshFlush(d.version, level, f);
  }

  lemma FlushIsDone(d: Store, H: iset<Entry>, last: SequenceNumber, level: nat, f: File, v: Version)
    requires Layered(d) && Recorded(d, H, last) && Numbered(d.version, f.number)
    requires WellFormed(f) && d.imm == Some(f.entries) && level < NUM_LEVELS
    requires ClearAbove(d.version, level, f) && LeadTo(d.version, [FlushEdit(level, f)], v)
    ensures var d' := Store(d.mem, None, v);
            && Layered(d') && Recorded(d', H, last) && Numbered(v, f.number + 1) && Stored(d') == Stored(d)
            && Adds(d.version, v, level, f)
  {
    ShapeIsListed(d.version);
    ImmIsNewer(d, f);
    EditAdds(d.version, v, level, f);
    hide LeadTo, Shape, WellFormed;
    FlushKeepsAll(d, v, level, f);
    FlushedNumbers(d.version, v, level, f);
  }

  lemma CompactionIsReady(d: Store, c: Inputs, outs: seq<File>)
    requires Layered(d) && ValidOutputs(d.version, c, outs)
    ensures Listed(d.version) && Replayable(d.version, [CompactionEdit(c, outs)])
  {
    ShapeIsListed(d.version);
    FreshCompaction(d.version, c, outs);
  }

  lemma CompactionIsDone(d: Store, H: iset<Entry>, last: SequenceNumber, horizon: SequenceNumber,
                         v: Version, c: Inputs, snap: SequenceNumber, outs: seq<File>,
                         next: nat, tableSize: seq<Entry> -> nat)
    requires Layered(d) && Recorded(d, H, last) && horizon <= snap && Numbered(d.version, next)
    requires ValidInputs(d.version, c) && ValidOutputs(d.version, c, outs) && KeepsTheRest(d.version, c, snap, outs)
    requires AllBuilt(outs, next, tableSize) && LeadTo(d.version, [CompactionEdit(c, outs)], v)
    ensures var d' := Store(d.mem, d.imm, v);
            && Layered(d') && Recorded(d', H, last) && Numbered(v, next + |outs|)
            && Compacts(d.version, v, c, snap, outs)
            && (Agree(Stored(d), H, horizon) && (forall u :: !Resurrects(d.version, c, snap, u))
                ==> Agree(Stored(d'), H, snap))
  {
    ShapeIsListed(d.version);
    EditInstalls(d.version, v, c, outs);
    hide LeadTo, Shape, ValidOutputs, KeepsTheRest, Installs;
    CompactionKeepsAll(d, H, last, horizon, v, c, snap, outs);
    InstalledNumbers(d.version, v, c, outs, next, next + |outs|);
  }

  // ---- the merged input ---------------------------------------------------------------------------

  function Tables(files: seq<File>): seq<seq<Entry>> {
    seq(|files|, i requires 0 <= i < |files| => files[i].entries)
  }

  lemma OverlappingIsSorted(files: seq<File>, lo: Bound, hi: Bound)
    requires SortedBySmallest(files)
    ensures SortedBySmallest(Overlapping(files, lo, hi))
  {
    if files != [] {
      var n := |files| - 1;
      OverlappingIsSorted(files[..n], lo, hi);
      var rest := Overlapping(files[..n], lo, hi);
      forall i | 0 <= i < |rest| ensures BySmallest(rest[i], files[n]) {
        assert rest[i] in files[..n];
      }
    }
  }

  lemma ChosenOnce(v: Version, level: nat, in0: seq<File>, i: nat, j: nat)
    requires Shape(v) && level < NUM_LEVELS && Start(v[level], level, in0) && i < j < |in0|
    ensures in0[i] != in0[j]
  {
    assert LevelShape(v[level], level);
    if level == 0 {
      var lo, hi :| ClosedRange(v[0], lo, hi) && in0 == Overlapping(v[0], lo, hi);
      OverlappingIsSorted(v[0], lo, hi);
      assert BySmallest(in0[i], in0[j]);
    } else {
      assert WellFormed(in0[i]);
      EntryInRange(in0[i], in0[i].entries[0]);
    }
  }

  lemma NextChosenOnce(v: Version, level: nat, in0: seq<File>, in1: seq<File>, i: nat, j: nat)
    requires Shape(v) && level < NUM_LEVELS && NextLevelInputs(v[level], in0, in1) && i < j < |in1|
    ensures in1[i] != in1[j]
  {
    assert LevelShape(v[level], level);
    var a, b :| IsSmallestKey(in0, a) && IsLargestKey(in0, b)
                && in1 == Overlapping(v[level], Some(a.user), Some(b.user));
    OverlappingIsSorted(v[level], Some(a.user), Some(b.user));
    assert BySmallest(in1[i], in1[j]);
  }

  lemma DifferentFilesShareNoKey(v: Version, l: nat, m: nat, f: File, g: File)
    requires Shape(v) && l <= m < NUM_LEVELS && f in v[l] && g in v[m] && (l < m || f != g)
    ensures NoSharedKey(f.entries, g.entries)
  {
    forall e, x | e in f.entries && x in g.entries ensures e.key != x.key {
      if l < m {
        if e.key.user == x.key.user { DeeperIsOlder(v, l, m, f, g, e, x); }
      } else if l == 0 {
        Level0ShareNoKey(v[0], f, g, e, x);
      } else {
        OtherFileOtherKey(v[l], f, g, e, x);
      }
    }
  }

  lemma Level0ShareNoKey(files: seq<File>, f: File, g: File, e: Entry, x: Entry)
    requires LevelShape(files, 0) && f in files && g in files && f != g
    requires e in f.entries && x in g.entries
    ensures e.key != x.key
  {
    if e.key.user == x.key.user {
      if f.number > g.number {
        LowerNumberIsOlder(files, f, g, e, x);
      } else {
        LowerNumberIsOlder(files, g, f, x, e);
      }
    }
  }

  function InputLevel(c: Inputs, i: nat): nat {
    if i < |c.in0| then c.level else c.level + 1
  }

  lemma FromInputLevel(v: Version, c: Inputs, i: nat)
    requires ValidInputs(v, c) && i < |c.in0 + c.in1|
    ensures (c.in0 + c.in1)[i] in v[InputLevel(c, i)]
  {
    if i < |c.in0| {
      assert c.in0[i] in c.in0;
    } else {
      assert c.in1[i - |c.in0|] in c.in1;
    }
  }

  /** The inputs of a compaction merge into one sorted sequence of all their entries. */
  lemma InputsMerge(v: Version, c: Inputs)
    requires Shape(v) && ValidInputs(v, c)
    requires Start(v[c.level], c.level, c.in0) && NextLevelInputs(v[c.level + 1], c.in0, c.in1)
    ensures Sorted(MergeTables(Tables(c.in0 + c.in1)))
    ensures EntrySet(MergeTables(Tables(c.in0 + c.in1))) == InputEntries(c)
  {
    hide Start, NextLevelInputs, Shape, ValidInputs, Mergeable, Sorted, MergeTables;
    InputsAreMergeable(v, c);
    MergeTablesSorted(Tables(c.in0 + c.in1));
    TablesHold(c.in0 + c.in1);
  }

  lemma InputsAreMergeable(v: Version, c: Inputs)
    requires Shape(v) && ValidInputs(v, c)
    requires Start(v[c.level], c.level, c.in0) && NextLevelInputs(v[c.level + 1], c.in0, c.in1)
    ensures Mergeable(Tables(c.in0 + c.in1))
  {
    hide Start, NextLevelInputs, LevelShape, LevelOrder, Apart, Sorted, NoSharedKey, NewerThan;
    var all := c.in0 + c.in1;
    var tables := Tables(all);
    forall i | 0 <= i < |tables| ensures Sorted(tables[i]) {
      FromInputLevel(v, c, i);
      WellFormedInLevel(v, InputLevel(c, i), all[i]);
    }
    forall i, j | 0 <= i < j < |tables| ensures NoSharedKey(tables[i], tables[j]) {
      var n := |c.in0|;
      if j < n {
        ChosenOnce(v, c.level, c.in0, i, j);
      } else if i >= n {
        NextChosenOnce(v, c.level + 1, c.in0, c.in1, i - n, j - n);
      }
      FromInputLevel(v, c, i);
      FromInputLevel(v, c, j);
      DifferentFilesShareNoKey(v, InputLevel(c, i), InputLevel(c, j), all[i], all[j]);
    }
  }

  lemma TablesHold(files: seq<File>)
    ensures forall e :: (exists i :: 0 <= i < |files| && e in Tables(files)[i]) <==> HoldsEntry(files, e)
  {
    forall e ensures (exists i :: 0 <= i < |files| && e in Tables(files)[i]) <==> HoldsEntry(files, e) {
      if i :| 0 <= i < |files| && e in Tables(files)[i] {
        assert files[i] in files;
      }
      if f :| f in files && e in f.entries {
        var i :| 0 <= i < |files| && files[i] == f;
        assert e in Tables(files)[i];
      }
    }
  }

  // ---- the database -------------------------------------------------------------------------------

  datatype ManualCompaction = ManualCompaction(level: nat, begin: Bound, end: Bound)

  ghost predicate NothingToDo(v: Version, m: ManualCompaction) {
    m.level < NUM_LEVELS && forall f :: f in v[m.level] ==> !Overlaps(f, m.begin, m.end)
  }

  lemma LevelIsShaped(d: Store, level: nat)
    requires Layered(d) && level < NUM_LEVELS
    ensures LevelShape(d.version[level], level)
  {
  }

  /** The files two levels down that the inputs touch. */
  ghost predicate Grandparents(v: Version, c: Inputs, grandparents: seq<File>) {
    if c.level + 2 < NUM_LEVELS then NextLevelInputs(v[c.level + 2], c.in0 + c.in1, grandparents) else grandparents == []
  }

  /** The files that a compaction starts from: those in the range asked for, or else what the version wants. */
  ghost predicate StartsFrom(v: Version, pointers: seq<Option<InternalKey>>, manual: Option<ManualCompaction>, w: Wanted,
                             maxFileSize: nat, level: nat, start: seq<File>)
  {
    && level < NUM_LEVELS == |pointers|
    && if manual.Some? then
         && level == manual.value.level
         && if level == 0 then LeastClosedCover(v[0], manual.value.begin, manual.value.end, start)
            else CutShort(Overlapping(v[level], manual.value.begin, manual.value.end), start, maxFileSize)
       else
         && (w.tooBig.Some? ==> level == w.tooBig.value)
         && (w.tooBig.None? ==> w.seek.Some? && level == w.seek.value.level)
         && PickedFrom(v[level], level, pointers[level], w, start)
  }

  /** The next compaction of the level starts past the largest key of this one. */
  ghost predicate EndedAt(before: seq<Option<InternalKey>>, after: seq<Option<InternalKey>>, c: Inputs) {
    c.level < |before| && exists k :: IsLargestKey(c.in0, k) && after == before[c.level := Some(k)]
  }

  lemma LevelsAreShaped(d: Store)
    requires Layered(d)
    ensures forall l :: 0 <= l < NUM_LEVELS ==> LevelShape(d.version[l], l)
  {
  }

  lemma StartsEmpty(d: Store)
    requires d.mem == [] && d.imm == None && forall l :: 0 <= l < NUM_LEVELS ==> d.version[l] == []
    ensures Layered(d) && Recorded(d, iset{}, 0) && Numbered(d.version, 2) && Agree(Stored(d), iset{}, 0)
  {
    assert Stored(d) == iset{};
  }

  class DBImpl {
    const maxFileSize: nat
    const tableSize: seq<Entry> -> nat
    var mem: seq<Entry>
    var imm: Option<seq<Entry>>
    var version: Version
    var lastSequence: SequenceNumber
    var snapshots: seq<SequenceNumber>
    var nextFileNumber: nat

    /** Where the last compaction of each level ended. */
    var compactPointers: seq<Option<InternalKey>>

    /** All entries ever written, and the sequence number that reads may go back to. */
    ghost var history: iset<Entry>
    ghost var horizon: SequenceNumber

    constructor (maxFileSize: nat, tableSize: seq<Entry> -> nat)
      ensures Valid() && ReadsAgree() && history == iset{}
      ensures this.maxFileSize == maxFileSize && this.tableSize == tableSize && lastSequence == 0 && snapshots == []
      ensures mem == [] && imm == None && compactPointers == seq(NUM_LEVELS, _ => None)
    {
      this.maxFileSize := maxFileSize;
      this.tableSize := tableSize;
      mem, imm, version := [], None, [[], [], [], [], [], [], []];
      lastSequence, snapshots, nextFileNumber := 0, [], 2;
      compactPointers := seq(NUM_LEVELS, _ => None);
      history, horizon := iset{}, 0;
      new;
      StartsEmpty(Layers());
    }

    function Layers(): Store
      reads `mem, `imm, `version
    {
      Store(mem, imm, version)
    }

    ghost predicate Valid()
      reads this
    {
      && Layered(Layers())
      && Recorded(Layers(), history, lastSequence)
      && Numbered(version, nextFileNumber)
      && Snapshots(snapshots, horizon, lastSequence)
      && |compactPointers| == NUM_LEVELS
    }

    /** Every read that a live snapshot can make is answered as the history of writes says. */
    ghost predicate ReadsAgree()
      reads `mem, `imm, `version, `history, `horizon
    {
      Agree(Stored(Layers()), history, horizon)
    }

    /** DBImpl::Get. */
    method Get(u: UserKey, snapshot: Option<SequenceNumber>) returns (r: ReadResult)
      requires Valid() && (snapshot.Some? ==> snapshot.value in snapshots)
      ensures var s := if snapshot.Some? then snapshot.value else lastSequence;
              r == Read(Stored(Layers()), u, s) && (ReadsAgree() ==> r == Read(history, u, s))
    {
      var s := if snapshot.Some? then snapshot.value else lastSequence;
      MemAnswers(Layers(), history, lastSequence, u, s);
      ImmAnswers(Layers(), history, lastSequence, u, s);
      var hit := TableGet(mem, u, s);
      if hit.Some? {
        return Outcome(hit.value);
      }
      if imm.Some? {
        hit := TableGet(imm.value, u, s);
        if hit.Some? {
          return Outcome(hit.value);
        }
      }
      r := Versions.Get(version, u, s);
    }
  
    /** The entries a batch turns into: consecutive sequence numbers, a deletion carrying no value. */
    static function BatchEntries(batch: seq<WriteOp>, first: nat): seq<Entry>
      requires first + |batch| <= MAX_SEQUENCE
    {
      seq(|batch|, i requires 0 <= i < |batch| => EntryOf(batch[i], first + i))
    }

    static function EntryOf(op: WriteOp, seqno: SequenceNumber): Entry {
      Entry(InternalKey(op.user, seqno, op.kind), if op.kind.Value? then op.value else [])
    }

    /** Write with InsertInto: the batch is applied under the next sequence numbers. */
    method Write(batch: seq<WriteOp>)
      requires Valid() && lastSequence + |batch| < MAX_SEQUENCE
      modifies this`mem, this`lastSequence, this`history
      ensures Valid() && (old(ReadsAgree()) ==> ReadsAgree())
      ensures lastSequence == old(lastSequence) + |batch|
      ensures history == old(history) + EntrySet(BatchEntries(batch, old(lastSequence) + 1))
    {
      hide Layered, Recorded, Agree, Stored, Numbered, Snapshots;
      ghost var es := BatchEntries(batch, lastSequence + 1);
      assert EntrySet(es[..0]) == iset{};
      for i := 0 to |batch|
        invariant Valid() && (old(ReadsAgree()) ==> ReadsAgree())
        invariant lastSequence == old(lastSequence) + i
        invariant history == old(history) + EntrySet(es[..i])
      {
        WriteOne(batch[i]);
        assert es[..i + 1] == es[..i] + [es[i]];
        assert EntrySet(es[..i + 1]) == EntrySet(es[..i]) + iset{es[i]};
      }
      assert es[..|batch|] == es;
    }

    method WriteOne(op: WriteOp)
      requires Valid() && lastSequence + 1 < MAX_SEQUENCE
      modifies this`mem, this`lastSequence, this`history
      ensures Valid() && (old(ReadsAgree()) ==> ReadsAgree())
      ensures lastSequence == old(lastSequence) + 1 && history == old(history) + iset{EntryOf(op, lastSequence)}
    {
      hide Layered, Recorded, Agree, InsertEntry, Stored, Numbered;
      var e := EntryOf(op, lastSequence + 1);
      WriteKeepsAll(Layers(), history, lastSequence, horizon, e);
      mem := InsertEntry(mem, e);
      lastSequence := lastSequence + 1;
      history := history + iset{e};
    }

    /** MakeRoomForWrite: the full memtable becomes the immutable one. */
    method SwitchMemTable()
      requires Valid() && imm.None?
      modifies this`mem, this`imm, this`nextFileNumber
      ensures Valid() && (old(ReadsAgree()) ==> ReadsAgree())
      ensures mem == [] && imm == Some(old(mem)) && nextFileNumber == old(nextFileNumber) + 1
    {
      hide Agree, Layered, Recorded, Stored;
      SwitchKeepsAll(Layers(), history, lastSequence);
      imm := Some(mem);
      mem := [];
      nextFileNumber := nextFileNumber + 1;
    }

    method GetSnapshot() returns (s: SequenceNumber)
      requires Valid()
      modifies this`snapshots
      ensures Valid() && (old(ReadsAgree()) ==> ReadsAgree())
      ensures s == lastSequence && snapshots == old(snapshots) + [s]
    {
      s := lastSequence;
      snapshots := snapshots + [s];
    }

    method ReleaseSnapshot(i: nat)
      requires Valid() && i < |snapshots|
      modifies this`snapshots
      ensures Valid() && (old(ReadsAgree()) ==> ReadsAgree())
      ensures snapshots == old(snapshots[..i] + snapshots[i + 1..])
    {
      snapshots := snapshots[..i] + snapshots[i + 1..];
    }

    /** smallest_snapshot of a compaction. */
    function SmallestSnapshot(): SequenceNumber
      reads `lastSequence, `snapshots
    {
      if snapshots == [] then lastSequence else snapshots[0]
    }

    /** CompactMemTable with WriteLevel0Table: an empty memtable makes no table. */
    method CompactMemTable() returns (ghost level: nat)
      requires Valid() && imm.Some?
      modifies this`imm, this`version, this`nextFileNumber
      ensures Valid() && (old(ReadsAgree()) ==> ReadsAgree())
      ensures imm == None && Stored(Layers()) == old(Stored(Layers()))
      ensures var es := old(imm.value);
              if es == [] then version == old(version) && nextFileNumber == old(nextFileNumber)
              else
                var first, last := es[0].key, es[|es| - 1].key;
                && LevelForFlush(old(version), first.user, last.user, maxFileSize, level)
                && Adds(old(version), version, level, File(old(nextFileNumber), tableSize(es), first, last, es))
                && nextFileNumber == old(nextFileNumber) + 1
    {
      level := 0;
      if imm.value != [] {
        var es := imm.value;
        var f := File(nextFileNumber, tableSize(es), es[0].key, es[|es| - 1].key, es);
        nextFileNumber := nextFileNumber + 1;
        var l := PickLevelForMemTableOutput(version, f.smallest.user, f.largest.user, maxFileSize);
        level := l;
        InstallTable(l, f);
      } else {
        imm := None;
        assert Stored(Layers()) == old(Stored(Layers()));
      }
    }

    method InstallTable(level: nat, f: File)
      requires Layered(Layers()) && Recorded(Layers(), history, lastSequence)
      requires Snapshots(snapshots, horizon, lastSequence) && |compactPointers| == NUM_LEVELS
      requires Numbered(version, f.number)
      requires nextFileNumber == f.number + 1
      requires imm.Some? && f.entries == imm.value && WellFormed(f)
      requires level < NUM_LEVELS && ClearAbove(version, level, f)
      modifies this`imm, this`version
      ensures Valid() && Adds(old(version), version, level, f)
      ensures imm == None && Stored(Layers()) == old(Stored(Layers()))
    {
      hide Layered, Recorded, Numbered, ClearAbove, WellFormed, Listed, Replayable, LeadTo, Stored, Agree, Adds;
      FlushIsReady(Layers(), level, f);
      var v := ApplyEdit(version, FlushEdit(level, f));
      FlushIsDone(Layers(), history, lastSequence, level, f, v);
      imm, version := None, v;
    }

    /** What a compaction did to the version: moved its one file a level down, or merged. */
    ghost predicate Moved(v: Version, c: Inputs)
      reads `version
    {
      |c.in0| == 1 && c.in1 == [] && Installs(v, version, c, c.in0)
    }

    ghost predicate Merged(v: Version, c: Inputs, snap: SequenceNumber)
      reads `version
    {
      exists outs :: Compacts(v, version, c, snap, outs)
    }

    /** BackgroundCompaction once the starting files are chosen: pick the other inputs, then move the
      * file or merge.  The caller learns which inputs were used; reads stay as the history says
      * unless the compaction resurrects something.
      */
    method RunCompaction(level: nat, start: seq<File>, manual: bool)
      returns (c: Inputs, moved: bool, ghost grandparents: seq<File>)
      requires Valid() && level + 1 < NUM_LEVELS && Start(version[level], level, start)
      modifies this`version, this`nextFileNumber, this`horizon, this`compactPointers
      ensures Valid() && c.level == level && ValidInputs(old(version), c)
      ensures (forall f :: f in start ==> f in c.in0) && NextLevelInputs(old(version)[level + 1], c.in0, c.in1)
      ensures Grandparents(old(version), c, grandparents)
      ensures moved <==> !manual && |c.in0| == 1 && c.in1 == [] && TotalFileSize(grandparents) <= 10 * maxFileSize
      ensures if moved then Moved(old(version), c) else Merged(old(version), c, old(SmallestSnapshot()))
      ensures old(ReadsAgree()) && (forall u :: !Resurrects(old(version), c, old(SmallestSnapshot()), u))
              ==> ReadsAgree()
      ensures EndedAt(old(compactPointers), compactPointers, c)
    {
      hide Recorded, Numbered, Snapshots, Agree, Resurrects, Compacts, Installs, NextLevelInputs, IsLargestKey;
      var in0, in1, gps, pointer, first, expanded := SetupOtherInputs(version, level, start, maxFileSize);
      compactPointers := compactPointers[level := Some(pointer)];
      c := Inputs(level, in0, in1);
      SelectionIsValid(version, level, in0, in1);
      grandparents := gps;
      moved := !manual && |in0| == 1 && |in1| == 0 && TotalFileSize(gps) <= 10 * maxFileSize;
      if moved {
        TrivialMove(c);
      } else {
        if level + 2 < NUM_LEVELS {
          GrandparentsInOrder(version, level + 2, in0 + in1, gps);
        }
        MergeInputs(c, gps);
      }
    }

    /** BackgroundCompaction: an immutable memtable first, then a manual request, then what the version wants. */
    method BackgroundCompaction(manual: Option<ManualCompaction>, w: Wanted)
      returns (c: Option<Inputs>, moved: bool, ghost start: seq<File>, ghost grandparents: seq<File>)
      requires Valid()
      requires manual.Some? ==> manual.value.level + 1 < NUM_LEVELS
      requires Sensible(version, w)
      modifies this`imm, this`version, this`nextFileNumber, this`horizon, this`compactPointers
      ensures Valid()
      ensures old(ReadsAgree()) && (c.Some? ==> forall u :: !Resurrects(old(version), c.value, old(SmallestSnapshot()), u))
              ==> ReadsAgree()
      ensures imm == None
      ensures old(imm).Some? ==> c == None && Stored(Layers()) == old(Stored(Layers()))
      ensures c == None ==> compactPointers == old(compactPointers) && (old(imm).None? ==> version == old(version))
      ensures c.Some? ==> EndedAt(old(compactPointers), compactPointers, c.value)
      ensures old(imm).None? && c == None
              ==> if manual.Some? then NothingToDo(version, manual.value) else w == Wanted(None, None)
      ensures c.Some? ==>
                && Grandparents(old(version), c.value, grandparents)
                && (if moved then Moved(old(version), c.value)
                    else Merged(old(version), c.value, old(SmallestSnapshot())))
                && (moved <==> manual == None && |c.value.in0| == 1 && c.value.in1 == []
                               && TotalFileSize(grandparents) <= 10 * maxFileSize)
      ensures c.Some? ==>
                && start != [] && (forall f :: f in start ==> f in c.value.in0)
                && StartsFrom(old(version), old(compactPointers), manual, w, maxFileSize, c.value.level, start)
    {
      hide Layered, Recorded, Numbered, Agree, Resurrects, Stored, Compacts, Installs, NextLevelInputs, EndedAt;
      c, moved, start, grandparents := None, false, [], [];
      if imm.Some? {
        ghost var l := CompactMemTable();
        return;
      }
      var level, first := 0, [];
      if manual.Some? {
        level := manual.value.level;
        LevelIsShaped(Layers(), level);
        first := CompactRange(version[level], level, manual.value.begin, manual.value.end, maxFileSize);
      } else {
        LevelsAreShaped(Layers());
        level, first := PickCompaction(version, compactPointers, w);
      }
      start := first;
      if first != [] {
        var inputs;
        inputs, moved, grandparents := RunCompaction(level, first, manual.Some?);
        c := Some(inputs);
      }
    }

    method TrivialMove(c: Inputs)
      requires Valid() && ValidInputs(version, c) && |c.in0| == 1 && c.in1 == []
      modifies this`version
      ensures Valid() && (old(ReadsAgree()) ==> ReadsAgree()) && Moved(old(version), c)
    {
      ShapeIsListed(version);
      MovedFileIsValidOutput(version, nextFileNumber, c);
      FreshCompaction(version, c, c.in0);
      hide Shape, Listed, Replayable, LeadTo, Installs, ValidInputs, ValidOutputs, Numbered, CompactionEdit;
      var edit := CompactionEdit(c, c.in0);
      var v := ApplyEdit(version, edit);
      EditInstalls(version, v, c, c.in0);
      MoveKeepsAll(Layers(), history, lastSequence, v, c);
      InstalledNumbers(version, v, c, c.in0, nextFileNumber, nextFileNumber);
      version := v;
    }

    method MergeInputs(c: Inputs, grandparents: seq<File>)
      requires Valid() && ValidInputs(version, c)
      requires Start(version[c.level], c.level, c.in0) && NextLevelInputs(version[c.level + 1], c.in0, c.in1)
      requires InOrder(grandparents)
      modifies this`version, this`nextFileNumber, this`horizon
      ensures Valid() && Merged(old(version), c, old(SmallestSnapshot()))
      ensures old(ReadsAgree()) && (forall u :: !Resurrects(old(version), c, old(SmallestSnapshot()), u))
              ==> ReadsAgree()
    {
      hide Shape, Start, NextLevelInputs, Flatten, Survivors, Numbered, KeepsTheRest, ValidOutputs, Layered, Recorded;
      WhatMergingNeeds(version, c, nextFileNumber, Layers(), history, lastSequence);
      var snap := SmallestSnapshot();
      var work := new Compaction(version, c.level, grandparents, maxFileSize);
      InputsMerge(version, c);
      var input := MergeTables(Tables(c.in0 + c.in1));
      var outs := DoCompactionWork(work, input, snap, tableSize, nextFileNumber);
      WorkIsSound(version, c, snap, input, outs, nextFileNumber, tableSize);
      InstallOutputs(c, outs, snap);
    }

    method InstallOutputs(c: Inputs, outs: seq<File>, snap: SequenceNumber)
      requires Valid() && ValidInputs(version, c) && snap == SmallestSnapshot()
      requires ValidOutputs(version, c, outs) && KeepsTheRest(version, c, snap, outs)
      requires AllBuilt(outs, nextFileNumber, tableSize)
      modifies this`version, this`nextFileNumber, this`horizon
      ensures Valid() && Merged(old(version), c, snap)
      ensures old(ReadsAgree()) && (forall u :: !Resurrects(old(version), c, snap, u)) ==> ReadsAgree()
    {
      hide Layered, Recorded, Numbered, Agree, Resurrects, ValidInputs, ValidOutputs, KeepsTheRest,
        Listed, Replayable, LeadTo, AllBuilt, Stored;
      CompactionIsReady(Layers(), c, outs);
      var v := ApplyEdit(version, CompactionEdit(c, outs));
      CompactionIsDone(Layers(), history, lastSequence, horizon, v, c, snap, outs, nextFileNumber, tableSize);
      nextFileNumber := nextFileNumber + |outs|;
      version := v;
      horizon := snap;
    }
  }

  lemma WhatMergingNeeds(v: Version, c: Inputs, next: nat, d: Store, H: iset<Entry>, last: SequenceNumber)
    requires Layered(d) && d.version == v && Numbered(v, next) && ValidInputs(v, c)
    ensures Shape(v) && c.level + 1 < NUM_LEVELS
    ensures forall f :: f in v[c.level + 1] ==> f.number < next
  {
  }

  lemma MovedFileIsValidOutput(v: Version, next: nat, c: Inputs)
    requires Shape(v) && Numbered(v, next) && ValidInputs(v, c) && |c.in0| == 1
    ensures ValidOutputs(v, c, c.in0)
  {
    assert c.in0[0] in c.in0;
    WellFormedInLevel(v, c.level, c.in0[0]);
    forall e | HoldsEntry(c.in0, e) ensures e in InputEntries(c) {
      var f :| f in c.in0 && e in f.entries;
      assert f in c.in0 + c.in1;
    }
  }
}
