/** Which files exist (db/db_impl.cc, db/version_set.cc): versions are counted references to tables,
  * one background worker flushes and compacts, and DeleteObsoleteFiles removes what is not needed.
  * The state machine has one step for each stretch of code that runs with the mutex held.
  */
module FileLifetimes {
  import opened InternalKeys

  /** A write, known by its place in the order of all writes. */
  type WriteId = nat

  /** PrevLogNumber() is always 0 by now, and no log has that number. */
  const PREV_LOG_NUMBER: nat := 0

  datatype LiveVersion = LiveVersion(files: set<nat>, refs: nat)

  /** The durable version: its tables, the oldest log that recovery must replay, the writes that were flushed and those
    * of them that compactions have found obsolete, and the first number that no file had when the edit was made.
    */
  datatype Manifest = Manifest(files: set<nat>, log: nat, flushed: seq<WriteId>, dropped: set<WriteId>, nextFile: nat)

  /** CompactMemTable: the table is being built; LogAndApply is writing the manifest; it has written it. */
  datatype Flush =
    | NoFlush
    | Building(number: nat, base: nat)
    | FlushLogging(files: set<nat>, log: nat, built: seq<WriteId>, nextFile: nat)
    | FlushLogged(files: set<nat>, log: nat)

  /** A compaction: the merge loop, in which flushes may run; then LogAndApply as above. */
  datatype Compaction =
    | NoCompaction
    | Working(input: nat, taken: set<nat>, outputs: set<nat>)
    | CompactionLogging(input: nat, outputs: set<nat>, files: set<nat>, dropped: set<WriteId>, nextFile: nat)
    | CompactionLogged(input: nat, outputs: set<nat>, files: set<nat>)

  /** Each table with the writes that it holds. */
  type Tables = map<nat, set<WriteId>>

  datatype State = State(
    tables: Tables, logs: map<nat, seq<WriteId>>, manifest: Manifest,
    versions: map<nat, LiveVersion>, current: nat, nextVersion: nat, pins: multiset<nat>,
    pending: set<nat>, nextFile: nat, logNumber: nat, logFile: nat,
    mem: seq<WriteId>, imm: Option<seq<WriteId>>, immLog: nat, inFlight: Option<WriteId>,
    flush: Flush, compaction: Compaction, written: seq<WriteId>)

  datatype Step =
    | NewIterator
    | ReleaseIterator(version: nat)
    | LogWrite(w: WriteId)
    | ApplyWrite
    | SwitchMemTable
    | StartFlush
    | EndBuild(empty: bool)
    | CommitFlush
    | InstallFlush
    | StartCompaction(taken: set<nat>)
    | OpenOutput(content: set<WriteId>)
    | LogCompaction(dropped: set<WriteId>)
    | CommitCompaction
    | InstallCompaction
    | InstallMove
    | Reopen(immLeft: nat, logLeft: nat)

  // ---- reference counts ---------------------------------------------------------------------------

  /** A reference to a version off the list is a dangling pointer; `Sound` says there is none. */
  predicate Listed(s: State, id: nat) {
    id in s.versions && s.versions[id].refs > 0
  }

  function FilesOf(s: State, id: nat): set<nat> {
    if id in s.versions then s.versions[id].files else {}
  }

  function Ref(s: State, id: nat): (t: State)
    ensures t == s.(versions := t.versions)
  {
    if id !in s.versions then s
    else s.(versions := s.versions[id := LiveVersion(s.versions[id].files, s.versions[id].refs + 1)])
  }

  /** Unref: the last reference takes the version off the list. */
  function Unref(s: State, id: nat): (t: State)
    ensures t == s.(versions := t.versions)
  {
    if !Listed(s, id) then s
    else if s.versions[id].refs == 1 then s.(versions := s.versions - {id})
    else s.(versions := s.versions[id := LiveVersion(s.versions[id].files, s.versions[id].refs - 1)])
  }

  /** AppendVersion: the new version is referenced before it is anyone else's. */
  function AppendVersion(s: State, files: set<nat>): (t: State)
    ensures t == s.(versions := t.versions, current := s.nextVersion, nextVersion := s.nextVersion + 1)
    ensures t.current in t.versions
  {
    var t := Unref(s, s.current);
    t.(versions := t.versions[s.nextVersion := LiveVersion(files, 1)],
       current := s.nextVersion, nextVersion := s.nextVersion + 1)
  }

  // ---- garbage collection -------------------------------------------------------------------------

  function LiveFiles(s: State): set<nat> {
    s.pending + set id, n | id in s.versions && n in s.versions[id].files :: n
  }

  predicate KeepsLog(s: State, n: nat) {
    n >= s.logNumber || n == PREV_LOG_NUMBER
  }

  /** DeleteObsoleteFiles. */
  function DeleteObsolete(s: State): State {
    s.(tables := map n | n in s.tables && n in LiveFiles(s) :: s.tables[n], logs := map n | n in s.logs && KeepsLog(s, n) :: s.logs[n])
  }

  // ---- the steps ------------------------------------------------------------------------------------

  /** The writes in these tables, together. */
  function Content(tables: Tables, files: set<nat>): set<WriteId> {
    set n, w | n in files && n in tables && w in tables[n] :: w
  }

  function SetOf(log: seq<WriteId>): set<WriteId> {
    set w | w in log
  }

  /** When a step can be taken: what the source waits for and tests, and the order in which its one
    * background thread does things.
    */
  predicate Enabled(s: State, step: Step) {
    match step
    case NewIterator => true
    case ReleaseIterator(id) => id in s.pins
    case LogWrite(_) => s.inFlight.None?
    case ApplyWrite => s.inFlight.Some?
    case SwitchMemTable => s.imm.None? && s.inFlight.None?
    case StartFlush => s.imm.Some? && s.flush.NoFlush? && (s.compaction.NoCompaction? || s.compaction.Working?)
    case EndBuild(empty) => s.flush.Building? && (empty <==> s.imm == Some([]))
    case CommitFlush => s.flush.FlushLogging?
    case InstallFlush => s.flush.FlushLogged?
    case StartCompaction(taken) => s.flush.NoFlush? && s.compaction.NoCompaction? && s.imm.None?
                                   && taken <= FilesOf(s, s.current)
    case OpenOutput(content) => s.flush.NoFlush? && s.compaction.Working?
                                && content <= Content(s.tables, s.compaction.taken)
    case LogCompaction(dropped) => s.flush.NoFlush? && s.compaction.Working?
                                   && Content(s.tables, s.compaction.taken)
                                      == Content(s.tables, s.compaction.outputs) + dropped
    case CommitCompaction => s.compaction.CompactionLogging?
    case InstallCompaction => s.compaction.CompactionLogged?
    case InstallMove => s.compaction.CompactionLogged? && s.compaction.outputs == {}
    case Reopen(_, _) => true
  }

  /** NewInternalIterator, and DBImpl::Get while it reads without the mutex. */
  function NewIterator(s: State): State {
    Ref(s, s.current).(pins := s.pins + multiset{s.current})
  }

  function ReleaseIterator(s: State, id: nat): State {
    Unref(s, id).(pins := s.pins - multiset{id})
  }

  /** Write: the record goes to the log, then into the memtable. */
  function LogWrite(s: State, w: WriteId): State {
    var log := if s.logFile in s.logs then s.logs[s.logFile] else [];
    s.(logs := s.logs[s.logFile := log + [w]], inFlight := Some(w), written := s.written + [w])
  }

  function ApplyWrite(s: State): State {
    s.(mem := s.mem + InFlight(s), inFlight := None)
  }

  /** MakeRoomForWrite: a new log for a new memtable. */
  function SwitchMemTable(s: State): State {
    s.(logs := s.logs[s.nextFile := []], logFile := s.nextFile, nextFile := s.nextFile + 1,
       imm := Some(s.mem), immLog := s.logFile, mem := [])
  }

  /** CompactMemTable and WriteLevel0Table up to the point where the mutex is let go. */
  function StartFlush(s: State): State {
    Ref(s, s.current).(flush := Building(s.nextFile, s.current), pending := s.pending + {s.nextFile},
                       nextFile := s.nextFile + 1)
  }

  /** WriteLevel0Table has built the table, or none from an empty memtable; LogAndApply makes the new
    * version, and the edit says that logs before the current one are no longer needed.
    */
  function EndBuild(s: State, empty: bool): State {
    if s.flush.Building? then
      var n := s.flush.number;
      var files := FilesOf(s, s.current) + if empty then {} else {n};
      Unref(s, s.flush.base).(tables := if empty then s.tables else s.tables[n := SetOf(Imm(s))], pending := s.pending - {n},
                              flush := FlushLogging(files, s.logFile, if empty then [] else Imm(s), s.nextFile))
    else s
  }

  function CommitFlush(s: State): State {
    if s.flush.FlushLogging? then
      s.(manifest := Manifest(s.flush.files, s.flush.log, s.manifest.flushed + s.flush.built, s.manifest.dropped,
                             s.flush.nextFile),
         flush := FlushLogged(s.flush.files, s.flush.log))
    else s
  }

  function FinishFlush(s: State): State {
    if s.flush.FlushLogged? then
      AppendVersion(s, s.flush.files).(logNumber := s.flush.log, imm := None, flush := NoFlush)
    else s
  }

  function StartCompaction(s: State, taken: set<nat>): State {
    Ref(s, s.current).(compaction := Working(s.current, taken, {}))
  }

  /** One more table of the merge loop, with the writes that it is going to hold. */
  function OpenOutput(s: State, content: set<WriteId>): State {
    if s.compaction.Working? then
      var c := s.compaction;
      s.(pending := s.pending + {s.nextFile}, tables := s.tables[s.nextFile := content], nextFile := s.nextFile + 1,
         compaction := Working(c.input, c.taken, c.outputs + {s.nextFile}))
    else s
  }

  /** InstallCompactionResults, or a trivial move, up to the writing of the manifest. */
  function LogCompaction(s: State, dropped: set<WriteId>): State {
    if s.compaction.Working? then
      var c := s.compaction;
      s.(compaction := CompactionLogging(c.input, c.outputs, FilesOf(s, s.current) - c.taken + c.outputs, dropped,
                                         s.nextFile))
    else s
  }

  function CommitCompaction(s: State): State {
    if s.compaction.CompactionLogging? then
      var c := s.compaction;
      s.(manifest := s.manifest.(files := c.files, dropped := s.manifest.dropped + c.dropped, nextFile := c.nextFile),
         compaction := CompactionLogged(c.input, c.outputs, c.files))
    else s
  }

  /** AppendVersion, CleanupCompaction and ReleaseInputs. */
  function FinishCompaction(s: State): State {
    if s.compaction.CompactionLogged? then
      var c := s.compaction;
      Unref(AppendVersion(s, c.files), c.input).(pending := s.pending - c.outputs, compaction := NoCompaction)
    else s
  }

  // ---- crash and recovery ---------------------------------------------------------------------------

  function Cut(log: seq<WriteId>, left: nat): seq<WriteId> {
    if left < |log| then log[..left] else log
  }

  /** The logs, of which a crash may take the ends that were not synced. */
  function Torn(s: State, immLeft: nat, logLeft: nat): map<nat, seq<WriteId>> {
    map n | n in s.logs :: if n == s.logFile then Cut(s.logs[n], logLeft)
                           else if s.imm.Some? && n == s.immLog then Cut(s.logs[n], immLeft)
                           else s.logs[n]
  }

  /** What recovery replays: below `limit`, the logs from number `min` on, in order. */
  function Replay(logs: map<nat, seq<WriteId>>, min: nat, limit: nat): seq<WriteId> {
    if limit == 0 then []
    else
      var n := limit - 1;
      Replay(logs, min, n) + if n in logs && (n >= min || n == PREV_LOG_NUMBER) then logs[n] else []
  }

  /** MarkFileNumberUsed for each of these logs. */
  function MarkUsed(next: nat, logs: map<nat, seq<WriteId>>, min: nat, limit: nat): nat {
    if limit == 0 then next
    else
      var n := limit - 1;
      var before := MarkUsed(next, logs, min, n);
      if n in logs && (n >= min || n == PREV_LOG_NUMBER) && before <= n then n + 1 else before
  }

  /** The process has died and the database is opened again: the version of the manifest, what the logs hold in a new
    * table, a new log, and one more edit in the manifest.  `written` is what has survived.
    */
  function Recovered(s: State, immLeft: nat, logLeft: nat): State {
    var logs := Torn(s, immLeft, logLeft);
    var replayed := Replay(logs, s.manifest.log, s.nextFile);
    var n := MarkUsed(s.manifest.nextFile + 1, logs, s.manifest.log, s.nextFile);
    var (built, log) := if replayed == [] then ({}, n) else ({n}, n + 1);
    var manifest := Manifest(s.manifest.files + built, log, s.manifest.flushed + replayed, s.manifest.dropped, log + 1);
    var tables := if replayed == [] then s.tables else s.tables[n := SetOf(replayed)];
    State(tables, logs[log := []], manifest,
          map[s.nextVersion := LiveVersion(manifest.files, 1)], s.nextVersion, s.nextVersion + 1, multiset{},
          {}, log + 1, log, log, [], None, 0, None, NoFlush, NoCompaction, manifest.flushed)
  }

  /** Opening ends with DeleteObsoleteFiles. */
  function Reopen(s: State, immLeft: nat, logLeft: nat): State {
    DeleteObsolete(Recovered(s, immLeft, logLeft))
  }

  function Next(s: State, step: Step): State {
    match step
    case NewIterator => NewIterator(s)
    case ReleaseIterator(id) => ReleaseIterator(s, id)
    case LogWrite(w) => LogWrite(s, w)
    case ApplyWrite => ApplyWrite(s)
    case SwitchMemTable => SwitchMemTable(s)
    case StartFlush => StartFlush(s)
    case EndBuild(empty) => EndBuild(s, empty)
    case CommitFlush => CommitFlush(s)
    case InstallFlush => DeleteObsolete(FinishFlush(s))
    case StartCompaction(taken) => StartCompaction(s, taken)
    case OpenOutput(content) => OpenOutput(s, content)
    case LogCompaction(dropped) => LogCompaction(s, dropped)
    case CommitCompaction => CommitCompaction(s)
    case InstallCompaction => DeleteObsolete(FinishCompaction(s))
    case InstallMove => FinishCompaction(s)
    case Reopen(immLeft, logLeft) => Reopen(s, immLeft, logLeft)
  }

  /** What the source asserts: whoever is about to let go of a version still holds a listed one, and
    * a compaction finds its inputs in the current version.
    */
  ghost predicate Sound(s: State, step: Step) {
    && Listed(s, s.current)
    && (step.ReleaseIterator? ==> Listed(s, step.version))
    && (s.flush.Building? ==> Listed(s, s.flush.base))
    && (!s.compaction.NoCompaction? ==> Listed(s, s.compaction.input))
    && (s.compaction.Working? ==> s.compaction.taken <= FilesOf(s, s.current))
  }

  function Initial(): State {
    State(map[], map[1 := []], Manifest({}, 1, [], {}, 2), map[0 := LiveVersion({}, 1)], 0, 1, multiset{},
          {}, 2, 1, 1, [], None, 0, None, NoFlush, NoCompaction, [])
  }

  // ---- what every state keeps -----------------------------------------------------------------------

  /** Who refers to a version: the set itself, iterators and readers, a flush, a compaction. */
  function Holders(s: State, id: nat): nat {
    One(id == s.current) + s.pins[id] + One(s.flush.Building? && s.flush.base == id)
    + One(!s.compaction.NoCompaction? && s.compaction.input == id)
  }

  /** A version is on the list exactly while somebody holds it, and is counted right. */
  ghost predicate CountedBy(versions: map<nat, LiveVersion>, holders: nat -> nat) {
    && (forall id: nat :: id in versions <==> holders(id) > 0)
    && (forall id: nat :: id in versions ==> versions[id].refs == holders(id))
  }

  ghost predicate Counted(s: State) {
    && CountedBy(s.versions, id => Holders(s, id))
    && (forall id :: id in s.versions ==> id < s.nextVersion)
  }

  ghost predicate Phases(s: State) {
    && (!s.flush.NoFlush? ==> s.imm.Some? && (s.compaction.NoCompaction? || s.compaction.Working?))
    && s.pending == (if s.flush.Building? then {s.flush.number} else {})
                    + (if s.compaction.NoCompaction? then {} else s.compaction.outputs)
    && (!s.compaction.NoCompaction? ==> forall n :: n in s.compaction.outputs ==> n < s.nextFile)
    && (s.flush.Building? ==> s.flush.number < s.nextFile)
    && (s.flush.Building? && s.compaction.Working? ==> s.flush.number !in s.compaction.outputs)
    && (s.compaction.Working? ==> s.compaction.taken <= FilesOf(s, s.current))
    && (s.flush.FlushLogging? || s.flush.FlushLogged? ==> FilesOf(s, s.current) <= s.flush.files)
  }

  /** The version that the manifest describes. */
  function Committed(s: State): set<nat>
    requires s.current in s.versions
  {
    if s.flush.FlushLogged? then s.flush.files
    else if s.compaction.CompactionLogged? then s.compaction.files
    else s.versions[s.current].files
  }

  /** No table that anything still needs is missing: not from a listed version, whoever holds it, not
    * an output in the making, not from a version on its way in, not from the manifest.
    */
  ghost predicate TablesExist(s: State) {
    && s.current in s.versions && s.manifest.files == Committed(s)
    && (forall id :: id in s.versions ==> s.versions[id].files <= s.tables.Keys)
    && (!s.compaction.NoCompaction? ==> s.compaction.outputs <= s.tables.Keys)
    && (s.flush.FlushLogging? || s.flush.FlushLogged? ==> s.flush.files <= s.tables.Keys)
    && (s.compaction.CompactionLogging? || s.compaction.CompactionLogged? ==> s.compaction.files <= s.tables.Keys)
  }

  function Imm(s: State): seq<WriteId> {
    if s.imm.Some? then s.imm.value else []
  }

  function InFlight(s: State): seq<WriteId> {
    if s.inFlight.Some? then [s.inFlight.value] else []
  }

  /** The writes in memory, oldest first. */
  function Unflushed(s: State): seq<WriteId> {
    (if s.imm.Some? && !s.flush.FlushLogged? then s.imm.value else []) + s.mem + InFlight(s)
  }

  /** The logs from the manifest's log number on hold the writes in memory and no others. */
  ghost predicate LogsHold(s: State) {
    && s.logFile in s.logs && s.logs[s.logFile] == s.mem + InFlight(s)
    && 0 < s.logNumber <= s.manifest.log <= s.logFile < s.nextFile
    && (forall n :: n in s.logs ==> 0 < n <= s.logFile)
    && (s.imm.Some? ==> s.immLog in s.logs && s.logs[s.immLog] == s.imm.value && s.immLog < s.logFile)
    && (s.flush.FlushLogged? ==> s.manifest.log == s.flush.log == s.logFile)
    && (s.flush.FlushLogging? ==> s.flush.log == s.logFile)
    && (!s.flush.FlushLogged? ==> s.manifest.log == s.logNumber)
    && (s.imm.Some? ==> s.logNumber <= s.immLog)
    && (forall n :: n in s.logs && s.logNumber <= n ==> n == s.logFile || (s.imm.Some? && n == s.immLog))
    && (s.flush.FlushLogging? ==> s.imm == Some(s.flush.built))
    && s.written == s.manifest.flushed + Unflushed(s)
  }

  ghost predicate Below(files: set<nat>, limit: nat) {
    forall n :: n in files ==> n < limit
  }

  /** No two files have one number, and the next number is beyond all of them; the manifest has a next number that is
    * beyond its log.
    */
  ghost predicate Named(s: State) {
    && Below(s.tables.Keys, s.nextFile) && s.tables.Keys !! s.logs.Keys
    && (s.flush.Building? ==> s.flush.number < s.nextFile && s.flush.number !in s.tables && s.flush.number !in s.logs)
    && s.manifest.log < s.manifest.nextFile
    && (s.flush.FlushLogging? ==> s.flush.log < s.flush.nextFile)
    && (s.compaction.CompactionLogging? ==> s.manifest.log < s.compaction.nextFile)
  }

  /** The next number is beyond those of all files that anything needs; so is the one in the manifest, or on its way
    * there, beyond what the manifest will then list.
    */
  ghost predicate Numbered(s: State) {
    && (forall id :: id in s.versions ==> Below(s.versions[id].files, s.nextFile))
    && Below(s.manifest.files, s.manifest.nextFile) && s.manifest.nextFile <= s.nextFile
    && (s.flush.FlushLogging? ==> Below(s.flush.files, s.flush.nextFile) && s.flush.nextFile <= s.nextFile)
    && (s.compaction.CompactionLogging? ==>
          Below(s.compaction.files, s.compaction.nextFile) && s.compaction.nextFile <= s.nextFile)
  }

  /** The tables of the manifest hold what was flushed, but for what was dropped; so do those of the current version,
    * except for a table that is in the manifest already and in the version not yet.
    */
  ghost predicate Accounted(s: State) {
    var flushed, dropped, files := SetOf(s.manifest.flushed), s.manifest.dropped, FilesOf(s, s.current);
    && Content(s.tables, s.manifest.files) + dropped == flushed
    && Content(s.tables, files) + dropped + (if s.flush.FlushLogged? then SetOf(Imm(s)) else {}) == flushed
    && (s.flush.Building? ==> s.flush.number !in s.manifest.files && s.flush.number !in files)
    && (s.flush.FlushLogging? ==> Content(s.tables, s.flush.files) + dropped == flushed + SetOf(s.flush.built))
    && (s.compaction.CompactionLogging? ==>
          && Content(s.tables, s.compaction.files) + (dropped + s.compaction.dropped) == flushed
          && s.compaction.dropped <= Content(s.tables, files))
    && (s.compaction.Working? ==> Content(s.tables, s.compaction.outputs) <= Content(s.tables, s.compaction.taken))
  }

  ghost predicate Inv(s: State) {
    Counted(s) && Phases(s) && TablesExist(s) && LogsHold(s) && Named(s) && Numbered(s) && Accounted(s)
  }

  // ---- every step keeps it --------------------------------------------------------------------------

  lemma RefCounts(s: State, id: nat, h: nat -> nat, h': nat -> nat)
    requires CountedBy(s.versions, h) && h(id) > 0
    requires forall k: nat :: h'(k) == h(k) + One(k == id)
    ensures CountedBy(Ref(s, id).versions, h')
  {
  }

  lemma UnrefCounts(s: State, id: nat, h: nat -> nat, h': nat -> nat)
    requires CountedBy(s.versions, h) && h(id) > 0
    requires forall k: nat :: h(k) == h'(k) + One(k == id)
    ensures CountedBy(Unref(s, id).versions, h')
  {
    assert id in s.versions && s.versions[id].refs == h(id);
  }

  lemma AppendCounts(s: State, files: set<nat>, h: nat -> nat, h': nat -> nat)
    requires CountedBy(s.versions, h) && h(s.current) > 0 && s.nextVersion !in s.versions
    requires h'(s.nextVersion) == 1
    requires forall k: nat :: k != s.nextVersion ==> h(k) == h'(k) + One(k == s.current)
    ensures CountedBy(AppendVersion(s, files).versions, h')
  {
    assert h(s.nextVersion) == 0;
    var mid := (k: nat) => if k == s.nextVersion then 0 else h'(k);
    UnrefCounts(s, s.current, h, mid);
    var t := Unref(s, s.current).versions;
    assert forall k: nat :: k in t <==> mid(k) > 0;
  }

  lemma CountedKept(s: State, step: Step)
    requires Counted(s) && Enabled(s, step)
    ensures Counted(Next(s, step))
  {
    hide Counted, DeleteObsolete, Holders;
    if step.InstallFlush? {
      FlushCounted(s);
    } else if step.InstallCompaction? || step.InstallMove? {
      FinishCounted(s);
    } else if step.Reopen? {
      ReopenCounted(s, step.immLeft, step.logLeft);
    } else {
      OtherCounted(s, step);
    }
  }

  lemma ReopenCounted(s: State, immLeft: nat, logLeft: nat)
    ensures Counted(Reopen(s, immLeft, logLeft))
  {
    hide Torn, Replay, MarkUsed;
    var t := Reopen(s, immLeft, logLeft);
    assert forall id :: Holders(t, id) == One(id == t.current);
  }

  lemma OtherCounted(s: State, step: Step)
    requires Counted(s) && Enabled(s, step)
    requires !step.InstallFlush? && !step.InstallCompaction? && !step.InstallMove? && !step.Reopen?
    ensures Counted(Next(s, step))
  {
    hide Counted, Ref, Unref;
    match step {
      case NewIterator => RefCounted(s, s.current, NewIterator(s));
      case StartFlush => RefCounted(s, s.current, StartFlush(s));
      case StartCompaction(taken) => RefCounted(s, s.current, StartCompaction(s, taken));
      case ReleaseIterator(id) => Uncounting(s, step);
      case EndBuild(empty) => Uncounting(s, step);
      case _ => Uncounted(s, step);
    }
  }

  lemma Uncounting(s: State, step: Step)
    requires Counted(s) && Enabled(s, step) && (step.ReleaseIterator? || step.EndBuild?)
    ensures Counted(Next(s, step))
  {
    hide Counted, Ref, Unref;
    match step {
      case ReleaseIterator(id) => UnrefCounted(s, id, ReleaseIterator(s, id));
      case EndBuild(empty) => UnrefCounted(s, s.flush.base, EndBuild(s, empty));
    }
  }

  lemma Uncounted(s: State, step: Step)
    requires Counted(s) && Enabled(s, step)
    requires step.LogWrite? || step.ApplyWrite? || step.SwitchMemTable? || step.CommitFlush? || step.OpenOutput?
             || step.LogCompaction? || step.CommitCompaction?
    ensures Counted(Next(s, step))
  {
    hide Counted;
    match step {
      case LogWrite(w) => SameCounted(s, LogWrite(s, w));
      case ApplyWrite => SameCounted(s, ApplyWrite(s));
      case SwitchMemTable => SameCounted(s, SwitchMemTable(s));
      case CommitFlush => SameCounted(s, CommitFlush(s));
      case OpenOutput(content) => SameCounted(s, OpenOutput(s, content));
      case LogCompaction(dropped) => SameCounted(s, LogCompaction(s, dropped));
      case CommitCompaction => SameCounted(s, CommitCompaction(s));
    }
  }

  lemma FreshVersion(s: State)
    requires Counted(s)
    ensures s.nextVersion !in s.versions && Holders(s, s.nextVersion) == 0
  {
    var h := (id: nat) => Holders(s, id);
    assert s.nextVersion in s.versions <==> h(s.nextVersion) > 0;
  }

  lemma RefCounted(s: State, id: nat, t: State)
    requires Counted(s) && Holders(s, id) > 0 && t.versions == Ref(s, id).versions && t.nextVersion == s.nextVersion
    requires forall k: nat :: Holders(t, k) == Holders(s, k) + One(k == id)
    ensures Counted(t)
  {
    RefCounts(s, id, (k: nat) => Holders(s, k), (k: nat) => Holders(t, k));
  }

  lemma UnrefCounted(s: State, id: nat, t: State)
    requires Counted(s) && Holders(s, id) > 0 && t.versions == Unref(s, id).versions && t.nextVersion == s.nextVersion
    requires forall k: nat :: Holders(s, k) == Holders(t, k) + One(k == id)
    ensures Counted(t)
  {
    UnrefCounts(s, id, (k: nat) => Holders(s, k), (k: nat) => Holders(t, k));
  }

  lemma SameCounted(s: State, t: State)
    requires Counted(s) && t.versions == s.versions && t.nextVersion == s.nextVersion
    requires forall k: nat :: Holders(t, k) == Holders(s, k)
    ensures Counted(t)
  {
    hide CountedBy;
    SameCounts(s.versions, (k: nat) => Holders(s, k), (k: nat) => Holders(t, k));
  }

  lemma FlushCounted(s: State)
    requires Counted(s) && s.flush.FlushLogged?
    ensures Counted(FinishFlush(s)) && Counted(DeleteObsolete(FinishFlush(s)))
  {
    hide CountedBy, DeleteObsolete;
    var t := FinishFlush(s);
    FreshVersion(s);
    AppendCounts(s, s.flush.files, (id: nat) => Holders(s, id), (id: nat) => Holders(t, id));
    DeletingCounts(t);
  }

  lemma FinishCounted(s: State)
    requires Counted(s) && s.compaction.CompactionLogged?
    ensures Counted(FinishCompaction(s)) && Counted(DeleteObsolete(FinishCompaction(s)))
  {
    hide CountedBy, DeleteObsolete;
    var t := FinishCompaction(s);
    FreshVersion(s);
    FinishCounts(s, (id: nat) => Holders(s, id), (id: nat) => Holders(t, id));
    DeletingCounts(t);
  }

  lemma DeletingCounts(s: State)
    requires Counted(s)
    ensures Counted(DeleteObsolete(s))
  {
    SameCounted(s, DeleteObsolete(s));
  }

  lemma SameCounts(versions: map<nat, LiveVersion>, h: nat -> nat, h': nat -> nat)
    requires CountedBy(versions, h) && forall k :: h'(k) == h(k)
    ensures CountedBy(versions, h')
  {
  }

  lemma FinishCounts(s: State, h: nat -> nat, h': nat -> nat)
    requires CountedBy(s.versions, h) && s.compaction.CompactionLogged? && s.nextVersion !in s.versions
    requires h(s.current) > 0 && h(s.compaction.input) > 0 && h'(s.nextVersion) == 1
    requires forall k: nat :: k != s.nextVersion ==> h(k) == h'(k) + One(k == s.current) + One(k == s.compaction.input)
    ensures CountedBy(FinishCompaction(s).versions, h')
  {
    var c := s.compaction;
    var mid := (k: nat) => h'(k) + One(k == c.input);
    AppendCounts(s, c.files, h, mid);
    UnrefCounts(AppendVersion(s, c.files), c.input, mid, h');
  }

  /** What Unref leaves of the versions, it leaves alone. */
  lemma UnrefLeaves(s: State, id: nat)
    ensures forall k :: k in Unref(s, id).versions ==> k in s.versions && FilesOf(Unref(s, id), k) == FilesOf(s, k)
    ensures forall k :: k in s.versions && k != id ==> k in Unref(s, id).versions
  {
  }

  lemma RefLeaves(s: State, id: nat)
    ensures Ref(s, id).versions.Keys == s.versions.Keys
    ensures forall k :: FilesOf(Ref(s, id), k) == FilesOf(s, k)
  {
  }

  lemma CurrentIsListed(s: State)
    requires Counted(s)
    ensures s.current in s.versions
  {
    var h := (id: nat) => Holders(s, id);
    assert h(s.current) > 0;
  }

  lemma PhasesKept(s: State, step: Step)
    requires Inv(s) && Enabled(s, step) && Counted(Next(s, step))
    ensures Phases(Next(s, step))
  {
    hide Counted, LogsHold, TablesExist, Holders, DeleteObsolete, Ref, Unref, AppendVersion, LiveFiles;
    CurrentIsListed(Next(s, step));
    match step {
      case ReleaseIterator(id) => UnrefLeaves(s, id);
      case EndBuild(_) => UnrefLeaves(s, s.flush.base);
      case InstallFlush => FinishPhases(s);
      case InstallCompaction => FinishPhases(s);
      case InstallMove => FinishPhases(s);
      case Reopen(immLeft, logLeft) => ReopenedIsIdle(s, immLeft, logLeft);
      case _ => OtherPhases(s, step);
    }
  }

  lemma OtherPhases(s: State, step: Step)
    requires Phases(s) && Enabled(s, step)
    requires !step.ReleaseIterator? && !step.EndBuild? && !step.InstallFlush? && !step.InstallCompaction?
    requires !step.InstallMove? && !step.Reopen?
    ensures Phases(Next(s, step))
  {
    hide Ref, Unref, AppendVersion;
    RefLeaves(s, s.current);
  }

  lemma ReopenedIsIdle(s: State, immLeft: nat, logLeft: nat)
    ensures Phases(Reopen(s, immLeft, logLeft))
  {
  }

  lemma FinishPhases(s: State)
    requires Phases(s)
    ensures s.flush.FlushLogged? ==> Phases(FinishFlush(s)) && Phases(DeleteObsolete(FinishFlush(s)))
    ensures s.compaction.CompactionLogged?
            ==> Phases(FinishCompaction(s)) && Phases(DeleteObsolete(FinishCompaction(s)))
  {
  }

  /** Steps that neither make a version nor touch a table. */
  lemma TablesUntouched(s: State, t: State)
    requires TablesExist(s) && Counted(t)
    requires t.current == s.current && t.tables == s.tables && t.manifest == s.manifest
    requires forall k :: k in t.versions ==> k in s.versions && FilesOf(t, k) == FilesOf(s, k)
    requires t.compaction == s.compaction
             || (s.compaction.NoCompaction? && t.compaction.Working? && t.compaction.outputs == {})
    requires t.flush == s.flush || (s.flush.NoFlush? && t.flush.Building?)
    ensures TablesExist(t)
  {
    hide Counted;
    CurrentIsListed(t);
    assert FilesOf(t, t.current) == FilesOf(s, s.current);
    forall k | k in t.versions ensures t.versions[k].files <= t.tables.Keys {
      assert FilesOf(t, k) == FilesOf(s, k);
    }
  }

  lemma TablesKept(s: State, step: Step)
    requires Inv(s) && Enabled(s, step) && Counted(Next(s, step))
    ensures TablesExist(Next(s, step))
  {
    hide Counted, LogsHold, TablesExist, Unref, Ref, DeleteObsolete;
    RefLeaves(s, s.current);
    match step {
      case ReleaseIterator(id) =>
        UnrefLeaves(s, id);
        TablesUntouched(s, ReleaseIterator(s, id));
      case EndBuild(empty) => BuildKeepsTables(s, empty);
      case CommitFlush => CommitsKeepTables(s);
      case CommitCompaction => CommitsKeepTables(s);
      case LogCompaction(dropped) => OutputsKeepTables(s, {}, dropped);
      case OpenOutput(content) => OutputsKeepTables(s, content, {});
      case InstallFlush =>
        FlushCounted(s);
        FlushKeepsTables(s);
      case InstallCompaction =>
        FinishCounted(s);
        CompactionKeepsTables(s);
      case InstallMove => CompactionKeepsTables(s);
      case Reopen(immLeft, logLeft) => ReopenKeepsTables(s, immLeft, logLeft);
      case _ => TablesUntouched(s, Next(s, step));
    }
  }

  lemma ReopenKeepsTables(s: State, immLeft: nat, logLeft: nat)
    requires TablesExist(s)
    ensures TablesExist(Reopen(s, immLeft, logLeft))
  {
    hide Torn, Replay, MarkUsed;
  }

  lemma BuildKeepsTables(s: State, empty: bool)
    requires TablesExist(s) && s.flush.Building? && Counted(EndBuild(s, empty)) && Phases(s)
    ensures TablesExist(EndBuild(s, empty))
  {
    hide Counted;
    var t := EndBuild(s, empty);
    CurrentIsListed(t);
    UnrefLeaves(s, s.flush.base);
    hide Unref;
    forall k | k in t.versions ensures t.versions[k].files <= t.tables.Keys {
      assert FilesOf(t, k) == FilesOf(s, k);
    }
    assert FilesOf(t, t.current) == FilesOf(s, s.current);
  }

  lemma CommitsKeepTables(s: State)
    requires TablesExist(s) && Phases(s)
    ensures s.flush.FlushLogging? ==> TablesExist(CommitFlush(s))
    ensures s.compaction.CompactionLogging? ==> TablesExist(CommitCompaction(s))
  {
  }

  lemma OutputsKeepTables(s: State, content: set<WriteId>, dropped: set<WriteId>)
    requires TablesExist(s) && Phases(s) && s.flush.NoFlush? && s.compaction.Working?
    ensures TablesExist(LogCompaction(s, dropped)) && TablesExist(OpenOutput(s, content))
  {
  }

  /** Installing what the manifest already says. */
  lemma AppendKeepsTables(s: State, files: set<nat>)
    requires TablesExist(s) && files <= s.tables.Keys
    ensures var t := AppendVersion(s, files);
            && t.versions[t.current].files == files
            && (forall id :: id in t.versions ==> t.versions[id].files <= s.tables.Keys)
  {
    UnrefLeaves(s, s.current);
    hide Unref;
    var u := Unref(s, s.current);
    forall k | k in u.versions ensures u.versions[k].files <= s.tables.Keys {
      assert FilesOf(u, k) == FilesOf(s, k);
    }
  }

  /** Collecting garbage when no version is on its way in. */
  lemma DeletingKeepsTables(s: State)
    requires TablesExist(s) && Phases(s) && s.flush.NoFlush?
    requires s.compaction.NoCompaction? || s.compaction.Working?
    ensures TablesExist(DeleteObsolete(s))
  {
    forall id, n | id in s.versions && n in s.versions[id].files ensures n in LiveFiles(s) {
    }
  }

  lemma FlushKeepsTables(s: State)
    requires Inv(s) && s.flush.FlushLogged? && Counted(FinishFlush(s))
    ensures TablesExist(DeleteObsolete(FinishFlush(s)))
  {
    hide Counted, LogsHold, DeleteObsolete, AppendVersion;
    AppendKeepsTables(s, s.flush.files);
    CurrentIsListed(FinishFlush(s));
    assert Phases(FinishFlush(s)) by { FinishPhases(s); }
    DeletingKeepsTables(FinishFlush(s));
  }

  lemma CompactionKeepsTables(s: State)
    requires Inv(s) && s.compaction.CompactionLogged? && Counted(FinishCompaction(s))
    ensures TablesExist(FinishCompaction(s)) && TablesExist(DeleteObsolete(FinishCompaction(s)))
  {
    hide Counted, LogsHold, DeleteObsolete, AppendVersion, Unref;
    AppendKeepsTables(s, s.compaction.files);
    var u := AppendVersion(s, s.compaction.files);
    UnrefLeaves(u, s.compaction.input);
    var t := FinishCompaction(s);
    CurrentIsListed(t);
    forall k | k in t.versions ensures t.versions[k].files <= t.tables.Keys {
      assert FilesOf(t, k) == FilesOf(u, k);
    }
    assert FilesOf(t, t.current) == FilesOf(u, u.current);
    DeletingKeepsTables(t);
  }

  lemma LogsKept(s: State, step: Step)
    requires Inv(s) && Enabled(s, step)
    ensures LogsHold(Next(s, step))
  {
    hide Counted, TablesExist, LogsHold, DeleteObsolete;
    match step {
      case LogWrite(w) => WritesKeepLogs(s, w);
      case ApplyWrite => WritesKeepLogs(s, 0);
      case SwitchMemTable => SwitchKeepsLogs(s);
      case CommitFlush => CommitKeepsLogs(s);
      case Reopen(immLeft, logLeft) => ReopenKeepsLogs(s, immLeft, logLeft);
      case _ => QuietStepsKeepLogs(s, step);
    }
  }

  lemma QuietStepsKeepLogs(s: State, step: Step)
    requires LogsHold(s) && Phases(s) && Enabled(s, step)
    requires !step.LogWrite? && !step.ApplyWrite? && !step.SwitchMemTable? && !step.CommitFlush?
             && !step.Reopen?
    ensures LogsHold(Next(s, step))
  {
    hide LogsHold, DeleteObsolete, FinishFlush, FinishCompaction, Unref, Ref, AppendVersion, Holders;
    match step {
      case EndBuild(empty) => BuildKeepsLogs(s, empty);
      case InstallFlush => InstallKeepsLogs(s);
      case InstallCompaction => InstallKeepsLogs(s);
      case InstallMove => InstallKeepsLogs(s);
      case _ => SameLogs(s, Next(s, step));
    }
  }

  lemma SameLogs(s: State, t: State)
    requires LogsHold(s) && t.logs == s.logs && s.nextFile <= t.nextFile && t.logFile == s.logFile
    requires t.manifest.log == s.manifest.log && t.manifest.flushed == s.manifest.flushed
    requires t.logNumber == s.logNumber && t.mem == s.mem && t.imm == s.imm && t.immLog == s.immLog
    requires t.inFlight == s.inFlight && t.written == s.written
    requires t.flush == s.flush || (s.flush.NoFlush? && t.flush.Building?)
    ensures LogsHold(t)
  {
  }

  lemma BuildKeepsLogs(s: State, empty: bool)
    requires LogsHold(s) && s.flush.Building? && s.imm.Some? && (empty <==> s.imm == Some([]))
    ensures LogsHold(EndBuild(s, empty))
  {
  }

  lemma InstallKeepsLogs(s: State)
    requires LogsHold(s)
    ensures s.flush.FlushLogged? ==> LogsHold(DeleteObsolete(FinishFlush(s)))
    ensures s.compaction.CompactionLogged? && s.flush.NoFlush?
            ==> LogsHold(FinishCompaction(s)) && LogsHold(DeleteObsolete(FinishCompaction(s)))
  {
  }

  lemma WritesKeepLogs(s: State, w: WriteId)
    requires LogsHold(s)
    ensures s.inFlight.None? ==> LogsHold(LogWrite(s, w))
    ensures s.inFlight.Some? ==> LogsHold(ApplyWrite(s))
  {
    var older := if s.imm.Some? && !s.flush.FlushLogged? then s.imm.value else [];
    assert older + (s.mem + InFlight(s)) + [] == older + s.mem + InFlight(s);
  }

  lemma SwitchKeepsLogs(s: State)
    requires LogsHold(s) && Phases(s) && s.imm.None? && s.inFlight.None?
    ensures LogsHold(SwitchMemTable(s))
  {
  }

  lemma CommitKeepsLogs(s: State)
    requires LogsHold(s) && s.flush.FlushLogging? && s.imm.Some?
    ensures LogsHold(CommitFlush(s))
  {
    var mem := s.mem + InFlight(s);
    assert s.imm.value + s.mem + InFlight(s) == s.imm.value + mem && [] + s.mem + InFlight(s) == mem;
    assert s.manifest.flushed + (s.imm.value + mem) == s.manifest.flushed + s.imm.value + mem;
  }

  lemma ReopenKeepsLogs(s: State, immLeft: nat, logLeft: nat)
    requires LogsHold(s)
    ensures LogsHold(Reopen(s, immLeft, logLeft))
  {
    hide Replay, Cut, MarkUsed, Torn;
    var t := Reopen(s, immLeft, logLeft);
    OneLogLeft(s, immLeft, logLeft);
    assert Unflushed(t) == [] && t.manifest.flushed + [] == t.manifest.flushed;
  }

  lemma {:induction false} MarksAllLogs(next: nat, logs: map<nat, seq<WriteId>>, min: nat, limit: nat)
    ensures MarkUsed(next, logs, min, limit) >= next
    ensures forall n :: n in logs && min <= n < limit ==> n < MarkUsed(next, logs, min, limit)
  {
    if limit > 0 {
      MarksAllLogs(next, logs, min, limit - 1);
    }
  }

  lemma NamesKept(s: State, step: Step)
    requires Inv(s) && Enabled(s, step)
    ensures Named(Next(s, step))
  {
    hide Counted, TablesExist, Phases, Numbered, Accounted, DeleteObsolete, Ref, Unref, AppendVersion, Content, Reopen;
    match step {
      case Reopen(immLeft, logLeft) => ReopenNames(s, immLeft, logLeft);
      case InstallFlush => DeletingNames(FinishFlush(s));
      case InstallCompaction => DeletingNames(FinishCompaction(s));
      case CommitFlush => CommitNames(s);
      case CommitCompaction => CommitNames(s);
      case _ => OtherNames(s, step);
    }
  }

  lemma OtherNames(s: State, step: Step)
    requires Named(s) && LogsHold(s) && Enabled(s, step)
    requires !step.Reopen? && !step.InstallFlush? && !step.InstallCompaction? && !step.CommitFlush?
             && !step.CommitCompaction?
    ensures Named(Next(s, step))
  {
    hide Ref, Unref, AppendVersion, Content;
  }

  lemma CommitNames(s: State)
    requires Named(s) && Phases(s)
    ensures s.flush.FlushLogging? ==> Named(CommitFlush(s))
    ensures s.compaction.CompactionLogging? ==> Named(CommitCompaction(s))
  {
  }

  lemma DeletingNames(s: State)
    requires Named(s)
    ensures Named(DeleteObsolete(s))
  {
    hide LiveFiles;
  }

  lemma ReopenNames(s: State, immLeft: nat, logLeft: nat)
    requires Inv(s)
    ensures Named(Reopen(s, immLeft, logLeft))
  {
    hide Torn, Replay, MarkUsed, Counted, Phases, Accounted, LogsHold, DeleteObsolete;
    MarksAllLogs(s.manifest.nextFile + 1, Torn(s, immLeft, logLeft), s.manifest.log, s.nextFile);
    OneLogLeft(s, immLeft, logLeft);
    ListedTablesLeft(Recovered(s, immLeft, logLeft));
  }

  /** A new log is all that is left of the logs. */
  lemma OneLogLeft(s: State, immLeft: nat, logLeft: nat)
    requires LogsHold(s)
    ensures var t := Reopen(s, immLeft, logLeft);
            s.logFile < t.logFile && t.logs == map[t.logFile := []]
  {
    hide Replay, Cut, MarkUsed;
    var logs, t := Torn(s, immLeft, logLeft), Reopen(s, immLeft, logLeft);
    MarksAllLogs(s.manifest.nextFile + 1, logs, s.manifest.log, s.nextFile);
    assert s.logFile in logs;
  }

  lemma ListedTablesLeft(s: State)
    requires s.pending == {}
    ensures var t := DeleteObsolete(s);
            && (forall n :: n in t.tables ==> exists id :: id in s.versions && n in s.versions[id].files)
            && t == s.(tables := t.tables, logs := t.logs)
  {
  }

  lemma NumbersKept(s: State, step: Step)
    requires Inv(s) && Enabled(s, step)
    ensures Numbered(Next(s, step))
  {
    hide Counted, LogsHold, DeleteObsolete, Holders;
    match step {
      case Reopen(immLeft, logLeft) => ReopenKeepsNumbers(s, immLeft, logLeft);
      case _ => StepKeepsNumbers(s, step);
    }
  }

  lemma StepKeepsNumbers(s: State, step: Step)
    requires Numbered(s) && Phases(s) && TablesExist(s) && Enabled(s, step) && !step.Reopen?
    ensures Numbered(Next(s, step))
  {
    hide Phases, TablesExist, Numbered, DeleteObsolete, FinishFlush, FinishCompaction, Ref, Unref, AppendVersion;
    RefLeaves(s, s.current);
    match step {
      case NewIterator => SameNumbers(s, NewIterator(s));
      case ReleaseIterator(id) =>
        UnrefLeaves(s, id);
        SameNumbers(s, ReleaseIterator(s, id));
      case StartFlush => SameNumbers(s, StartFlush(s));
      case StartCompaction(taken) => SameNumbers(s, StartCompaction(s, taken));
      case EndBuild(empty) => BuildKeepsNumbers(s, empty);
      case LogCompaction(dropped) => CommitKeepsNumbers(s, dropped);
      case CommitFlush => CommitKeepsNumbers(s, {});
      case CommitCompaction => CommitKeepsNumbers(s, {});
      case InstallFlush => InstallKeepsNumbers(s);
      case InstallCompaction => InstallKeepsNumbers(s);
      case InstallMove => InstallKeepsNumbers(s);
      case _ => SameNumbers(s, Next(s, step));
    }
  }

  lemma SameNumbers(s: State, t: State)
    requires Numbered(s) && t.manifest == s.manifest && s.nextFile <= t.nextFile
    requires forall k :: k in t.versions ==> k in s.versions && FilesOf(t, k) == FilesOf(s, k)
    requires t.flush == s.flush || t.flush.Building?
    requires t.compaction == s.compaction || t.compaction.Working?
    ensures Numbered(t)
  {
    forall k | k in t.versions ensures Below(t.versions[k].files, t.nextFile) {
      assert FilesOf(t, k) == FilesOf(s, k);
    }
  }

  lemma BuildKeepsNumbers(s: State, empty: bool)
    requires Numbered(s) && Phases(s) && TablesExist(s) && s.flush.Building?
    ensures Numbered(EndBuild(s, empty))
  {
    UnrefLeaves(s, s.flush.base);
    hide Unref;
    var t := EndBuild(s, empty);
    forall k | k in t.versions ensures Below(t.versions[k].files, t.nextFile) {
      assert FilesOf(t, k) == FilesOf(s, k);
    }
  }

  lemma CommitKeepsNumbers(s: State, dropped: set<WriteId>)
    requires Numbered(s) && Phases(s) && TablesExist(s)
    ensures s.flush.FlushLogging? ==> Numbered(CommitFlush(s))
    ensures s.compaction.CompactionLogging? ==> Numbered(CommitCompaction(s))
    ensures s.compaction.Working? ==> Numbered(LogCompaction(s, dropped))
  {
  }

  lemma InstallKeepsNumbers(s: State)
    requires Numbered(s) && Phases(s) && TablesExist(s)
    ensures s.flush.FlushLogged? ==> Numbered(DeleteObsolete(FinishFlush(s)))
    ensures s.compaction.CompactionLogged? ==> Numbered(FinishCompaction(s)) && Numbered(DeleteObsolete(FinishCompaction(s)))
  {
    hide Unref, AppendVersion;
    if s.flush.FlushLogged? {
      AppendKeepsNumbers(s, s.flush.files);
    } else if s.compaction.CompactionLogged? {
      AppendKeepsNumbers(s, s.compaction.files);
      UnrefLeaves(AppendVersion(s, s.compaction.files), s.compaction.input);
      SameNumbers(AppendVersion(s, s.compaction.files), FinishCompaction(s).(compaction := s.compaction));
    }
  }

  lemma AppendKeepsNumbers(s: State, files: set<nat>)
    requires Numbered(s) && Below(files, s.nextFile)
    ensures Numbered(AppendVersion(s, files))
  {
    UnrefLeaves(s, s.current);
    hide Unref;
    SameNumbers(s, Unref(s, s.current));
  }

  lemma ReopenKeepsNumbers(s: State, immLeft: nat, logLeft: nat)
    requires Numbered(s)
    ensures Numbered(Reopen(s, immLeft, logLeft))
  {
    hide Torn, Replay, MarkUsed;
    MarksAllLogs(s.manifest.nextFile + 1, Torn(s, immLeft, logLeft), s.manifest.log, s.nextFile);
  }

  // ---- what the tables hold ---------------------------------------------------------------------------

  lemma SameContent(a: Tables, b: Tables, files: set<nat>)
    requires forall n :: n in files ==> (n in a <==> n in b) && (n in a ==> a[n] == b[n])
    ensures Content(a, files) == Content(b, files)
  {
  }

  lemma ContentJoins(tables: Tables, a: set<nat>, b: set<nat>)
    ensures Content(tables, a + b) == Content(tables, a) + Content(tables, b)
  {
  }

  /** A new table, beside those that were there. */
  lemma ContentWith(tables: Tables, files: set<nat>, n: nat, content: set<WriteId>)
    requires n !in files
    ensures Content(tables[n := content], files) == Content(tables, files)
    ensures Content(tables[n := content], files + {n}) == Content(tables, files) + content
  {
    SameContent(tables, tables[n := content], files);
    ContentJoins(tables[n := content], files, {n});
    ContentOfOne(tables[n := content], n);
  }

  lemma ContentOfOne(tables: Tables, n: nat)
    requires n in tables
    ensures Content(tables, {n}) == tables[n]
  {
    forall w | w in tables[n] ensures w in Content(tables, {n}) {
      assert n in {n};
    }
  }

  /** Taking out some tables and putting in what holds the same, but for what was dropped. */
  lemma ContentReplaced(tables: Tables, files: set<nat>, taken: set<nat>, put: set<nat>, dropped: set<WriteId>)
    requires taken <= files && Content(tables, taken) == Content(tables, put) + dropped
    ensures Content(tables, files - taken + put) + dropped == Content(tables, files)
  {
    assert files == (files - taken) + taken;
    ContentJoins(tables, files - taken, taken);
    ContentJoins(tables, files - taken, put);
  }

  lemma AccountedKept(s: State, step: Step)
    requires Inv(s) && Enabled(s, step) && Counted(Next(s, step))
    ensures Accounted(Next(s, step))
  {
    hide Counted, LogsHold, TablesExist, Accounted, Unref, Ref, AppendVersion, DeleteObsolete, Content, Phases, Numbered,
      Reopen;
    match step {
      case EndBuild(empty) => BuildAccounts(s, empty);
      case CommitFlush => CommitAccounts(s);
      case CommitCompaction => CommitAccounts(s);
      case OpenOutput(content) => OpenAccounts(s, content);
      case LogCompaction(dropped) => DropAccounts(s, dropped);
      case InstallFlush =>
        FlushCounted(s);
        FlushAccounts(s);
      case InstallCompaction =>
        FinishCounted(s);
        CompactionAccounts(s);
      case InstallMove => CompactionAccounts(s);
      case Reopen(immLeft, logLeft) => ReopenAccounts(s, immLeft, logLeft);
      case _ => OtherAccounts(s, step);
    }
  }

  lemma OtherAccounts(s: State, step: Step)
    requires Inv(s) && Enabled(s, step) && Counted(Next(s, step))
    requires step.NewIterator? || step.ReleaseIterator? || step.LogWrite? || step.ApplyWrite? || step.SwitchMemTable?
             || step.StartFlush? || step.StartCompaction?
    ensures Accounted(Next(s, step))
  {
    hide Counted, LogsHold, Accounted, Unref, Ref, Content;
    CurrentIsListed(Next(s, step));
    RefLeaves(s, s.current);
    if step.ReleaseIterator? {
      UnrefLeaves(s, step.version);
    }
    SameAccounts(s, Next(s, step));
  }

  lemma SameAccounts(s: State, t: State)
    requires Accounted(s) && Phases(s) && t.tables == s.tables && t.manifest == s.manifest
    requires FilesOf(t, t.current) == FilesOf(s, s.current)
    requires t.flush == s.flush || (s.flush.NoFlush? && t.flush.Building? && t.flush.number == s.nextFile)
    requires t.compaction == s.compaction || (t.compaction.Working? && t.compaction.outputs == {})
    requires t.imm == s.imm || s.imm.None?
    requires Below(s.manifest.files, s.nextFile) && Below(FilesOf(s, s.current), s.nextFile)
    ensures Accounted(t)
  {
  }

  lemma BuildAccounts(s: State, empty: bool)
    requires Inv(s) && Enabled(s, Step.EndBuild(empty)) && Counted(EndBuild(s, empty))
    ensures Accounted(EndBuild(s, empty))
  {
    hide Counted, LogsHold, Unref, Content;
    var t, n, files := EndBuild(s, empty), s.flush.number, FilesOf(s, s.current);
    CurrentIsListed(t);
    UnrefLeaves(s, s.flush.base);
    assert FilesOf(t, t.current) == files;
    ContentWith(s.tables, files, n, SetOf(Imm(s)));
    ContentWith(s.tables, s.manifest.files, n, SetOf(Imm(s)));
    if s.compaction.Working? {
      ContentWith(s.tables, s.compaction.taken, n, SetOf(Imm(s)));
      ContentWith(s.tables, s.compaction.outputs, n, SetOf(Imm(s)));
    }
    assert empty ==> files + {} == files && SetOf([]) == {};
  }

  lemma CommitAccounts(s: State)
    requires Inv(s)
    ensures s.flush.FlushLogging? ==> Accounted(CommitFlush(s))
    ensures s.compaction.CompactionLogging? ==> Accounted(CommitCompaction(s))
  {
    hide Counted, Content;
    if s.flush.FlushLogging? {
      assert SetOf(s.manifest.flushed + s.flush.built) == SetOf(s.manifest.flushed) + SetOf(s.flush.built);
    }
  }

  lemma OpenAccounts(s: State, content: set<WriteId>)
    requires Inv(s) && s.flush.NoFlush? && s.compaction.Working? && content <= Content(s.tables, s.compaction.taken)
    ensures Accounted(OpenOutput(s, content))
  {
    hide Counted, LogsHold, Content;
    ContentWith(s.tables, s.compaction.taken, s.nextFile, content);
    ContentWith(s.tables, s.compaction.outputs, s.nextFile, content);
    ContentWith(s.tables, s.manifest.files, s.nextFile, content);
    ContentWith(s.tables, FilesOf(s, s.current), s.nextFile, content);
  }

  lemma DropAccounts(s: State, dropped: set<WriteId>)
    requires Inv(s) && Enabled(s, Step.LogCompaction(dropped))
    ensures Accounted(LogCompaction(s, dropped))
  {
    hide Counted, LogsHold, Content;
    var c := s.compaction;
    ContentReplaced(s.tables, FilesOf(s, s.current), c.taken, c.outputs, dropped);
    assert Content(s.tables, FilesOf(s, s.current) - c.taken + c.outputs) + s.manifest.dropped + dropped
           == Content(s.tables, FilesOf(s, s.current)) + s.manifest.dropped;
  }

  /** Collecting garbage leaves what is listed as it is. */
  lemma DeletingLeaves(s: State, id: nat)
    requires id in s.versions
    ensures Content(DeleteObsolete(s).tables, s.versions[id].files) == Content(s.tables, s.versions[id].files)
  {
    SameContent(s.tables, DeleteObsolete(s).tables, s.versions[id].files);
  }

  lemma DeletingAccounts(s: State)
    requires Accounted(s) && s.current in s.versions && s.flush.NoFlush?
    requires s.manifest.files == s.versions[s.current].files
    requires s.compaction.NoCompaction? || (s.compaction.Working? && s.compaction.outputs <= s.pending
                                            && s.compaction.taken <= s.versions[s.current].files)
    ensures Accounted(DeleteObsolete(s))
  {
    hide Content;
    DeletingLeaves(s, s.current);
    if s.compaction.Working? {
      SameContent(s.tables, DeleteObsolete(s).tables, s.compaction.taken);
      SameContent(s.tables, DeleteObsolete(s).tables, s.compaction.outputs);
    }
  }

  lemma FlushAccounts(s: State)
    requires Inv(s) && s.flush.FlushLogged? && Counted(FinishFlush(s))
    ensures Accounted(DeleteObsolete(FinishFlush(s)))
  {
    hide Counted, LogsHold, Content, DeleteObsolete, Unref;
    DeletingAccounts(FinishFlush(s));
  }

  lemma CompactionAccounts(s: State)
    requires Inv(s) && s.compaction.CompactionLogged? && Counted(FinishCompaction(s))
    ensures Accounted(FinishCompaction(s)) && Accounted(DeleteObsolete(FinishCompaction(s)))
  {
    hide Counted, LogsHold, Content, DeleteObsolete, Unref;
    var t, u := FinishCompaction(s), AppendVersion(s, s.compaction.files);
    UnrefLeaves(u, s.compaction.input);
    CurrentIsListed(t);
    assert FilesOf(t, t.current) == FilesOf(u, u.current) == s.compaction.files;
    DeletingAccounts(t);
  }

  lemma ReopenAccounts(s: State, immLeft: nat, logLeft: nat)
    requires Inv(s)
    ensures Accounted(Reopen(s, immLeft, logLeft))
  {
    hide Counted, LogsHold, Content, Torn, Replay, MarkUsed, DeleteObsolete, TablesExist;
    var logs := Torn(s, immLeft, logLeft);
    var replayed := Replay(logs, s.manifest.log, s.nextFile);
    var n := MarkUsed(s.manifest.nextFile + 1, logs, s.manifest.log, s.nextFile);
    MarksAllLogs(s.manifest.nextFile + 1, logs, s.manifest.log, s.nextFile);
    ContentWith(s.tables, s.manifest.files, n, SetOf(replayed));
    assert SetOf(s.manifest.flushed + replayed) == SetOf(s.manifest.flushed) + SetOf(replayed);
    assert replayed == [] ==> s.manifest.files + {} == s.manifest.files && SetOf(replayed) == {};
    DeletingAccounts(Recovered(s, immLeft, logLeft));
  }

  /** Only compactions drop writes, and only such as are in the tables of the current version. */
  lemma OnlyCompactionsDrop(s: State, step: Step)
    requires Inv(s) && Enabled(s, step)
    ensures var dropped := Next(s, step).manifest.dropped;
            && s.manifest.dropped <= dropped
            && (dropped != s.manifest.dropped ==> step.CommitCompaction?)
            && dropped - s.manifest.dropped <= Content(s.tables, FilesOf(s, s.current))
  {
    hide Counted, LogsHold, TablesExist, Phases, Numbered, Content, LiveFiles, Torn, Replay, MarkUsed, Ref, Unref;
  }

  lemma StepKeepsInv(s: State, step: Step)
    requires Inv(s) && Enabled(s, step)
    ensures Inv(Next(s, step))
  {
    hide Counted, Phases, TablesExist, LogsHold, Named, Numbered, Accounted, Next;
    CountedKept(s, step);
    NamesKept(s, step);
    AccountedKept(s, step);
    NumbersKept(s, step);
    PhasesKept(s, step);
    TablesKept(s, step);
    LogsKept(s, step);
  }

  // ---- whole runs -----------------------------------------------------------------------------------

  /** The steps lead from s to t, each of them taken where it can be. */
  ghost predicate Leads(s: State, steps: seq<Step>, t: State)
    decreases |steps|
  {
    if steps == [] then s == t
    else Enabled(s, steps[0]) && Leads(Next(s, steps[0]), steps[1..], t)
  }

  lemma {:induction false} RunKeepsInv(s: State, steps: seq<Step>, t: State)
    requires Inv(s) && Leads(s, steps, t)
    ensures Inv(t)
    decreases |steps|
  {
    hide Inv, Next;
    if steps != [] {
      StepKeepsInv(s, steps[0]);
      RunKeepsInv(Next(s, steps[0]), steps[1..], t);
    }
  }

  lemma InitialHolds()
    ensures Inv(Initial())
  {
    var s := Initial();
    assert forall id :: Holders(s, id) == One(id == 0);
  }

  /** In an undamaged log directory, recovery replays the writes in memory, once each and in order. */
  lemma ReplayIsUnflushed(s: State)
    requires LogsHold(s)
    ensures Replay(s.logs, s.manifest.log, s.nextFile) == Unflushed(s)
  {
    hide Replay;
    if s.imm.Some? && !s.flush.FlushLogged? {
      ReplayTwo(s.logs, s.manifest.log, s.immLog, s.logFile, s.nextFile);
    } else {
      ReplayOne(s.logs, s.manifest.log, s.logFile, s.nextFile);
    }
  }

  /** Only these two logs have numbers from the least one on. */
  lemma ReplayTwo(logs: map<nat, seq<WriteId>>, min: nat, older: nat, newer: nat, limit: nat)
    requires 0 !in logs && older in logs && newer in logs && min <= older < newer < limit
    requires forall n :: n in logs && min <= n < limit ==> n == older || n == newer
    ensures Replay(logs, min, limit) == logs[older] + logs[newer]
  {
    hide Replay;
    ReplayOne(logs, min, older, newer);
    ReplayTakes(logs, min, newer);
    ReplaySkips(logs, min, newer + 1, limit);
  }

  lemma ReplayOne(logs: map<nat, seq<WriteId>>, min: nat, newer: nat, limit: nat)
    requires 0 !in logs && newer in logs && min <= newer < limit
    requires forall n :: n in logs && min <= n < limit ==> n == newer
    ensures Replay(logs, min, limit) == logs[newer]
  {
    hide Replay;
    ReplaySkips(logs, min, 0, newer);
    ReplayTakes(logs, min, newer);
    ReplaySkips(logs, min, newer + 1, limit);
    ReplayNothing(logs, min, newer);
  }

  lemma ReplayTakes(logs: map<nat, seq<WriteId>>, min: nat, n: nat)
    requires n in logs && min <= n
    ensures Replay(logs, min, n + 1) == Replay(logs, min, n) + logs[n]
  {
  }

  lemma ReplayNothing(logs: map<nat, seq<WriteId>>, min: nat, n: nat)
    requires n in logs
    ensures Replay(logs, min, 0) == [] && [] + logs[n] == logs[n]
  {
  }

  lemma {:induction false} ReplaySkips(logs: map<nat, seq<WriteId>>, min: nat, from: nat, to: nat)
    requires from <= to && 0 !in logs
    requires forall n :: from <= n < to && n in logs ==> n < min
    ensures Replay(logs, min, to) == Replay(logs, min, from)
  {
    if from < to {
      ReplaySkips(logs, min, from, to - 1);
    }
  }

  /** Opening the database again: what the tables of the manifest do not have comes back from the logs, in order and
    * once each, up to where a crash has cut them; without damage, that is every write.
    */
  lemma ReopenRecovers(s: State, immLeft: nat, logLeft: nat)
    requires LogsHold(s)
    ensures var t := Reopen(s, immLeft, logLeft);
            var imm := if s.imm.Some? && !s.flush.FlushLogged? then s.imm.value else [];
            && t.written == t.manifest.flushed
            && t.written == s.manifest.flushed + (Cut(imm, immLeft) + Cut(s.mem + InFlight(s), logLeft))
            && (|imm| <= immLeft && |s.mem + InFlight(s)| <= logLeft ==> t.written == s.written)
  {
    TornReplay(s, immLeft, logLeft);
    var imm := if s.imm.Some? && !s.flush.FlushLogged? then s.imm.value else [];
    assert imm + s.mem + InFlight(s) == imm + (s.mem + InFlight(s));
  }

  lemma TornReplay(s: State, immLeft: nat, logLeft: nat)
    requires LogsHold(s)
    ensures var imm := if s.imm.Some? && !s.flush.FlushLogged? then s.imm.value else [];
            Replay(Torn(s, immLeft, logLeft), s.manifest.log, s.nextFile)
            == Cut(imm, immLeft) + Cut(s.mem + InFlight(s), logLeft)
  {
    hide Replay, Cut;
    var min, logs := s.manifest.log, Torn(s, immLeft, logLeft);
    if s.imm.Some? && !s.flush.FlushLogged? {
      ReplayTwo(logs, min, s.immLog, s.logFile, s.nextFile);
    } else {
      ReplayOne(logs, min, s.logFile, s.nextFile);
      CutNothing(immLeft, Cut(s.mem + InFlight(s), logLeft));
    }
  }

  lemma CutNothing(left: nat, log: seq<WriteId>)
    ensures Cut([], left) + log == log
  {
  }

  /** Wherever a run has got to: the versions held by anyone, the outputs under construction and the
    * manifest's tables are all there, no file to come takes the number of one of them, and nobody lets
    * go of a version that is gone.  The current version and the memtables have every write, but for those
    * that a compaction has dropped.  If the process dies here, so have the manifest's tables and the logs
    * that recovery replays; and the run may have been through that any number of times.
    */
  lemma RunIsSafe(steps: seq<Step>, s: State, next: Step)
    requires Leads(Initial(), steps, s) && Enabled(s, next)
    ensures forall id :: Holders(s, id) > 0 ==> id in s.versions && s.versions[id].files <= s.tables.Keys
    ensures !s.compaction.NoCompaction? ==> s.compaction.outputs <= s.tables.Keys
    ensures s.manifest.files <= s.tables.Keys
    ensures forall id :: Holders(s, id) > 0 ==> Below(s.versions[id].files, s.nextFile)
    ensures Below(s.manifest.files, s.nextFile) && forall n :: n in s.logs ==> n < s.nextFile
    ensures Below(s.tables.Keys, s.nextFile) && s.tables.Keys !! s.logs.Keys
    ensures s.written == s.manifest.flushed + Replay(s.logs, s.manifest.log, s.nextFile)
    ensures Content(s.tables, s.manifest.files) + s.manifest.dropped == SetOf(s.manifest.flushed)
    ensures !s.flush.FlushLogged?
            ==> Content(s.tables, FilesOf(s, s.current)) + s.manifest.dropped == SetOf(s.manifest.flushed)
    ensures Content(s.tables, FilesOf(s, s.current)) + s.manifest.dropped + SetOf(Imm(s) + s.mem + InFlight(s))
            == SetOf(s.written)
    ensures Sound(s, next)
  {
    hide Content, Counted, Replay, Holders, Unflushed;
    InitialHolds();
    RunKeepsInv(Initial(), steps, s);
    ReplayIsUnflushed(s);
    AllAreHeld(s);
    HeldAreListed(s);
    IsSound(s, next);
  }

  lemma HeldAreListed(s: State)
    requires Counted(s)
    ensures forall id :: Holders(s, id) > 0 <==> id in s.versions
  {
    var h := (id: nat) => Holders(s, id);
    assert forall id :: id in s.versions <==> h(id) > 0;
  }

  lemma IsSound(s: State, next: Step)
    requires Counted(s) && Phases(s) && Enabled(s, next)
    ensures Sound(s, next)
  {
    HeldAreListed(s);
  }

  lemma AllAreHeld(s: State)
    requires LogsHold(s) && Accounted(s)
    ensures Content(s.tables, FilesOf(s, s.current)) + s.manifest.dropped + SetOf(Imm(s) + s.mem + InFlight(s))
            == SetOf(s.written)
  {
    hide Content;
    var rest := s.mem + InFlight(s);
    assert SetOf(Imm(s) + s.mem + InFlight(s)) == SetOf(Imm(s)) + SetOf(rest);
    if s.flush.FlushLogged? {
      assert Unflushed(s) == rest;
      assert SetOf(s.manifest.flushed + rest) == SetOf(s.manifest.flushed) + SetOf(rest);
    } else {
      assert Unflushed(s) == Imm(s) + rest;
      assert SetOf(s.manifest.flushed + (Imm(s) + rest)) == SetOf(s.manifest.flushed) + (SetOf(Imm(s)) + SetOf(rest));
    }
  }

  /** How far the background work is from its end. */
  function WorkLeft(s: State): nat {
    var flush := match s.flush {
      case NoFlush => if s.imm.Some? then 4 else 0
      case Building(_, _) => 3
      case FlushLogging(_, _, _, _) => 2
      case FlushLogged(_, _) => 1
    };
    var compaction := match s.compaction {
      case NoCompaction => 0
      case Working(_, _, _) => 3
      case CompactionLogging(_, _, _, _, _) => 2
      case CompactionLogged(_, _, _) => 1
    };
    5 * compaction + flush
  }

  /** The background work never gets stuck: from wherever a run has got to, it can go on to where nothing is left to be
    * flushed and no compaction is under way.
    */
  lemma {:induction false} CanSettle(s: State) returns (steps: seq<Step>, t: State)
    requires Inv(s)
    ensures Leads(s, steps, t) && t.imm.None? && t.flush.NoFlush? && t.compaction.NoCompaction?
    decreases WorkLeft(s)
  {
    if WorkLeft(s) == 0 {
      steps, t := [], s;
    } else {
      var step := NextOfWork(s);
      StepKeepsInv(s, step);
      steps, t := CanSettle(Next(s, step));
      LeadsOneMore(s, step, steps, t);
      steps := [step] + steps;
    }
  }

  lemma LeadsOneMore(s: State, step: Step, steps: seq<Step>, t: State)
    requires Enabled(s, step) && Leads(Next(s, step), steps, t)
    ensures Leads(s, [step] + steps, t)
  {
    hide Next, Enabled;
    assert ([step] + steps)[1..] == steps;
  }

  lemma NextOfWork(s: State) returns (step: Step)
    requires Inv(s) && WorkLeft(s) > 0
    ensures Enabled(s, step) && WorkLeft(Next(s, step)) < WorkLeft(s)
  {
    hide Inv, Next, Enabled, WorkLeft;
    if !s.flush.NoFlush? {
      step := NextOfFlush(s);
    } else {
      step := NextOfCompaction(s);
    }
  }

  lemma NextOfFlush(s: State) returns (step: Step)
    requires Inv(s) && !s.flush.NoFlush?
    ensures Enabled(s, step) && WorkLeft(Next(s, step)) < WorkLeft(s)
  {
    hide Counted, LogsHold, TablesExist, Named, Numbered, Accounted, Content, DeleteObsolete, Ref, Unref, AppendVersion;
    DeletingIsNoWork(FinishFlush(s));
    match s.flush {
      case Building(_, _) => step := Step.EndBuild(s.imm == Some([]));
      case FlushLogging(_, _, _, _) => step := Step.CommitFlush;
      case FlushLogged(_, _) => step := Step.InstallFlush;
    }
  }

  lemma NextOfCompaction(s: State) returns (step: Step)
    requires Inv(s) && s.flush.NoFlush? && WorkLeft(s) > 0
    ensures Enabled(s, step) && WorkLeft(Next(s, step)) < WorkLeft(s)
  {
    hide Counted, LogsHold, TablesExist, Named, Numbered, Content, DeleteObsolete, Ref, Unref, AppendVersion;
    DeletingIsNoWork(FinishCompaction(s));
    if s.compaction.CompactionLogging? {
      step := Step.CommitCompaction;
    } else if s.compaction.CompactionLogged? {
      step := Step.InstallCompaction;
    } else if s.imm.Some? {
      step := Step.StartFlush;
    } else {
      step := Step.LogCompaction(Content(s.tables, s.compaction.taken) - Content(s.tables, s.compaction.outputs));
    }
  }

  lemma DeletingIsNoWork(s: State)
    ensures WorkLeft(DeleteObsolete(s)) == WorkLeft(s)
  {
    hide LiveFiles;
  }

  /** Of the logs, collecting leaves just those of the memtables, as they are. */
  lemma CollectsLogsExactly(steps: seq<Step>, s: State)
    requires Leads(Initial(), steps, s)
    ensures var logs := DeleteObsolete(s).logs;
            && logs.Keys == {s.logFile} + (if s.imm.Some? then {s.immLog} else {})
            && forall n :: n in logs ==> n in s.logs && logs[n] == s.logs[n]
  {
    hide Counted, Content, Accounted;
    InitialHolds();
    RunKeepsInv(Initial(), steps, s);
  }

  /** Collecting keeps a table exactly when a held version lists it or a compaction is writing it. */
  lemma CollectsExactly(steps: seq<Step>, s: State, n: nat)
    requires Leads(Initial(), steps, s)
    ensures n in DeleteObsolete(s).tables
            <==> n in s.tables && (n in s.pending || exists id :: Holders(s, id) > 0 && n in FilesOf(s, id))
  {
    InitialHolds();
    RunKeepsInv(Initial(), steps, s);
    HeldAreListed(s);
  }

  // ---- one run ----------------------------------------------------------------------------------------

  /** A step that can be taken. */
  ghost predicate Takes(s: State, step: Step, t: State) {
    Enabled(s, step) && t == Next(s, step)
  }

  function Logged(): State {
    Initial().(logs := map[1 := [7]], inFlight := Some(7), written := [7])
  }

  function Applied(): State {
    Logged().(mem := [7], inFlight := None)
  }

  function Switched(): State {
    Applied().(logs := map[1 := [7], 2 := []], logFile := 2, nextFile := 3, mem := [], imm := Some([7]), immLog := 1)
  }

  function Flushing(): State {
    Switched().(versions := map[0 := LiveVersion({}, 2)], pending := {3}, nextFile := 4, flush := Building(3, 0))
  }

  function Built(): State {
    Flushing().(tables := map[3 := {7}], versions := map[0 := LiveVersion({}, 1)], pending := {},
                flush := FlushLogging({3}, 2, [7], 4))
  }

  function Committed3(): State {
    Built().(manifest := Manifest({3}, 2, [7], {}, 4), flush := FlushLogged({3}, 2))
  }

  function Flushed(): State {
    Committed3().(logs := map[2 := []], versions := map[1 := LiveVersion({3}, 1)], current := 1, nextVersion := 2,
                  logNumber := 2, imm := None, flush := NoFlush)
  }

  /** A write is logged, applied and flushed: it ends in table 3, and its log is gone. */
  lemma AFlush()
    ensures Takes(Initial(), Step.LogWrite(7), Logged()) && Takes(Logged(), Step.ApplyWrite, Applied())
    ensures Takes(Applied(), Step.SwitchMemTable, Switched()) && Takes(Switched(), Step.StartFlush, Flushing())
    ensures Takes(Flushing(), Step.EndBuild(false), Built()) && Takes(Built(), Step.CommitFlush, Committed3())
    ensures Takes(Committed3(), Step.InstallFlush, Flushed())
  {
    AWrite();
    ABuild();
    AnInstall();
  }

  lemma AWrite()
    ensures Takes(Initial(), Step.LogWrite(7), Logged()) && Takes(Logged(), Step.ApplyWrite, Applied())
    ensures Takes(Applied(), Step.SwitchMemTable, Switched()) && Takes(Switched(), Step.StartFlush, Flushing())
  {
    var none: seq<WriteId> := [];
    assert none + [7] == [7];
  }

  lemma ABuild()
    ensures Takes(Flushing(), Step.EndBuild(false), Built()) && Takes(Built(), Step.CommitFlush, Committed3())
  {
    hide SetOf, Content;
    SetOfOne(7);
    var none: seq<WriteId>, files: set<nat> := [], {};
    assert none + [7] == [7] && files + {3} == {3};
  }

  lemma AnInstall()
    ensures Takes(Committed3(), Step.InstallFlush, Flushed())
  {
    hide LiveFiles, Content;
    var u := FinishFlush(Committed3());
    assert u.versions == map[1 := LiveVersion({3}, 1)];
    LiveOfOne(u, 1);
  }

  lemma SetOfOne(w: WriteId)
    ensures SetOf([w]) == {w}
  {
    assert [w][0] == w;
  }

  lemma LiveOfOne(s: State, id: nat)
    requires s.pending == {} && s.versions.Keys == {id}
    ensures LiveFiles(s) == s.versions[id].files
  {
    assert id in s.versions;
  }

  function Compacting(): State {
    Flushed().(versions := map[1 := LiveVersion({3}, 2)], compaction := Working(1, {3}, {}))
  }

  function Merging(): State {
    Compacting().(tables := map[3 := {7}, 4 := {7}], pending := {4}, nextFile := 5, compaction := Working(1, {3}, {4}))
  }

  function Merged(): State {
    Merging().(compaction := CompactionLogging(1, {4}, {4}, {}, 5))
  }

  function Committed4(): State {
    Merged().(manifest := Manifest({4}, 2, [7], {}, 5), compaction := CompactionLogged(1, {4}, {4}))
  }

  function Compacted(): State {
    Committed4().(tables := map[4 := {7}], versions := map[2 := LiveVersion({4}, 1)], current := 2, nextVersion := 3,
                  pending := {}, compaction := NoCompaction)
  }

  /** That table, which is the whole version, is compacted into table 4. */
  lemma ACompaction()
    ensures Takes(Flushed(), Step.StartCompaction({3}), Compacting()) && Takes(Compacting(), Step.OpenOutput({7}), Merging())
    ensures Takes(Merging(), Step.LogCompaction({}), Merged()) && Takes(Merged(), Step.CommitCompaction, Committed4())
    ensures Takes(Committed4(), Step.InstallCompaction, Compacted())
  {
    AMerge();
    ALog();
    AnEnd();
  }

  lemma AMerge()
    ensures Takes(Flushed(), Step.StartCompaction({3}), Compacting()) && Takes(Compacting(), Step.OpenOutput({7}), Merging())
  {
    hide Content;
    var tables: Tables, none: set<nat> := map[3 := {7}], {};
    ContentOfOne(tables, 3);
    assert tables[4 := {7}] == map[3 := {7}, 4 := {7}] && none + {4} == {4};
  }

  lemma ALog()
    ensures Takes(Merging(), Step.LogCompaction({}), Merged()) && Takes(Merged(), Step.CommitCompaction, Committed4())
  {
    hide Content;
    var tables: Tables := map[3 := {7}, 4 := {7}];
    ContentOfOne(tables, 3);
    ContentOfOne(tables, 4);
    var files: set<nat>, writes: set<WriteId> := {3}, {7};
    assert files - {3} + {4} == {4} && writes + {} == writes;
  }

  lemma AnEnd()
    ensures Takes(Committed4(), Step.InstallCompaction, Compacted())
  {
    hide LiveFiles, Content, AppendVersion, Unref;
    var s := Committed4();
    AppendToOne(s, {4});
    LastLetGo(AppendVersion(s, {4}), {4});
    LiveOfOne(FinishCompaction(s), 2);
  }

  lemma AppendToOne(s: State, files: set<nat>)
    requires s.versions == map[1 := LiveVersion({3}, 2)] && s.current == 1 && s.nextVersion == 2
    ensures AppendVersion(s, files).versions == map[1 := LiveVersion({3}, 1), 2 := LiveVersion(files, 1)]
  {
  }

  lemma LastLetGo(s: State, files: set<nat>)
    requires s.versions == map[1 := LiveVersion({3}, 1), 2 := LiveVersion(files, 1)]
    ensures Unref(s, 1).versions == map[2 := LiveVersion(files, 1)]
  {
  }

  function Moving(): State {
    Flushed().(versions := map[1 := LiveVersion({3}, 2)], compaction := Working(1, {}, {}))
  }

  function MoveLogged(): State {
    Moving().(compaction := CompactionLogged(1, {}, {3}))
  }

  function Moved(): State {
    Flushed().(versions := map[2 := LiveVersion({3}, 1)], current := 2, nextVersion := 3)
  }

  /** Moving it to the next level instead leaves the same tables, in a new version. */
  lemma AMove()
    ensures Takes(Flushed(), Step.StartCompaction({}), Moving())
    ensures Takes(Moving(), Step.LogCompaction({}), Moving().(compaction := CompactionLogging(1, {}, {3}, {}, 4)))
    ensures Takes(Moving().(compaction := CompactionLogging(1, {}, {3}, {}, 4)), Step.CommitCompaction, MoveLogged())
    ensures Takes(MoveLogged(), Step.InstallMove, Moved())
  {
    AMoveBegins();
    AMoveEnds();
  }

  lemma AMoveBegins()
    ensures Takes(Flushed(), Step.StartCompaction({}), Moving())
    ensures Takes(Moving(), Step.LogCompaction({}), Moving().(compaction := CompactionLogging(1, {}, {3}, {}, 4)))
    ensures Takes(Moving().(compaction := CompactionLogging(1, {}, {3}, {}, 4)), Step.CommitCompaction, MoveLogged())
  {
    var files: set<nat>, writes: set<WriteId> := {3}, {};
    assert files - {} + {} == files && writes + {} == writes;
    assert Content(Moving().tables, {}) == {};
  }

  lemma AMoveEnds()
    ensures Takes(MoveLogged(), Step.InstallMove, Moved())
  {
    hide Content, AppendVersion, Unref;
    AppendToOne(MoveLogged(), {3});
    LastLetGo(AppendVersion(MoveLogged(), {3}), {3});
  }

  // ---- the loop over the directory ------------------------------------------------------------------

  datatype FileName =
    | LogFile(number: nat)
    | DescriptorFile(number: nat)
    | TableFile(number: nat)
    | TempFile(number: nat)
    | CurrentFile
    | DBLockFile
    | InfoLogFile

  /** DeleteObsoleteFiles over the names that GetChildren found, which are those of all tables and logs, and others. */
  method DeleteObsoleteFiles(s: State, names: seq<FileName>, manifestNumber: nat) returns (deleted: set<FileName>)
    requires forall n: nat :: TableFile(n) in names <==> n in s.tables
    requires forall n: nat :: LogFile(n) in names <==> n in s.logs
    ensures forall n: nat :: TableFile(n) in deleted <==> n in s.tables && n !in DeleteObsolete(s).tables
    ensures forall n: nat :: LogFile(n) in deleted <==> n in s.logs && n !in DeleteObsolete(s).logs
    ensures forall n: nat :: DescriptorFile(n) in deleted <==> DescriptorFile(n) in names && n < manifestNumber
    ensures forall n: nat :: TempFile(n) in deleted <==> TempFile(n) in names && n !in LiveFiles(s)
    ensures CurrentFile !in deleted && DBLockFile !in deleted && InfoLogFile !in deleted
  {
    var live := LiveFiles(s);
    deleted := {};
    for i := 0 to |names|
      invariant forall f :: f in deleted ==> f in names[..i]
      invariant forall j :: 0 <= j < i ==> (names[j] in deleted <==> Unneeded(s, names[j], manifestNumber))
    {
      var keep := match names[i] {
        case LogFile(n) => n >= s.logNumber || n == PREV_LOG_NUMBER
        case DescriptorFile(n) => n >= manifestNumber
        case TableFile(n) => n in live
        case TempFile(n) => n in live
        case _ => true
      };
      if !keep {
        deleted := deleted + {names[i]};
      }
    }
    assert forall f :: f in deleted <==> f in names && Unneeded(s, f, manifestNumber);
  }

  predicate Unneeded(s: State, f: FileName, manifestNumber: nat) {
    match f
    case LogFile(n) => !KeepsLog(s, n)
    case DescriptorFile(n) => n < manifestNumber
    case TableFile(n) => n !in LiveFiles(s)
    case TempFile(n) => n !in LiveFiles(s)
    case _ => false
  }
}
