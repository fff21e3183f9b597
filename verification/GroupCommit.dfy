/** The writer queue (db/db_impl.cc): the writer at the front logs and applies a group of batches,
  * and recovery rebuilds the memtable from the logged records.
  */
module GroupCommit {
  import opened InternalKeys
  import opened Sequences
  import opened Coding
  import opened LogFormat
  import opened LogReader
  import opened LogRoundTrip
  import opened WriteBatches

  datatype Writer = Writer(batch: Option<WriteBatch>, sync: bool)

  /** An operation as MemTableInserter hands it to the memtable. */
  datatype Applied = Applied(op: Op, seqno: nat)

  function Number(ops: seq<Op>, first: nat): seq<Applied> {
    seq(|ops|, i requires 0 <= i < |ops| => Applied(ops[i], first + i))
  }

  lemma NumberAppends(a: seq<Op>, b: seq<Op>, first: nat)
    ensures Number(a + b, first) == Number(a, first) + Number(b, first + |a|)
  {
  }

  // ---- recovery -------------------------------------------------------------------------------------

  /** What replaying some records has come to; `paranoid` makes a bad record fatal. */
  datatype Recovered = Recovered(mem: seq<Applied>, maxSequence: nat, ok: bool)

  /** In 64-bit arithmetic. */
  function LastSequence(record: Bytes): nat
    requires |record| >= HEADER
  {
    (Sequence(record) + Count(record) - 1) % TWO_TO_64
  }

  function ReplayRecord(r: Recovered, record: Bytes, paranoid: bool): Recovered {
    if !r.ok then r
    else if |record| < HEADER then r.(ok := !paranoid)
    else
      var it := ParseBatch(record);
      var mem := r.mem + Number(it.ops, Sequence(record));
      if it.status != OK && paranoid then Recovered(mem, r.maxSequence, false)
      else
        var last := LastSequence(record);
        Recovered(mem, if last > r.maxSequence then last else r.maxSequence, true)
  }

  /** Replaying the first n records of a log, after what has been recovered so far. */
  function Replay(start: Recovered, records: seq<Bytes>, n: nat, paranoid: bool): Recovered
    requires n <= |records|
  {
    if n == 0 then start
    else ReplayRecord(Replay(start, records, n - 1, paranoid), records[n - 1], paranoid)
  }

  /** RecoverLogFile, as far as entries and sequence numbers are concerned: `start.maxSequence` is *max_sequence
    * on entry.
    */
  method RecoverLogFile(start: Recovered, records: seq<Bytes>, paranoid: bool) returns (r: Recovered)
    requires start.ok
    ensures r == Replay(start, records, |records|, paranoid)
  {
    hide ParseBatch, Number, Sequence, Count, LastSequence;
    var mem, maxSequence, ok := start.mem, start.maxSequence, true;
    var i := 0;
    while i < |records| && ok
      invariant i <= |records|
      invariant Recovered(mem, maxSequence, ok) == Replay(start, records, i, paranoid)
    {
      var record := records[i];
      i := i + 1;
      if |record| < HEADER {
        ok := !paranoid;
        continue;
      }
      var ops, status := Iterate(record);
      mem := mem + Number(ops, Sequence(record));
      if status != OK && paranoid {
        ok := false;
        break;
      }
      var last := LastSequence(record);
      if last > maxSequence {
        maxSequence := last;
      }
    }
    FailureSticks(start, records, i, |records|, paranoid);
    r := Recovered(mem, maxSequence, ok);
  }

  lemma {:induction false} FailureSticks(start: Recovered, records: seq<Bytes>, i: nat, n: nat, paranoid: bool)
    requires i <= n <= |records| && (i == n || !Replay(start, records, i, paranoid).ok)
    ensures Replay(start, records, n, paranoid) == Replay(start, records, i, paranoid)
    decreases n
  {
    if i < n {
      FailureSticks(start, records, i, n - 1, paranoid);
    }
  }

  lemma {:induction false} ReplaySame(start: Recovered, a: seq<Bytes>, b: seq<Bytes>, n: nat, paranoid: bool)
    requires n <= |a| && n <= |b| && forall i :: 0 <= i < n ==> a[i] == b[i]
    ensures Replay(start, a, n, paranoid) == Replay(start, b, n, paranoid)
  {
    if n > 0 {
      ReplaySame(start, a, b, n - 1, paranoid);
    }
  }

  /** Replaying the first n logs, oldest first. */
  function ReplayLogs(start: Recovered, logs: seq<seq<Bytes>>, n: nat, paranoid: bool): Recovered
    requires n <= |logs|
  {
    if n == 0 then start
    else Replay(ReplayLogs(start, logs, n - 1, paranoid), logs[n - 1], |logs[n - 1]|, paranoid)
  }

  /** The part of DBImpl::Recover that goes through the logs: the first failure ends it, otherwise the last sequence
    * number of the manifest is raised to the largest one found.
    */
  method RecoverLogs(logs: seq<seq<Bytes>>, manifestLast: nat, paranoid: bool) returns (r: Recovered, last: nat)
    ensures r == ReplayLogs(Recovered([], 0, true), logs, |logs|, paranoid)
    ensures last == if r.ok && r.maxSequence > manifestLast then r.maxSequence else manifestLast
  {
    hide ReplayRecord;
    r := Recovered([], 0, true);
    last := manifestLast;
    for i := 0 to |logs|
      invariant r.ok && last == manifestLast && r == ReplayLogs(Recovered([], 0, true), logs, i, paranoid)
    {
      r := RecoverLogFile(r, logs[i], paranoid);
      if !r.ok {
        FailedLogSticks(Recovered([], 0, true), logs, i + 1, |logs|, paranoid);
        return;
      }
    }
    if last < r.maxSequence {
      last := r.maxSequence;
    }
  }

  lemma {:induction false} FailedLogSticks(start: Recovered, logs: seq<seq<Bytes>>, i: nat, n: nat, paranoid: bool)
    requires i <= n <= |logs| && !ReplayLogs(start, logs, i, paranoid).ok
    ensures ReplayLogs(start, logs, n, paranoid) == ReplayLogs(start, logs, i, paranoid)
    decreases n
  {
    hide ReplayRecord;
    if i < n {
      FailedLogSticks(start, logs, i, n - 1, paranoid);
      FailureSticks(ReplayLogs(start, logs, n - 1, paranoid), logs[n - 1], 0, |logs[n - 1]|, paranoid);
    }
  }

  /** A record that holds the given operations under the given sequence numbers. */
  ghost predicate IsBatch(record: Bytes, ops: seq<Op>, first: nat) {
    && |record| >= HEADER && ParseBatch(record) == Iterated(ops, OK)
    && Sequence(record) == first && Count(record) == |ops|
  }

  lemma BuiltIsBatch(batch: WriteBatch)
    requires batch.Valid()
    ensures IsBatch(batch.rep, batch.ops, Sequence(batch.rep))
  {
    BuiltBatchReadsBack(batch);
    DecodeEncodeFixed32(|batch.ops|);
  }

  lemma BatchOpens(record: Bytes, ops: seq<Op>, first: nat)
    requires IsBatch(record, ops, first)
    ensures |record| >= HEADER && ParseBatch(record) == Iterated(ops, OK)
    ensures Sequence(record) == first && Count(record) == |ops|
  {
  }

  /** A log file: the last sequence number before it was opened, and the groups in it, one record for each. */
  datatype LogFile = LogFile(base: nat, groups: seq<seq<Op>>, records: seq<Bytes>)

  function OpsOf(f: LogFile): seq<Op> {
    Concat(f.groups, |f.groups|)
  }

  function LastOf(f: LogFile): nat {
    f.base + |OpsOf(f)|
  }

  /** Each group was logged under the numbers that follow those of the groups before. */
  ghost predicate Logged(f: LogFile) {
    && |f.records| == |f.groups|
    && (forall i :: 0 <= i < |f.groups| ==> IsBatch(f.records[i], f.groups[i], f.base + |Concat(f.groups, i)| + 1))
    && LastOf(f) < MAX_SEQUENCE
  }

  /** And everything was applied once, in order, under the same numbers. */
  ghost predicate Accounts(f: LogFile, mem: seq<Applied>, last: nat) {
    Logged(f) && mem == Number(OpsOf(f), f.base + 1) && last == LastOf(f)
  }

  lemma AccountsExtends(f: LogFile, mem: seq<Applied>, last: nat, record: Bytes, ops: seq<Op>)
    requires Accounts(f, mem, last) && IsBatch(record, ops, last + 1) && last + |ops| < MAX_SEQUENCE
    ensures Accounts(LogFile(f.base, f.groups + [ops], f.records + [record]), mem + Number(ops, last + 1), last + |ops|)
  {
    hide IsBatch, Number, Concat;
    NumberAppends(OpsOf(f), ops, f.base + 1);
    ConcatOneMore(f.groups, ops);
    OneMoreBatch(f, record, ops);
  }

  lemma OneMoreBatch(f: LogFile, record: Bytes, ops: seq<Op>)
    requires |f.records| == |f.groups| && IsBatch(record, ops, f.base + |OpsOf(f)| + 1)
    requires forall i :: 0 <= i < |f.groups| ==> IsBatch(f.records[i], f.groups[i], f.base + |Concat(f.groups, i)| + 1)
    ensures var log', groups' := f.records + [record], f.groups + [ops];
            forall i :: 0 <= i < |groups'| ==> IsBatch(log'[i], groups'[i], f.base + |Concat(groups', i)| + 1)
  {
    hide IsBatch, Concat;
    var log', groups' := f.records + [record], f.groups + [ops];
    forall i | 0 <= i < |groups'| ensures IsBatch(log'[i], groups'[i], f.base + |Concat(groups', i)| + 1) {
      ConcatPrefix(f.groups, groups', i);
    }
  }

  lemma NewLog(base: nat)
    requires base < MAX_SEQUENCE
    ensures Accounts(LogFile(base, [], []), [], base)
  {
  }

  /** What the first k records of a log add to what has been recovered from older ones. */
  function WithGroups(start: Recovered, f: LogFile, k: nat): Recovered
    requires k <= |f.groups|
  {
    var ops := Concat(f.groups, k);
    Recovered(start.mem + Number(ops, f.base + 1), if k == 0 then start.maxSequence else f.base + |ops|, true)
  }

  /** Replaying the first k records rebuilds what the first k groups put into the memtable, and the
    * last sequence number they used.
    */
  lemma {:induction false} ReplayRebuilds(f: LogFile, k: nat, start: Recovered, paranoid: bool)
    requires Logged(f) && k <= |f.records| && start.ok && start.maxSequence <= f.base
    ensures Replay(start, f.records, k, paranoid) == WithGroups(start, f, k)
  {
    hide Number, ReplayRecord, Logged, Concat, WithGroups, IsBatch;
    if k > 0 {
      GroupLogged(f, k - 1);
      UpToBase(start, f, k - 1);
      ReplayRebuilds(f, k - 1, start, paranoid);
      OneMoreGroup(start, f, k);
      ReplayBatch(WithGroups(start, f, k - 1), f.records[k - 1], f.groups[k - 1], f.base + |Concat(f.groups, k - 1)| + 1,
                  paranoid);
    } else {
      NoGroups(start, f);
    }
  }

  lemma UpToBase(start: Recovered, f: LogFile, k: nat)
    requires k <= |f.groups| && start.maxSequence <= f.base
    ensures WithGroups(start, f, k).ok && WithGroups(start, f, k).maxSequence <= f.base + |Concat(f.groups, k)|
  {
  }

  lemma NoGroups(start: Recovered, f: LogFile)
    requires start.ok
    ensures WithGroups(start, f, 0) == start
  {
  }

  lemma GroupLogged(f: LogFile, i: nat)
    requires Logged(f) && i < |f.records|
    ensures |f.records| == |f.groups| && IsBatch(f.records[i], f.groups[i], f.base + |Concat(f.groups, i)| + 1)
    ensures f.base + |Concat(f.groups, i)| + |f.groups[i]| < MAX_SEQUENCE
  {
    hide IsBatch, Concat;
    ConcatGrows(f.groups, i + 1);
    NextGroup(f.groups, i);
  }

  lemma NextGroup<T>(parts: seq<seq<T>>, n: nat)
    requires n < |parts|
    ensures |Concat(parts, n + 1)| == |Concat(parts, n)| + |parts[n]|
  {
  }

  lemma OneMoreGroup(start: Recovered, f: LogFile, k: nat)
    requires 0 < k <= |f.groups|
    ensures var before := Concat(f.groups, k - 1);
            var r := WithGroups(start, f, k - 1);
            WithGroups(start, f, k) == Recovered(r.mem + Number(f.groups[k - 1], f.base + |before| + 1),
                                                 f.base + |before| + |f.groups[k - 1]|, true)
  {
    hide Number;
    var before := Concat(f.groups, k - 1);
    NumberAppends(before, f.groups[k - 1], f.base + 1);
    Assoc(start.mem, Number(before, f.base + 1), Number(f.groups[k - 1], f.base + 1 + |before|));
  }

  lemma NumberNothing(first: nat, mem: seq<Applied>)
    ensures Number([], first) == [] && mem + [] == mem
  {
  }

  lemma ReplayBatch(r: Recovered, record: Bytes, ops: seq<Op>, first: nat, paranoid: bool)
    requires r.ok && IsBatch(record, ops, first) && r.maxSequence < first && first + |ops| <= MAX_SEQUENCE
    ensures ReplayRecord(r, record, paranoid) == Recovered(r.mem + Number(ops, first), first - 1 + |ops|, true)
  {
    hide Number, ParseBatch;
  }

  /** A crash may cut a log file anywhere. */
  ghost function ReadLog(crc: Crc, f: LogFile, cut: nat): AllRecords
    requires cut <= |LogOf(crc, f.records)|
  {
    ReadAllFrom(crc, LogOf(crc, f.records)[..cut], ReadState(0, 0, false, 0))
  }

  /** Reading what is left of a log and replaying it, after older logs, gives the groups whose records are
    * complete, each of them whole, in order, and no more.
    */
  lemma TornLogRecovers(crc: Crc, f: LogFile, mem: seq<Applied>, last: nat, cut: nat, start: Recovered, paranoid: bool)
    requires Accounts(f, mem, last) && cut <= |LogOf(crc, f.records)|
    requires start.ok && start.maxSequence <= f.base
    ensures var k := CompleteRecords(crc, 0, f.records, cut);
            var read := ReadLog(crc, f, cut);
            && k <= |f.groups| && read.drops == 0
            && Replay(start, read.records, |read.records|, paranoid) == WithGroups(start, f, k)
            && Number(Concat(f.groups, k), f.base + 1) <= mem
            && (cut == |LogOf(crc, f.records)| ==> k == |f.groups|)
  {
    hide Accounts, Logged, LogFragments, Layout, WithGroups, Number;
    var k := CompleteRecords(crc, 0, f.records, cut);
    TornLogReadsBack(crc, f.records, cut);
    SameLength(f, mem, last);
    ReplayRebuilds(f, k, start, paranoid);
    ReplaySame(start, f.records, f.records[..k], k, paranoid);
    PrefixOfMem(f, mem, k);
    if cut == |LogOf(crc, f.records)| {
      AllComplete(crc, f.records, cut);
    }
  }

  lemma SameLength(f: LogFile, mem: seq<Applied>, last: nat)
    requires Accounts(f, mem, last)
    ensures |f.records| == |f.groups| && Logged(f) && mem == Number(OpsOf(f), f.base + 1)
  {
  }

  lemma PrefixOfMem(f: LogFile, mem: seq<Applied>, k: nat)
    requires mem == Number(OpsOf(f), f.base + 1) && k <= |f.groups|
    ensures Number(Concat(f.groups, k), f.base + 1) <= mem
  {
    hide Logged, Number, Concat;
    ConcatSplit(f.groups, k, |f.groups|);
    NumberAppends(Concat(f.groups, k), Concat(f.groups[k..], |f.groups| - k), f.base + 1);
  }

  // ---- several logs -------------------------------------------------------------------------------------

  /** Logs opened one after the other, each going on with the numbers of the one before. */
  ghost predicate Chain(files: seq<LogFile>) {
    && (forall f :: f in files ==> Logged(f))
    && forall i :: 0 < i < |files| ==> files[i].base == LastOf(files[i - 1])
  }

  ghost predicate Cuts(crc: Crc, files: seq<LogFile>, cuts: seq<nat>) {
    |cuts| == |files| && forall i :: 0 <= i < |files| ==> cuts[i] <= |LogOf(crc, files[i].records)|
  }

  ghost function ReadLogs(crc: Crc, files: seq<LogFile>, cuts: seq<nat>): (r: seq<seq<Bytes>>)
    requires Cuts(crc, files, cuts)
    ensures |r| == |files|
  {
    seq(|files|, i requires 0 <= i < |files| => ReadLog(crc, files[i], cuts[i]).records)
  }

  /** The complete groups of the first n logs. */
  ghost function Survivors(crc: Crc, files: seq<LogFile>, cuts: seq<nat>, n: nat, start: Recovered): (r: Recovered)
    requires Cuts(crc, files, cuts) && n <= |files| && (forall f :: f in files ==> |f.records| == |f.groups|)
  {
    if n == 0 then start
    else WithGroups(Survivors(crc, files, cuts, n - 1, start), files[n - 1],
                    CompleteRecords(crc, 0, files[n - 1].records, cuts[n - 1]))
  }

  lemma LoggedLengths(files: seq<LogFile>)
    requires forall f :: f in files ==> Logged(f)
    ensures forall f :: f in files ==> |f.records| == |f.groups|
  {
  }

  /** Whatever a crash has left of each log: replaying the logs in order, each after the ones before it, gives the
    * complete groups of each, under their numbers, and the number of the last one as the largest.
    */
  lemma {:induction false} TornLogsRecover(crc: Crc, files: seq<LogFile>, cuts: seq<nat>, n: nat, start: Recovered,
                                           paranoid: bool)
    requires Chain(files) && Cuts(crc, files, cuts) && n <= |files|
    requires start.ok && (files != [] ==> start.maxSequence <= files[0].base)
    ensures forall f :: f in files ==> |f.records| == |f.groups|
    ensures var r := Survivors(crc, files, cuts, n, start);
            && ReplayLogs(start, ReadLogs(crc, files, cuts), n, paranoid) == r
            && r.ok && (n < |files| ==> r.maxSequence <= files[n].base)
  {
    hide Logged, LogOf, CompleteRecords, ReadAllFrom, ReplayRecord, Number, Concat;
    LoggedLengths(files);
    if n > 0 {
      TornLogsRecover(crc, files, cuts, n - 1, start, paranoid);
      var f, before := files[n - 1], Survivors(crc, files, cuts, n - 1, start);
      var k := CompleteRecords(crc, 0, f.records, cuts[n - 1]);
      TornLogRecovers(crc, f, Number(OpsOf(f), f.base + 1), LastOf(f), cuts[n - 1], before, paranoid);
      ConcatGrows(f.groups, k);
    }
  }

  /** Logs that are all there give everything that was written, under consecutive numbers. */
  lemma {:induction false} WholeLogsRecover(crc: Crc, files: seq<LogFile>, cuts: seq<nat>, n: nat, start: Recovered)
    requires Chain(files) && Cuts(crc, files, cuts) && 0 < n <= |files|
    requires forall i :: 0 <= i < |files| ==> cuts[i] == |LogOf(crc, files[i].records)|
    ensures forall f :: f in files ==> |f.records| == |f.groups|
    ensures var r := Survivors(crc, files, cuts, n, start);
            && r.mem == start.mem + Number(AllOps(files, n), files[0].base + 1)
            && LastOf(files[n - 1]) == files[0].base + |AllOps(files, n)|
            && (files[n - 1].records != [] ==> r.maxSequence == LastOf(files[n - 1]))
  {
    hide Logged, LogOf, CompleteRecords, Number, Concat;
    LoggedLengths(files);
    var f, before := files[n - 1], Survivors(crc, files, cuts, n - 1, start);
    AllComplete(crc, f.records, cuts[n - 1]);
    var first := files[0].base + 1;
    if n == 1 {
      NumberNothing(first, start.mem);
      assert AllOps(files, 1) == [] + OpsOf(f) == OpsOf(f);
    } else {
      WholeLogsRecover(crc, files, cuts, n - 1, start);
      NumberAppends(AllOps(files, n - 1), OpsOf(f), first);
      Assoc(start.mem, Number(AllOps(files, n - 1), first), Number(OpsOf(f), f.base + 1));
    }
  }

  function AllOps(files: seq<LogFile>, n: nat): seq<Op>
    requires n <= |files|
  {
    if n == 0 then [] else AllOps(files, n - 1) + OpsOf(files[n - 1])
  }

  // ---- the queue --------------------------------------------------------------------------------------

  ghost function BatchesOf(writers: seq<Writer>): set<WriteBatch> {
    set w | w in writers && w.batch.Some? :: w.batch.value
  }

  /** What each writer wants written; nothing, if it only waits for its turn. */
  ghost function PartsOf(writers: seq<Writer>): (r: seq<seq<Op>>)
    reads BatchesOf(writers)
    ensures |r| == |writers|
  {
    seq(|writers|, i requires 0 <= i < |writers| reads BatchesOf(writers) =>
      assert writers[i] in writers;
      if writers[i].batch.Some? then writers[i].batch.value.ops else [])
  }

  ghost function SizesOf(writers: seq<Writer>): (r: seq<nat>)
    reads BatchesOf(writers)
    ensures |r| == |writers|
  {
    seq(|writers|, i requires 0 <= i < |writers| reads BatchesOf(writers) =>
      assert writers[i] in writers;
      if writers[i].batch.Some? then |writers[i].batch.value.rep| else 0)
  }

  class WriteQueue {
    var writers: seq<Writer>
    var lastSequence: nat
    const tmpBatch: WriteBatch

    /** The memtable and the records of its log; the same for the immutable memtable, if there is one. */
    var mem: seq<Applied>
    var log: seq<Bytes>
    var imm: Option<seq<Applied>>
    var immLog: seq<Bytes>

    /** The last sequence number at the start, the groups committed since, those of them that are in tables by now,
      * and all operations ever enqueued, in order.
      */
    ghost const first: nat
    ghost var groups: seq<seq<Op>>
    ghost var flushed: seq<seq<Op>>
    ghost var enqueued: seq<Op>

    /** The two logs with their groups. */
    ghost var current: LogFile
    ghost var previous: LogFile

    /** A database that was opened with a last sequence number, and has a new log. */
    constructor (last: nat)
      requires last < MAX_SEQUENCE
      ensures Valid() && writers == [] && enqueued == [] && log == [] && imm == None && fresh(tmpBatch)
      ensures lastSequence == first == last && groups == []
    {
      tmpBatch := new WriteBatch();
      writers, lastSequence, mem, log, imm, immLog := [], last, [], [], None, [];
      first, groups, flushed, enqueued := last, [], [], [];
      current, previous := LogFile(last, [], []), LogFile(0, [], []);
    }

    ghost function Batches(): set<WriteBatch>
      reads `writers
    {
      BatchesOf(writers)
    }

    ghost predicate Valid()
      reads this, tmpBatch, Batches()
    {
      && tmpBatch.Valid() && tmpBatch.ops == [] && tmpBatch !in Batches()
      && (forall b :: b in Batches() ==> b.Valid())
      && Committed() && first + |enqueued| < MAX_SEQUENCE
      && enqueued == CommittedOps() + Concat(Parts(), |writers|)
    }

    /** Every committed group is in a table, or in the log of the one memtable or the other. */
    ghost predicate Committed()
      reads this
    {
      && Accounts(current, mem, lastSequence) && log == current.records
      && (imm.Some? ==> Accounts(previous, imm.value, current.base) && immLog == previous.records)
      && groups == flushed + (if imm.Some? then previous.groups else []) + current.groups
      && lastSequence == first + |CommittedOps()|
    }

    ghost function CommittedOps(): seq<Op>
      reads `groups
    {
      Concat(groups, |groups|)
    }

    ghost function Parts(): (r: seq<seq<Op>>)
      reads `writers, Batches()
      ensures |r| == |writers|
    {
      PartsOf(writers)
    }

    ghost function Sizes(): (r: seq<nat>)
      reads `writers, Batches()
      ensures |r| == |writers|
    {
      SizesOf(writers)
    }

    /** Write up to the wait for the front of the queue. */
    method Enqueue(w: Writer)
      requires Valid() && (w.batch.Some? ==> w.batch.value.Valid() && w.batch.value != tmpBatch)
      requires w.batch.Some? ==> first + |enqueued| + |w.batch.value.ops| < MAX_SEQUENCE
      modifies this`writers, this`enqueued
      ensures Valid() && writers == old(writers) + [w]
      ensures enqueued == old(enqueued) + if w.batch.Some? then w.batch.value.ops else []
      ensures groups == old(groups) && log == old(log) && mem == old(mem) && imm == old(imm) && immLog == old(immLog)
    {
      hide WriteBatch.Valid, Accounts, Concat;
      ghost var parts, all := Parts(), writers;
      ghost var ops := if w.batch.Some? then w.batch.value.ops else [];
      writers := writers + [w];
      enqueued := enqueued + ops;
      assert Batches() == old(Batches()) + if w.batch.Some? then {w.batch.value} else {} by {
        forall b | b in old(Batches()) ensures b in Batches() {
          var x :| x in all && x.batch == Some(b);
          assert x in writers;
        }
        assert w in writers;
      }
      assert forall i :: 0 <= i < |all| ==> writers[i] == all[i];
      assert Parts() == parts + [ops];
      ConcatOneMore(parts, ops);
      Assoc(CommittedOps(), Concat(parts, |parts|), ops);
    }

    /** Why a group of n writers is not larger: it is the whole queue, or next comes a sync write
      * behind a leader that does not sync, or a batch too many.
      */
    ghost predicate EndsAt(n: nat, maxSize: nat)
      requires 0 < n <= |writers|
      reads `writers, Batches()
    {
      || n == |writers|
      || (writers[n].sync && !writers[0].sync)
      || (writers[n].batch.Some? && Sum(Sizes(), n + 1) > maxSize)
    }

    /** The group never grows past its limit, unless it is the leader's batch alone. */
    ghost predicate StaysBelow(n: nat, maxSize: nat)
      requires n <= |writers|
      reads `writers, Batches()
    {
      forall m :: 1 < m <= n && writers[m - 1].batch.Some? ==> Sum(Sizes(), m) <= maxSize
    }

    /** The waiting batches are as they were when the group was started. */
    ghost predicate Queued(parts: seq<seq<Op>>, sizes: seq<nat>)
      reads `writers, Batches()
    {
      && Parts() == parts && Sizes() == sizes
      && forall b :: b in Batches() ==> b.Valid()
    }

    lemma QueuedAt(parts: seq<seq<Op>>, sizes: seq<nat>, n: nat)
      requires Queued(parts, sizes) && n < |writers|
      ensures |parts| == |sizes| == |writers|
      ensures var b := writers[n].batch;
              if b.Some? then
                b.value in Batches() && b.value.Valid() && parts[n] == b.value.ops && sizes[n] == |b.value.rep|
                && |b.value.ops| <= |b.value.rep|
              else parts[n] == [] && sizes[n] == 0
    {
      assert writers[n] in writers;
      assert Parts()[n] == parts[n] && Sizes()[n] == sizes[n];
      if writers[n].batch.Some? {
        BatchFits(writers[n].batch.value);
      }
    }

    /** BuildBatchGroup: the batch to write, and how many writers it serves. */
    method BuildBatchGroup() returns (result: WriteBatch, n: nat)
      requires Valid() && writers != [] && writers[0].batch.Some?
      modifies tmpBatch
      ensures 0 < n <= |writers| && result.Valid() && result.ops == Concat(Parts(), n)
      ensures result == tmpBatch || (result == writers[0].batch.value && tmpBatch.ops == [])
      ensures tmpBatch.Valid() && (forall b :: b in Batches() ==> b.Valid())
      ensures Parts() == old(Parts())
      ensures !writers[0].sync ==> forall i :: 0 <= i < n ==> !writers[i].sync
      ensures var size := |writers[0].batch.value.rep|;
              var limit := if size <= 128 * 1024 then size + 128 * 1024 else 1024 * 1024;
              EndsAt(n, limit) && StaysBelow(n, limit)
    {
      hide WriteBatch.Valid, Committed, AllEncodable, Queued, Parts, Sizes, Concat, Sum;
      var first := writers[0].batch.value;
      result := first;
      ghost var parts, sizes := Parts(), Sizes();
      QueueStarts(parts, sizes);
      QueuedAt(parts, sizes, 0);
      var size := |first.rep|;
      var maxSize := if size <= 0x2_0000 then size + 0x2_0000 else 0x10_0000;
      n := 1;
      FirstPart(parts, sizes);
      while n < |writers|
        invariant 0 < n <= |writers| && size == Sum(sizes, n) && Queued(parts, sizes)
        invariant result == tmpBatch || (result == first && tmpBatch.ops == [])
        invariant result.Valid() && tmpBatch.Valid() && result.ops == Concat(parts, n) && |result.ops| <= size
        invariant !writers[0].sync ==> forall i :: 0 <= i < n ==> !writers[i].sync
        invariant forall m :: 1 < m <= n && writers[m - 1].batch.Some? ==> Sum(sizes, m) <= maxSize
      {
        var w := writers[n];
        QueuedAt(parts, sizes, n);
        NextPart(parts, sizes, n);
        if w.sync && !writers[0].sync {
          break;
        }
        if w.batch.Some? {
          size := size + |w.batch.value.rep|;
          if size > maxSize {
            break;
          }
          result := AddToGroup(result, first, w.batch.value);
        }
        n := n + 1;
      }
      QueueEnds(parts, sizes);
    }

    lemma QueueStarts(parts: seq<seq<Op>>, sizes: seq<nat>)
      requires Valid() && parts == Parts() && sizes == Sizes()
      ensures Queued(parts, sizes) && tmpBatch.Valid() && tmpBatch.ops == [] && tmpBatch !in Batches()
    {
    }

    lemma QueueEnds(parts: seq<seq<Op>>, sizes: seq<nat>)
      requires Queued(parts, sizes)
      ensures Parts() == parts && Sizes() == sizes && forall b :: b in Batches() ==> b.Valid()
    {
    }

    /** Switch to the temporary batch instead of disturbing the leader's own. */
    method AddToGroup(result: WriteBatch, first: WriteBatch, b: WriteBatch) returns (r: WriteBatch)
      requires tmpBatch.Valid() && first.Valid() && b.Valid() && first != tmpBatch && b != tmpBatch
      requires result == tmpBatch || (result == first && tmpBatch.ops == [])
      requires |result.ops| + |b.ops| < 0x8000_0000
      modifies tmpBatch
      ensures r == tmpBatch && r.Valid() && r.ops == old(result.ops) + b.ops
    {
      hide WriteBatch.Valid;
      r := result;
      if r == first {
        r := tmpBatch;
        r.Append(first);
      }
      r.Append(b);
    }

    /** The log record, then the memtable. */
    method LogAndInsert(result: WriteBatch)
      requires result.Valid() && Committed() && lastSequence + |result.ops| < MAX_SEQUENCE
      modifies this`log, this`mem, this`lastSequence, this`groups, this`current, result`rep
      ensures result.Valid() && result.ops == old(result.ops) && |result.rep| == old(|result.rep|)
      ensures Committed() && groups == old(groups) + [result.ops]
      ensures CommittedOps() == old(CommittedOps()) + result.ops
      ensures log == old(log) + [result.rep] && mem == old(mem) + Number(result.ops, old(lastSequence) + 1)
    {
      hide WriteBatch.Valid, Accounts, IsBatch, ParseBatch, Concat, Number;
      result.SetSequence(lastSequence + 1);
      BuiltIsBatch(result);
      ghost var current0, mem0, last0 := current, mem, lastSequence;
      lastSequence := lastSequence + Count(result.rep);
      log := log + [result.rep];
      var ops, status := Iterate(result.rep);
      mem := mem + Number(ops, Sequence(result.rep));
      BatchOpens(result.rep, result.ops, last0 + 1);
      AccountsExtends(current0, mem0, last0, result.rep, result.ops);
      ConcatOneMore(groups, result.ops);
      groups := groups + [result.ops];
      current := LogFile(current0.base, current0.groups + [result.ops], current0.records + [result.rep]);
    }

    /** The end of MakeRoomForWrite: a new log for a new memtable. */
    method SwitchMemTable()
      requires Committed() && imm.None?
      modifies this`mem, this`log, this`imm, this`immLog, this`current, this`previous
      ensures Committed() && imm == Some(old(mem)) && immLog == old(log) && mem == [] && log == []
    {
      hide Concat, Number, Logged;
      SameLength(current, mem, lastSequence);
      LastIsSmall(current);
      NewLog(lastSequence);
      imm, immLog, previous := Some(mem), log, current;
      mem, log, current := [], [], LogFile(lastSequence, [], []);
    }

    lemma LastIsSmall(f: LogFile)
      requires Logged(f)
      ensures LastOf(f) < MAX_SEQUENCE
    {
    }

    /** CompactMemTable: the immutable memtable is in a table, and its log is not needed any more. */
    method FlushImm()
      requires Valid() && imm.Some?
      modifies this`imm, this`immLog, this`flushed
      ensures Valid() && imm == None && groups == old(groups) && flushed == old(flushed) + previous.groups
    {
      hide Accounts, WriteBatch.Valid, Concat;
      flushed := flushed + previous.groups;
      imm, immLog := None, [];
    }

    /** The logs in force: that of the immutable memtable, if there is one, and that of the memtable. */
    ghost function LogFiles(): seq<LogFile>
      reads this
    {
      if imm.Some? then [previous, current] else [current]
    }

    /** A crash at any time, with each log cut anywhere, loses no more than the ends of the logs: recovery rebuilds the
      * groups that are complete in them, and with nothing cut the two memtables and the last sequence number.
      */
    lemma CrashRecovers(crc: Crc, cuts: seq<nat>, paranoid: bool)
      requires Committed() && Cuts(crc, LogFiles(), cuts)
      ensures forall f :: f in LogFiles() ==> |f.records| == |f.groups|
      ensures var start := Recovered([], 0, true);
              var r := ReplayLogs(start, ReadLogs(crc, LogFiles(), cuts), |LogFiles()|, paranoid);
              && r == Survivors(crc, LogFiles(), cuts, |LogFiles()|, start) && r.ok
              && ((forall i :: 0 <= i < |cuts| ==> cuts[i] == |LogOf(crc, LogFiles()[i].records)|) ==>
                  && r.mem == (if imm.Some? then imm.value else []) + mem
                  && (log != [] ==> r.maxSequence == lastSequence))
    {
      hide LogOf, ReadLogs, Survivors, ReplayLogs, Concat, Number, Logged;
      var files, start := LogFiles(), Recovered([], 0, true);
      LogsChain();
      TornLogsRecover(crc, files, cuts, |files|, start, paranoid);
      if forall i :: 0 <= i < |cuts| ==> cuts[i] == |LogOf(crc, files[i].records)| {
        WholeLogsRecover(crc, files, cuts, |files|, start);
        LogsHoldAll();
      }
    }

    lemma LogsChain()
      requires Committed()
      ensures Chain(LogFiles())
    {
      hide IsBatch, Number, Concat;
    }

    lemma LogsHoldAll()
      requires Committed()
      ensures var files := LogFiles();
              && [] + Number(AllOps(files, |files|), files[0].base + 1) == (if imm.Some? then imm.value else []) + mem
              && LastOf(files[|files| - 1]) == lastSequence && files[|files| - 1].records == log
    {
      hide Number, Concat, Logged;
      var files := LogFiles();
      assert [] + OpsOf(files[0]) == OpsOf(files[0]);
      assert AllOps(files, 0) == [] && AllOps(files, 1) == [] + OpsOf(files[0]);
      NumberNothing(files[0].base + 1, Number(OpsOf(files[0]), files[0].base + 1));
      assert [] + Number(AllOps(files, |files|), files[0].base + 1) == Number(AllOps(files, |files|), files[0].base + 1);
      if imm.Some? {
        assert AllOps(files, 2) == OpsOf(previous) + OpsOf(current);
        NumberAppends(OpsOf(previous), OpsOf(current), previous.base + 1);
      } else {
        assert [] + mem == mem;
      }
    }

    /** Write of the writer at the front of the queue, when nothing fails: it makes room, if the memtable is full,
      * commits a group, and wakes up the writers it has served.
      */
    method CommitGroup(full: bool) returns (n: nat)
      requires Valid() && writers != [] && (full ==> imm.None?)
      modifies this, tmpBatch, Batches()
      ensures Valid() && enqueued == old(enqueued)
      ensures if full then imm == Some(old(mem)) && immLog == old(log) else imm == old(imm) && immLog == old(immLog)
      ensures 0 < n <= |old(writers)| && writers == old(writers[n..])
      ensures var mem0, log0 := if full then [] else old(mem), if full then [] else old(log);
              if old(writers[0].batch).None? then
                n == 1 && groups == old(groups) && mem == mem0 && log == log0 && lastSequence == old(lastSequence)
              else
                var ops := Concat(old(Parts()), n);
                && groups == old(groups) + [ops] && mem == mem0 + Number(ops, old(lastSequence) + 1)
                && |log| == |log0| + 1 && log0 <= log && lastSequence == old(lastSequence) + |ops|
      ensures !old(writers[0].sync) && old(writers[0].batch).Some? ==> forall i :: 0 <= i < n ==> !old(writers)[i].sync
    {
      hide WriteBatch.Valid, Sizes, IsBatch, Accounts, Concat, Number;
      ghost var parts, before := Parts(), CommittedOps();
      if full {
        SwitchMemTable();
      }
      n := WriteGroup();
      PopWriters(parts, n, before);
    }

    /** A group is built, logged and applied, unless the leader has nothing to write. */
    method WriteGroup() returns (n: nat)
      requires Valid() && writers != []
      modifies this`log, this`mem, this`lastSequence, this`groups, this`current, tmpBatch, Batches()
      ensures tmpBatch.Valid() && tmpBatch.ops == [] && (forall b :: b in Batches() ==> b.Valid())
      ensures Committed() && Parts() == old(Parts()) && 0 < n <= |writers|
      ensures CommittedOps() == old(CommittedOps()) + Concat(Parts(), n)
      ensures if writers[0].batch.None? then
                && n == 1 && groups == old(groups) && mem == old(mem) && log == old(log)
                && lastSequence == old(lastSequence)
              else
                var ops := Concat(Parts(), n);
                && groups == old(groups) + [ops] && mem == old(mem) + Number(ops, old(lastSequence) + 1)
                && |log| == |old(log)| + 1 && old(log) <= log && lastSequence == old(lastSequence) + |ops|
      ensures !writers[0].sync && writers[0].batch.Some? ==> forall i :: 0 <= i < n ==> !writers[i].sync
    {
      hide WriteBatch.Valid, Sizes, EndsAt, StaysBelow, IsBatch, Accounts, Concat, Number;
      ghost var parts := Parts();
      if writers[0].batch.None? {
        n := 1;
        FirstPart(parts, [0]);
      } else {
        var result;
        result, n := BuildBatchGroup();
        GroupFits(parts, n);
        LogAndInsert(result);
        if result == tmpBatch {
          tmpBatch.Clear();
        }
      }
    }

    lemma GroupFits(parts: seq<seq<Op>>, n: nat)
      requires Committed() && n <= |parts| && enqueued == CommittedOps() + Concat(parts, |parts|)
      ensures lastSequence + |Concat(parts, n)| <= first + |enqueued|
    {
      hide IsBatch;
      ConcatSplit(parts, n, |parts|);
    }

    /** The writers served leave the queue. */
    method PopWriters(ghost parts: seq<seq<Op>>, n: nat, ghost before: seq<Op>)
      requires tmpBatch.Valid() && tmpBatch.ops == [] && tmpBatch !in Batches()
      requires forall b :: b in Batches() ==> b.Valid()
      requires Committed() && first + |enqueued| < MAX_SEQUENCE && Parts() == parts && n <= |writers|
      requires CommittedOps() == before + Concat(parts, n) && enqueued == before + Concat(parts, |parts|)
      modifies this`writers
      ensures Valid() && writers == old(writers[n..])
    {
      hide WriteBatch.Valid, Accounts, Concat;
      ghost var all := writers;
      writers := writers[n..];
      assert forall i :: 0 <= i < |writers| ==> writers[i] == all[n + i];
      assert Parts() == parts[n..];
      ConcatSplit(parts, n, |parts|);
      Assoc(before, Concat(parts, n), Concat(parts[n..], |parts| - n));
    }
  }

  lemma BatchFits(b: WriteBatch)
    requires b.Valid()
    ensures |b.ops| <= |b.rep|
  {
    OpsFitBytes(b.ops);
  }

  function Sum(sizes: seq<nat>, n: nat): nat
    requires n <= |sizes|
  {
    if n == 0 then 0 else Sum(sizes, n - 1) + sizes[n - 1]
  }

  lemma FirstPart<T>(parts: seq<seq<T>>, sizes: seq<nat>)
    requires parts != [] && sizes != []
    ensures Concat(parts, 1) == parts[0] && Sum(sizes, 1) == sizes[0]
  {
    assert Concat(parts, 0) == [] && [] + parts[0] == parts[0];
  }

  lemma NextPart<T>(parts: seq<seq<T>>, sizes: seq<nat>, n: nat)
    requires n < |parts| && n < |sizes|
    ensures Concat(parts, n + 1) == Concat(parts, n) + parts[n] && Sum(sizes, n + 1) == Sum(sizes, n) + sizes[n]
  {
  }
}
