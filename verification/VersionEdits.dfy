/** The records of the manifest (db/version_edit.cc): an edit written out and read back. */
module VersionEdits {
  import opened InternalKeys
  import opened Sequences
  import opened Coding

  type Level = l: nat | l < NUM_LEVELS

  /** An internal key in its encoded form. */
  type EncodedKey = Bytes

  datatype FileRecord = FileRecord(number: DoubleWord, size: DoubleWord, smallest: EncodedKey, largest: EncodedKey)

  datatype DeletedFile = DeletedFile(level: Level, number: DoubleWord)

  /** The fields of a VersionEdit.  The deleted files are a std::set of pairs, in its order. */
  datatype Edit = Edit(
    comparator: Option<Bytes>, logNumber: Option<DoubleWord>, prevLogNumber: Option<DoubleWord>,
    nextFileNumber: Option<DoubleWord>, lastSequence: Option<DoubleWord>, compactPointers: seq<(Level, EncodedKey)>,
    deletedFiles: seq<DeletedFile>, newFiles: seq<(Level, FileRecord)>)

  predicate Before(a: DeletedFile, b: DeletedFile) {
    a.level < b.level || (a.level == b.level && a.number < b.number)
  }

  ghost predicate Ordered(s: seq<DeletedFile>) {
    forall i, j :: 0 <= i < j < |s| ==> Before(s[i], s[j])
  }

  /** std::set::insert */
  function SetInsert(s: seq<DeletedFile>, d: DeletedFile): (r: seq<DeletedFile>)
    requires Ordered(s)
    ensures Ordered(r) && forall x :: x in r <==> x in s || x == d
    decreases |s|
  {
    if s == [] then [d]
    else
      var n := |s| - 1;
      if Before(s[n], d) then s + [d]
      else if s[n] == d then s
      else
        var r := SetInsert(s[..n], d);
        assert s == s[..n] + [s[n]];
        assert forall x :: x in r ==> Before(x, s[n]);
        r + [s[n]]
  }

  // ---- records --------------------------------------------------------------------------------------------

  datatype Record = Comparator(name: Bytes) | LogNumber(n: DoubleWord) | PrevLogNumber(n: DoubleWord)
                  | NextFileNumber(n: DoubleWord) | LastSequence(n: DoubleWord)
                  | CompactPointer(level: Level, key: EncodedKey) | Deleted(file: DeletedFile)
                  | NewFile(level: Level, f: FileRecord)

  function TagOf(r: Record): (t: nat)
    ensures 0 < t < 128
  {
    match r
    case Comparator(_) => 1
    case LogNumber(_) => 2
    case NextFileNumber(_) => 3
    case LastSequence(_) => 4
    case CompactPointer(_, _) => 5
    case Deleted(_) => 6
    case NewFile(_, _) => 7
    case PrevLogNumber(_) => 9
  }

  function FileBytes(f: FileRecord): Bytes {
    EncodeVarint(f.number) + (EncodeVarint(f.size) + (LengthPrefixed(f.smallest) + LengthPrefixed(f.largest)))
  }

  function RecordBody(r: Record): Bytes {
    match r
    case Comparator(name) => LengthPrefixed(name)
    case LogNumber(n) => EncodeVarint(n)
    case PrevLogNumber(n) => EncodeVarint(n)
    case NextFileNumber(n) => EncodeVarint(n)
    case LastSequence(n) => EncodeVarint(n)
    case CompactPointer(level, key) => EncodeVarint(level) + LengthPrefixed(key)
    case Deleted(file) => EncodeVarint(file.level) + EncodeVarint(file.number)
    case NewFile(level, f) => EncodeVarint(level) + FileBytes(f)
  }

  function RecordBytes(r: Record): Bytes {
    EncodeVarint(TagOf(r)) + RecordBody(r)
  }

  function AllBytes(rs: seq<Record>): Bytes {
    if rs == [] then [] else RecordBytes(rs[0]) + AllBytes(rs[1..])
  }

  // ---- reading ----------------------------------------------------------------------------------------------

  datatype Status = OK | BadComparator | BadLogNumber | BadPrevLogNumber | BadNextFileNumber | BadLastSequence
                  | BadCompactPointer | BadDeletedFile | BadNewFile | UnknownTag | InvalidTag

  datatype Got<T> = Got(value: T, rest: Bytes)

  function GetNumber(b: Bytes): (r: Option<Got<DoubleWord>>)
    ensures r.Some? ==> |r.value.rest| < |b|
  {
    match GetVarint64(b)
    case None => None
    case Some(p) => Some(Got(p.value, b[p.size..]))
  }

  function GetLevel(b: Bytes): (r: Option<Got<Level>>)
    ensures r.Some? ==> |r.value.rest| < |b|
  {
    match GetVarint32(b)
    case None => None
    case Some(p) => if p.value < NUM_LEVELS then Some(Got(p.value, b[p.size..])) else None
  }

  datatype Parse = Good(record: Record, rest: Bytes) | Bad(status: Status)

  function ParseNumber(b: Bytes, make: DoubleWord -> Record, error: Status): (r: Parse)
    requires error != OK
    ensures r.Good? ==> |r.rest| < |b|
    ensures r.Bad? ==> r.status != OK
  {
    match GetNumber(b)
    case None => Bad(error)
    case Some(g) => Good(make(g.value), g.rest)
  }

  function ParseFile(b: Bytes): (r: Option<Got<FileRecord>>)
    ensures r.Some? ==> |r.value.rest| < |b|
  {
    match GetNumber(b)
    case None => None
    case Some(number) =>
      match GetNumber(number.rest)
      case None => None
      case Some(size) =>
        match GetLengthPrefixedSlice(size.rest)
        case None => None
        case Some(smallest) =>
          match GetLengthPrefixedSlice(smallest.rest)
          case None => None
          case Some(largest) =>
            Some(Got(FileRecord(number.value, size.value, smallest.data, largest.data), largest.rest))
  }

  /** What follows a tag. */
  function ParseBody(tag: nat, b: Bytes): (r: Parse)
    ensures r.Good? ==> |r.rest| < |b|
    ensures r.Bad? ==> r.status != OK
  {
    if tag == 1 then
      match GetLengthPrefixedSlice(b)
      case None => Bad(BadComparator)
      case Some(s) => Good(Comparator(s.data), s.rest)
    else if tag == 2 then ParseNumber(b, (n: DoubleWord) => LogNumber(n), BadLogNumber)
    else if tag == 9 then ParseNumber(b, (n: DoubleWord) => PrevLogNumber(n), BadPrevLogNumber)
    else if tag == 3 then ParseNumber(b, (n: DoubleWord) => NextFileNumber(n), BadNextFileNumber)
    else if tag == 4 then ParseNumber(b, (n: DoubleWord) => LastSequence(n), BadLastSequence)
    else if tag == 5 || tag == 6 || tag == 7 then
      match GetLevel(b)
      case None => Bad(if tag == 5 then BadCompactPointer else if tag == 6 then BadDeletedFile else BadNewFile)
      case Some(l) =>
        if tag == 5 then
          match GetLengthPrefixedSlice(l.rest)
          case None => Bad(BadCompactPointer)
          case Some(s) => Good(CompactPointer(l.value, s.data), s.rest)
        else if tag == 6 then ParseNumber(l.rest, (n: DoubleWord) => Deleted(DeletedFile(l.value, n)), BadDeletedFile)
        else
          match ParseFile(l.rest)
          case None => Bad(BadNewFile)
          case Some(f) => Good(NewFile(l.value, f.value), f.rest)
    else Bad(UnknownTag)
  }

  /** A record taken into an edit. */
  function Apply(e: Edit, r: Record): (e': Edit)
    requires Ordered(e.deletedFiles)
    ensures Ordered(e'.deletedFiles)
  {
    match r
    case Comparator(name) => e.(comparator := Some(name))
    case LogNumber(n) => e.(logNumber := Some(n))
    case PrevLogNumber(n) => e.(prevLogNumber := Some(n))
    case NextFileNumber(n) => e.(nextFileNumber := Some(n))
    case LastSequence(n) => e.(lastSequence := Some(n))
    case CompactPointer(level, key) => e.(compactPointers := e.compactPointers + [(level, key)])
    case Deleted(file) => e.(deletedFiles := SetInsert(e.deletedFiles, file))
    case NewFile(level, f) => e.(newFiles := e.newFiles + [(level, f)])
  }

  /** VersionEdit::Clear, which leaves the compaction pointers as they are. */
  function Cleared(e: Edit): Edit {
    Edit(None, None, None, None, None, e.compactPointers, [], [])
  }

  datatype Decoded = Decoded(edit: Edit, status: Status)

  /** The loop of DecodeFrom. */
  function DecodeOn(e: Edit, b: Bytes): (r: Decoded)
    requires Ordered(e.deletedFiles)
    ensures Ordered(r.edit.deletedFiles)
    decreases |b|
  {
    match GetVarint32(b)
    case None => Decoded(e, if b == [] then OK else InvalidTag)
    case Some(tag) =>
      match ParseBody(tag.value, b[tag.size..])
      case Bad(status) => Decoded(e, status)
      case Good(record, rest) => DecodeOn(Apply(e, record), rest)
  }

  // ---- the order of writing -----------------------------------------------------------------------------------

  function Header(e: Edit): seq<Record> {
    FirstNumbers(e) + LastNumbers(e)
  }

  function FirstNumbers(e: Edit): seq<Record> {
    (if e.comparator.Some? then [Comparator(e.comparator.value)] else [])
    + (if e.logNumber.Some? then [LogNumber(e.logNumber.value)] else [])
    + (if e.prevLogNumber.Some? then [PrevLogNumber(e.prevLogNumber.value)] else [])
  }

  function LastNumbers(e: Edit): seq<Record> {
    (if e.nextFileNumber.Some? then [NextFileNumber(e.nextFileNumber.value)] else [])
    + (if e.lastSequence.Some? then [LastSequence(e.lastSequence.value)] else [])
  }

  function Pointers(s: seq<(Level, EncodedKey)>): seq<Record> {
    seq(|s|, i requires 0 <= i < |s| => CompactPointer(s[i].0, s[i].1))
  }

  function Deletions(s: seq<DeletedFile>): seq<Record> {
    seq(|s|, i requires 0 <= i < |s| => Deleted(s[i]))
  }

  function Additions(s: seq<(Level, FileRecord)>): seq<Record> {
    seq(|s|, i requires 0 <= i < |s| => NewFile(s[i].0, s[i].1))
  }

  function RecordsOf(e: Edit): seq<Record> {
    Header(e) + Pointers(e.compactPointers) + Deletions(e.deletedFiles) + Additions(e.newFiles)
  }

  // ---- the object -----------------------------------------------------------------------------------------------

  class VersionEdit {
    var comparator: Option<Bytes>
    var logNumber: Option<DoubleWord>
    var prevLogNumber: Option<DoubleWord>
    var nextFileNumber: Option<DoubleWord>
    var lastSequence: Option<DoubleWord>
    var compactPointers: seq<(Level, EncodedKey)>
    var deletedFiles: seq<DeletedFile>
    var newFiles: seq<(Level, FileRecord)>

    function Value(): Edit
      reads this
    {
      Edit(comparator, logNumber, prevLogNumber, nextFileNumber, lastSequence, compactPointers, deletedFiles, newFiles)
    }

    constructor ()
      ensures Value() == Edit(None, None, None, None, None, [], [], [])
    {
      comparator, logNumber, prevLogNumber, nextFileNumber, lastSequence := None, None, None, None, None;
      compactPointers, deletedFiles, newFiles := [], [], [];
    }

    method Clear()
      modifies this
      ensures Value() == Cleared(old(Value()))
    {
      comparator, logNumber, prevLogNumber, nextFileNumber, lastSequence := None, None, None, None, None;
      deletedFiles, newFiles := [], [];
    }

    /** EncodeTo, appending to what dst holds. */
    method EncodeTo(dst: Bytes) returns (out: Bytes)
      ensures out == dst + AllBytes(RecordsOf(Value()))
    {
      hide RecordBytes, AllBytes, Header;
      ghost var done: seq<Record> := [];
      NoBytes(dst);
      out := EncodeHeader(dst);
      done := Header(Value());
      for i := 0 to |compactPointers|
        invariant done == Header(Value()) + Pointers(compactPointers[..i]) && out == dst + AllBytes(done)
      {
        var r := CompactPointer(compactPointers[i].0, compactPointers[i].1);
        AllBytesAppend(dst, done, r);
        out := out + RecordBytes(r);
        assert Pointers(compactPointers[..i + 1]) == Pointers(compactPointers[..i]) + [r];
        done := done + [r];
      }
      assert compactPointers[..|compactPointers|] == compactPointers;
      ghost var start := done;
      for i := 0 to |deletedFiles|
        invariant done == start + Deletions(deletedFiles[..i]) && out == dst + AllBytes(done)
      {
        var r := Deleted(deletedFiles[i]);
        AllBytesAppend(dst, done, r);
        out := out + RecordBytes(r);
        assert Deletions(deletedFiles[..i + 1]) == Deletions(deletedFiles[..i]) + [r];
        done := done + [r];
      }
      assert deletedFiles[..|deletedFiles|] == deletedFiles;
      start := done;
      for i := 0 to |newFiles|
        invariant done == start + Additions(newFiles[..i]) && out == dst + AllBytes(done)
      {
        var r := NewFile(newFiles[i].0, newFiles[i].1);
        AllBytesAppend(dst, done, r);
        out := out + RecordBytes(r);
        assert Additions(newFiles[..i + 1]) == Additions(newFiles[..i]) + [r];
        done := done + [r];
      }
      assert newFiles[..|newFiles|] == newFiles;
    }

    method EncodeHeader(dst: Bytes) returns (out: Bytes)
      ensures out == dst + AllBytes(Header(Value()))
    {
      out := EncodeFirstNumbers(dst);
      out := EncodeLastNumbers(out, dst, FirstNumbers(Value()));
    }

    method EncodeFirstNumbers(dst: Bytes) returns (out: Bytes)
      ensures out == dst + AllBytes(FirstNumbers(Value()))
    {
      hide RecordBytes, AllBytes;
      ghost var done: seq<Record> := [];
      NoBytes(dst);
      out := dst;
      if comparator.Some? {
        AllBytesAppend(dst, done, Comparator(comparator.value));
        out := out + RecordBytes(Comparator(comparator.value));
        done := done + [Comparator(comparator.value)];
      }
      if logNumber.Some? {
        AllBytesAppend(dst, done, LogNumber(logNumber.value));
        out := out + RecordBytes(LogNumber(logNumber.value));
        done := done + [LogNumber(logNumber.value)];
      }
      if prevLogNumber.Some? {
        AllBytesAppend(dst, done, PrevLogNumber(prevLogNumber.value));
        out := out + RecordBytes(PrevLogNumber(prevLogNumber.value));
        done := done + [PrevLogNumber(prevLogNumber.value)];
      }
      assert done == FirstNumbers(Value());
    }

    method EncodeLastNumbers(before: Bytes, ghost dst: Bytes, ghost records: seq<Record>) returns (out: Bytes)
      requires before == dst + AllBytes(records)
      ensures out == dst + AllBytes(records + LastNumbers(Value()))
    {
      hide RecordBytes, AllBytes;
      ghost var done := records;
      out := before;
      if nextFileNumber.Some? {
        AllBytesAppend(dst, done, NextFileNumber(nextFileNumber.value));
        out := out + RecordBytes(NextFileNumber(nextFileNumber.value));
        done := done + [NextFileNumber(nextFileNumber.value)];
      }
      if lastSequence.Some? {
        AllBytesAppend(dst, done, LastSequence(lastSequence.value));
        out := out + RecordBytes(LastSequence(lastSequence.value));
        done := done + [LastSequence(lastSequence.value)];
      }
      assert done == records + LastNumbers(Value());
    }

    /** DecodeFrom; on an error the edit keeps what came before it. */
    method DecodeFrom(src: Bytes) returns (status: Status)
      requires Ordered(deletedFiles)
      modifies this
      ensures Decoded(Value(), status) == DecodeOn(Cleared(old(Value())), src)
    {
      hide ParseBody, GetVarint32, SetInsert;
      Clear();
      status := OK;
      var input := src;
      while status == OK
        invariant Ordered(deletedFiles)
        invariant DecodeOn(Cleared(old(Value())), src)
               == if status == OK then DecodeOn(Value(), input) else Decoded(Value(), status)
        decreases |input| + if status == OK then 1 else 0
      {
        var tag := GetVarint32(input);
        if tag.None? {
          break;
        }
        input := input[tag.value.size..];
        match ParseBody(tag.value.value, input)
        case Bad(error) => status := error;
        case Good(record, rest) =>
          Take(record);
          input := rest;
      }
      if status == OK && input != [] {
        status := InvalidTag;
      }
    }

    method Take(r: Record)
      requires Ordered(deletedFiles)
      modifies this
      ensures Value() == Apply(old(Value()), r)
    {
      match r
      case Comparator(name) => comparator := Some(name);
      case LogNumber(n) => logNumber := Some(n);
      case PrevLogNumber(n) => prevLogNumber := Some(n);
      case NextFileNumber(n) => nextFileNumber := Some(n);
      case LastSequence(n) => lastSequence := Some(n);
      case CompactPointer(level, key) => compactPointers := compactPointers + [(level, key)];
      case Deleted(file) => deletedFiles := SetInsert(deletedFiles, file);
      case NewFile(level, f) => newFiles := newFiles + [(level, f)];
    }
  }

  lemma NoBytes(dst: Bytes)
    ensures dst + AllBytes([]) == dst
  {
  }

  lemma {:induction false} AllBytesAppends(rs: seq<Record>, r: Record)
    ensures AllBytes(rs + [r]) == AllBytes(rs) + RecordBytes(r)
  {
    hide RecordBytes;
    if rs == [] {
      assert AllBytes([r]) == RecordBytes(r) + AllBytes([r][1..]);
    } else {
      AllBytesAppends(rs[1..], r);
      assert (rs + [r])[1..] == rs[1..] + [r];
    }
  }

  lemma AllBytesAppend(dst: Bytes, rs: seq<Record>, r: Record)
    ensures dst + AllBytes(rs + [r]) == (dst + AllBytes(rs)) + RecordBytes(r)
  {
    hide RecordBytes, AllBytes;
    AllBytesAppends(rs, r);
  }

  // ---- round trip -----------------------------------------------------------------------------------------------

  /** Strings have lengths of 32 bits. */
  predicate Encodable(r: Record) {
    match r
    case Comparator(name) => |name| < 0x1_0000_0000
    case CompactPointer(_, key) => |key| < 0x1_0000_0000
    case NewFile(_, f) => |f.smallest| < 0x1_0000_0000 && |f.largest| < 0x1_0000_0000
    case LogNumber(_) => true
    case PrevLogNumber(_) => true
    case NextFileNumber(_) => true
    case LastSequence(_) => true
    case Deleted(_) => true
  }

  ghost predicate AllEncodable(rs: seq<Record>) {
    forall r :: r in rs ==> Encodable(r)
  }

  lemma NumberBack(n: DoubleWord, rest: Bytes)
    ensures GetNumber(EncodeVarint(n) + rest) == Some(Got(n, rest))
  {
    Varint64RoundTrip(n, rest);
    assert (EncodeVarint(n) + rest)[|EncodeVarint(n)|..] == rest;
  }

  lemma LevelBack(l: Level, rest: Bytes)
    ensures GetLevel(EncodeVarint(l) + rest) == Some(Got(l, rest))
  {
    Varint32RoundTrip(l, rest);
    assert (EncodeVarint(l) + rest)[|EncodeVarint(l)|..] == rest;
  }

  lemma FileBack(f: FileRecord, rest: Bytes)
    requires |f.smallest| < 0x1_0000_0000 && |f.largest| < 0x1_0000_0000
    ensures ParseFile(FileBytes(f) + rest) == Some(Got(f, rest))
  {
    hide EncodeVarint, LengthPrefixed, GetLengthPrefixedSlice, GetNumber;
    var n, s, a, z := EncodeVarint(f.number), EncodeVarint(f.size), LengthPrefixed(f.smallest), LengthPrefixed(f.largest);
    assert (n + (s + (a + z))) + rest == n + (s + (a + (z + rest)));
    NumberBack(f.number, s + (a + (z + rest)));
    NumberBack(f.size, a + (z + rest));
    LengthPrefixedRoundTrip(f.smallest, z + rest);
    LengthPrefixedRoundTrip(f.largest, rest);
  }

  lemma BodyBack(r: Record, rest: Bytes)
    requires Encodable(r)
    ensures ParseBody(TagOf(r), RecordBody(r) + rest) == Good(r, rest)
  {
    hide EncodeVarint, LengthPrefixed, GetLengthPrefixedSlice, GetNumber, GetLevel, ParseFile;
    match r
    case Comparator(name) => LengthPrefixedRoundTrip(name, rest);
    case LogNumber(n) => NumberBack(n, rest);
    case PrevLogNumber(n) => NumberBack(n, rest);
    case NextFileNumber(n) => NumberBack(n, rest);
    case LastSequence(n) => NumberBack(n, rest);
    case CompactPointer(level, key) =>
      Assoc(EncodeVarint(level), LengthPrefixed(key), rest);
      LevelBack(level, LengthPrefixed(key) + rest);
      LengthPrefixedRoundTrip(key, rest);
    case Deleted(file) =>
      Assoc(EncodeVarint(file.level), EncodeVarint(file.number), rest);
      LevelBack(file.level, EncodeVarint(file.number) + rest);
      NumberBack(file.number, rest);
    case NewFile(level, f) =>
      Assoc(EncodeVarint(level), FileBytes(f), rest);
      LevelBack(level, FileBytes(f) + rest);
      FileBack(f, rest);
  }

  lemma RecordBack(e: Edit, r: Record, rest: Bytes)
    requires Encodable(r) && Ordered(e.deletedFiles)
    ensures DecodeOn(e, RecordBytes(r) + rest) == DecodeOn(Apply(e, r), rest)
  {
    hide EncodeVarint, RecordBody, ParseBody, Apply, Encodable;
    var tag, body := EncodeVarint(TagOf(r)), RecordBody(r);
    Assoc(tag, body, rest);
    Varint32RoundTrip(TagOf(r), body + rest);
    assert (tag + (body + rest))[|tag|..] == body + rest;
    BodyBack(r, rest);
  }

  function ApplyAll(e: Edit, rs: seq<Record>): (e': Edit)
    requires Ordered(e.deletedFiles)
    ensures Ordered(e'.deletedFiles)
    decreases |rs|
  {
    if rs == [] then e else ApplyAll(Apply(e, rs[0]), rs[1..])
  }

  lemma {:induction false} RecordsBack(e: Edit, rs: seq<Record>)
    requires Ordered(e.deletedFiles) && AllEncodable(rs)
    ensures DecodeOn(e, AllBytes(rs)) == Decoded(ApplyAll(e, rs), OK)
    decreases |rs|
  {
    hide RecordBytes, Apply, Encodable;
    if rs != [] {
      RecordBack(e, rs[0], AllBytes(rs[1..]));
      RecordsBack(Apply(e, rs[0]), rs[1..]);
    }
  }

  lemma {:induction false} ApplyAllConcat(e: Edit, a: seq<Record>, b: seq<Record>)
    requires Ordered(e.deletedFiles)
    ensures ApplyAll(e, a + b) == ApplyAll(ApplyAll(e, a), b)
    decreases |a|
  {
    hide Apply;
    if a == [] {
      assert a + b == b;
    } else {
      assert (a + b)[1..] == a[1..] + b;
      ApplyAllConcat(Apply(e, a[0]), a[1..], b);
    }
  }

  lemma ApplyLast(e: Edit, rs: seq<Record>, r: Record)
    requires Ordered(e.deletedFiles)
    ensures ApplyAll(e, rs + [r]) == Apply(ApplyAll(e, rs), r)
  {
    hide Apply;
    ApplyAllConcat(e, rs, [r]);
    assert [r][1..] == [];
  }

  lemma {:induction false} PointersBack(e: Edit, s: seq<(Level, EncodedKey)>)
    requires Ordered(e.deletedFiles)
    ensures ApplyAll(e, Pointers(s)) == e.(compactPointers := e.compactPointers + s)
  {
    if s == [] {
      assert Pointers(s) == [] && e.compactPointers + s == e.compactPointers;
    } else {
      var n := |s| - 1;
      PointersBack(e, s[..n]);
      assert Pointers(s) == Pointers(s[..n]) + [CompactPointer(s[n].0, s[n].1)];
      ApplyLast(e, Pointers(s[..n]), CompactPointer(s[n].0, s[n].1));
      assert e.compactPointers + s[..n] + [s[n]] == e.compactPointers + s;
    }
  }

  lemma {:induction false} DeletionsBack(e: Edit, s: seq<DeletedFile>)
    requires e.deletedFiles == [] && Ordered(s)
    ensures ApplyAll(e, Deletions(s)) == e.(deletedFiles := s)
  {
    if s == [] {
      assert Deletions(s) == [];
    } else {
      var n := |s| - 1;
      DeletionsBack(e, s[..n]);
      assert Deletions(s) == Deletions(s[..n]) + [Deleted(s[n])];
      ApplyLast(e, Deletions(s[..n]), Deleted(s[n]));
      assert s[..n] + [s[n]] == s;
    }
  }

  lemma {:induction false} AdditionsBack(e: Edit, s: seq<(Level, FileRecord)>)
    requires Ordered(e.deletedFiles)
    ensures ApplyAll(e, Additions(s)) == e.(newFiles := e.newFiles + s)
  {
    if s == [] {
      assert Additions(s) == [] && e.newFiles + s == e.newFiles;
    } else {
      var n := |s| - 1;
      AdditionsBack(e, s[..n]);
      assert Additions(s) == Additions(s[..n]) + [NewFile(s[n].0, s[n].1)];
      ApplyLast(e, Additions(s[..n]), NewFile(s[n].0, s[n].1));
      assert e.newFiles + s[..n] + [s[n]] == e.newFiles + s;
    }
  }

  lemma HeaderBack(into: Edit, e: Edit)
    requires into == Cleared(into)
    ensures ApplyAll(into, Header(e))
            == Edit(e.comparator, e.logNumber, e.prevLogNumber, e.nextFileNumber, e.lastSequence, into.compactPointers, [], [])
  {
    hide ApplyAll, FirstNumbers, LastNumbers;
    FirstNumbersBack(into, e);
    LastNumbersBack(ApplyAll(into, FirstNumbers(e)), e);
    ApplyAllConcat(into, FirstNumbers(e), LastNumbers(e));
  }

  lemma FirstNumbersBack(into: Edit, e: Edit)
    requires into == Cleared(into)
    ensures ApplyAll(into, FirstNumbers(e))
            == into.(comparator := e.comparator, logNumber := e.logNumber, prevLogNumber := e.prevLogNumber)
  {
    hide SetInsert, ApplyAll;
    var a: seq<Record> := if e.comparator.Some? then [Comparator(e.comparator.value)] else [];
    var b: seq<Record> := if e.logNumber.Some? then [LogNumber(e.logNumber.value)] else [];
    var c: seq<Record> := if e.prevLogNumber.Some? then [PrevLogNumber(e.prevLogNumber.value)] else [];
    AtMostOne(into, a);
    HeaderStep(into, a, into.(comparator := e.comparator), b);
    HeaderStep(into, a + b, into.(comparator := e.comparator, logNumber := e.logNumber), c);
  }

  lemma LastNumbersBack(into: Edit, e: Edit)
    requires Ordered(into.deletedFiles) && into.nextFileNumber.None? && into.lastSequence.None?
    ensures ApplyAll(into, LastNumbers(e)) == into.(nextFileNumber := e.nextFileNumber, lastSequence := e.lastSequence)
  {
    hide SetInsert, ApplyAll;
    var a: seq<Record> := if e.nextFileNumber.Some? then [NextFileNumber(e.nextFileNumber.value)] else [];
    var b: seq<Record> := if e.lastSequence.Some? then [LastSequence(e.lastSequence.value)] else [];
    AtMostOne(into, a);
    HeaderStep(into, a, into.(nextFileNumber := e.nextFileNumber), b);
  }

  /** At most one more record. */
  lemma HeaderStep(into: Edit, done: seq<Record>, e: Edit, rs: seq<Record>)
    requires Ordered(into.deletedFiles) && Ordered(e.deletedFiles) && |rs| <= 1
    ensures ApplyAll(into, done) == e ==> ApplyAll(into, done + rs) == if rs == [] then e else Apply(e, rs[0])
  {
    hide Apply;
    ApplyAllConcat(into, done, rs);
    AtMostOne(e, rs);
  }

  lemma AtMostOne(e: Edit, rs: seq<Record>)
    requires Ordered(e.deletedFiles) && |rs| <= 1
    ensures ApplyAll(e, rs) == if rs == [] then e else Apply(e, rs[0])
  {
  }

  /** Decoding an encoded edit into an edit object: everything is as it was encoded, except that the compaction
    * pointers come after those that the object had before.
    */
  lemma EditRoundTrip(into: Edit, e: Edit)
    requires Ordered(e.deletedFiles) && AllEncodable(RecordsOf(e))
    ensures DecodeOn(Cleared(into), AllBytes(RecordsOf(e)))
            == Decoded(e.(compactPointers := into.compactPointers + e.compactPointers), OK)
  {
    hide Apply, ApplyAll, Header, Pointers, Deletions, Additions, Encodable, AllBytes;
    var start := Cleared(into);
    RecordsBack(start, RecordsOf(e));
    var h, p, d, a := Header(e), Pointers(e.compactPointers), Deletions(e.deletedFiles), Additions(e.newFiles);
    ApplyAllConcat(start, h + p + d, a);
    ApplyAllConcat(start, h + p, d);
    ApplyAllConcat(start, h, p);
    HeaderBack(start, e);
    var e1 := ApplyAll(start, h);
    PointersBack(e1, e.compactPointers);
    DeletionsBack(ApplyAll(e1, p), e.deletedFiles);
    AdditionsBack(ApplyAll(ApplyAll(e1, p), d), e.newFiles);
    assert [] + e.newFiles == e.newFiles;
  }

  /** Into a fresh object, exactly what was encoded. */
  lemma FreshRoundTrip(e: Edit)
    requires Ordered(e.deletedFiles) && AllEncodable(RecordsOf(e))
    ensures DecodeOn(Edit(None, None, None, None, None, [], [], []), AllBytes(RecordsOf(e))) == Decoded(e, OK)
  {
    var fresh' := Edit(None, None, None, None, None, [], [], []);
    EditRoundTrip(fresh', e);
    assert [] + e.compactPointers == e.compactPointers;
  }

  // ---- records that are damaged ---------------------------------------------------------------------------

  /** The error for a record that cannot be read. */
  function ErrorOf(r: Record): (s: Status)
    ensures s != OK
  {
    match r
    case Comparator(_) => BadComparator
    case LogNumber(_) => BadLogNumber
    case PrevLogNumber(_) => BadPrevLogNumber
    case NextFileNumber(_) => BadNextFileNumber
    case LastSequence(_) => BadLastSequence
    case CompactPointer(_, _) => BadCompactPointer
    case Deleted(_) => BadDeletedFile
    case NewFile(_, _) => BadNewFile
  }

  lemma TruncatedNumber(n: DoubleWord, k: nat)
    requires k < |EncodeVarint(n)|
    ensures GetNumber(EncodeVarint(n)[..k]) == None
  {
    TruncatedVarint(n, k, 10);
  }

  lemma TruncatedLevel(l: nat, k: nat)
    requires k < |EncodeVarint(l)|
    ensures GetLevel(EncodeVarint(l)[..k]) == None
  {
    TruncatedVarint(l, k, 5);
  }

  lemma TruncatedFile(f: FileRecord, k: nat)
    requires |f.smallest| < 0x1_0000_0000 && |f.largest| < 0x1_0000_0000 && k < |FileBytes(f)|
    ensures ParseFile(FileBytes(f)[..k]) == None
  {
    hide GetNumber, GetLengthPrefixedSlice, LengthPrefixed, EncodeVarint;
    var a, b, c, e := EncodeVarint(f.number), EncodeVarint(f.size), LengthPrefixed(f.smallest), LengthPrefixed(f.largest);
    var all := FileBytes(f)[..k];
    if k < |a| {
      TruncatedNumber(f.number, k);
      assert all == a[..k];
    } else if k < |a| + |b| {
      var j := k - |a|;
      TruncatedNumber(f.size, j);
      assert all == a + b[..j];
      NumberBack(f.number, b[..j]);
    } else if k < |a| + |b| + |c| {
      var j := k - |a| - |b|;
      TruncatedSlice(f.smallest, j);
      assert all == a + (b + c[..j]);
      NumberBack(f.number, b + c[..j]);
      NumberBack(f.size, c[..j]);
    } else {
      var j := k - |a| - |b| - |c|;
      TruncatedSlice(f.largest, j);
      assert all == a + (b + (c + e[..j]));
      NumberBack(f.number, b + (c + e[..j]));
      NumberBack(f.size, c + e[..j]);
      LengthPrefixedRoundTrip(f.smallest, e[..j]);
    }
  }

  lemma TruncatedBody(r: Record, k: nat)
    requires Encodable(r) && k < |RecordBody(r)|
    ensures ParseBody(TagOf(r), RecordBody(r)[..k]) == Bad(ErrorOf(r))
  {
    hide GetNumber, GetLevel, GetLengthPrefixedSlice, ParseFile, LengthPrefixed, EncodeVarint;
    var b := RecordBody(r)[..k];
    match r {
      case Comparator(name) => TruncatedSlice(name, k);
      case LogNumber(n) => TruncatedNumber(n, k);
      case PrevLogNumber(n) => TruncatedNumber(n, k);
      case NextFileNumber(n) => TruncatedNumber(n, k);
      case LastSequence(n) => TruncatedNumber(n, k);
      case CompactPointer(level, key) => TruncatedAfterLevel(level, LengthPrefixed(key), k);
        if k >= |EncodeVarint(level)| {
          TruncatedSlice(key, k - |EncodeVarint(level)|);
        }
      case Deleted(file) => TruncatedAfterLevel(file.level, EncodeVarint(file.number), k);
        if k >= |EncodeVarint(file.level)| {
          TruncatedNumber(file.number, k - |EncodeVarint(file.level)|);
        }
      case NewFile(level, f) => TruncatedAfterLevel(level, FileBytes(f), k);
        if k >= |EncodeVarint(level)| {
          TruncatedFile(f, k - |EncodeVarint(level)|);
        }
    }
  }

  lemma TruncatedAfterLevel(level: Level, rest: Bytes, k: nat)
    requires k < |EncodeVarint(level)| + |rest|
    ensures var v := EncodeVarint(level);
            GetLevel((v + rest)[..k]) == if k < |v| then None else Some(Got(level, rest[..k - |v|]))
  {
    hide EncodeVarint, GetLevel;
    var v := EncodeVarint(level);
    if k < |v| {
      TruncatedLevel(level, k);
      assert (v + rest)[..k] == v[..k];
    } else {
      LevelBack(level, rest[..k - |v|]);
      assert (v + rest)[..k] == v + rest[..k - |v|];
    }
  }

  /** A record that has lost its end is an error, and which one its kind tells. */
  lemma TruncatedRecordFails(e: Edit, r: Record, k: nat)
    requires Ordered(e.deletedFiles) && Encodable(r) && 0 < k < |RecordBytes(r)|
    ensures DecodeOn(e, RecordBytes(r)[..k]) == Decoded(e, ErrorOf(r))
  {
    hide ParseBody, RecordBody, Encodable, GetVarint32, EncodeVarint;
    OneByteTag(TagOf(r), []);
    var body := RecordBody(r)[..k - 1];
    TruncatedBody(r, k - 1);
    OneByteTag(TagOf(r), body);
    assert RecordBytes(r)[..k] == [TagOf(r)] + body;
  }

  lemma OneByteTag(tag: nat, body: Bytes)
    requires tag < 128
    ensures EncodeVarint(tag) == [tag] && GetVarint32([tag] + body) == Some(Parsed(tag, 1)) && ([tag] + body)[1..] == body
  {
  }

  /** A level beyond the last is an error too, and so is a tag that no record has. */
  lemma BadLevelOrTag(e: Edit, b: Bytes)
    requires Ordered(e.deletedFiles) && GetVarint32(b).Some?
    ensures var tag, rest := GetVarint32(b).value.value, b[GetVarint32(b).value.size..];
            && (tag == 0 || tag == 8 || tag > 9 ==> DecodeOn(e, b) == Decoded(e, UnknownTag))
            && (GetVarint32(rest).Some? && GetVarint32(rest).value.value >= 7 ==>
                  && (tag == 5 ==> DecodeOn(e, b) == Decoded(e, BadCompactPointer))
                  && (tag == 6 ==> DecodeOn(e, b) == Decoded(e, BadDeletedFile))
                  && (tag == 7 ==> DecodeOn(e, b) == Decoded(e, BadNewFile)))
  {
    hide GetVarint32, Apply;
  }

  /** A tag that has lost its end. */
  lemma BadTag(e: Edit, b: Bytes)
    requires Ordered(e.deletedFiles) && b != [] && GetVarint32(b).None?
    ensures DecodeOn(e, b) == Decoded(e, InvalidTag)
  {
  }

  /** The bytes of each kind of record. */
  lemma BytesOfRecords()
    ensures RecordBytes(Comparator([7])) == [1, 1, 7] && RecordBytes(LogNumber(300)) == [2, 0xAC, 2]
    ensures RecordBytes(NextFileNumber(5)) == [3, 5] && RecordBytes(LastSequence(5)) == [4, 5]
    ensures RecordBytes(CompactPointer(2, [7])) == [5, 2, 1, 7] && RecordBytes(Deleted(DeletedFile(2, 5))) == [6, 2, 5]
    ensures RecordBytes(NewFile(2, FileRecord(5, 6, [7], [8]))) == [7, 2, 5, 6, 1, 7, 1, 8]
    ensures RecordBytes(PrevLogNumber(5)) == [9, 5]
  {
    BytesOfNumbers();
    assert LengthPrefixed([7]) == [1] + [7] == [1, 7] && LengthPrefixed([8]) == [1] + [8] == [1, 8];
    assert EncodeVarint(5) == [5] && EncodeVarint(2) == [2] && EncodeVarint(6) == [6];
    var f := FileRecord(5, 6, [7], [8]);
    var keys: Bytes, sized: Bytes, file: Bytes := [1, 7, 1, 8], [6, 1, 7, 1, 8], [5, 6, 1, 7, 1, 8];
    assert LengthPrefixed([7]) + LengthPrefixed([8]) == keys && [6] + keys == sized && [5] + sized == file;
    assert RecordBody(NewFile(2, f)) == [2] + file;
  }
}
