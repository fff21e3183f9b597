/** Writing a log (db/log_writer.cc). */
module LogWriter {
  import opened InternalKeys
  import opened Coding
  import opened LogFormat

  class Writer {
    const crc: Crc
    const typeCrc: seq<Word>
    var dest: Bytes
    var blockOffset: nat

    constructor (crc: Crc)
      requires Streams(crc)
      ensures Valid() && dest == [] && blockOffset == 0 && this.crc == crc
    {
      this.crc := crc;
      this.typeCrc := seq(LAST_TYPE + 1, i requires 0 <= i <= LAST_TYPE => crc(0, [i]));
      dest, blockOffset := [], 0;
    }

    /** Reopening an existing log. */
    constructor Append(crc: Crc, existing: Bytes)
      requires Streams(crc)
      ensures Valid() && dest == existing && blockOffset == |existing| % BLOCK_SIZE && this.crc == crc
    {
      this.crc := crc;
      this.typeCrc := seq(LAST_TYPE + 1, i requires 0 <= i <= LAST_TYPE => crc(0, [i]));
      dest, blockOffset := existing, |existing| % BLOCK_SIZE;
    }

    ghost predicate Valid()
      reads this
    {
      && Streams(crc) && blockOffset <= BLOCK_SIZE
      && |typeCrc| == LAST_TYPE + 1
      && forall i :: 0 <= i <= LAST_TYPE ==> typeCrc[i] == crc(0, [i])
    }

    method AddRecord(record: Bytes)
      requires Valid()
      modifies this
      ensures Valid()
      ensures dest == old(dest) + Layout(crc, old(blockOffset), Fragments(old(blockOffset), record, true))
      ensures blockOffset == OffsetAfter(old(blockOffset), Fragments(old(blockOffset), record, true))
    {
      hide Layout, Fragments, OffsetAfter, AllFit, Header, Streams;
      var left := record;
      var begin := true;
      ghost var all := Fragments(blockOffset, record, true);
      ghost var target := dest + Layout(crc, blockOffset, all);
      ghost var last := OffsetAfter(blockOffset, all);
      while true
        invariant Valid()
        invariant dest + Layout(crc, blockOffset, Fragments(blockOffset, left, begin)) == target
        invariant OffsetAfter(blockOffset, Fragments(blockOffset, left, begin)) == last
        decreases |left|, StartOffset(blockOffset)
      {
        ghost var off, before := blockOffset, dest;
        FillBlock();
        var avail := BLOCK_SIZE - blockOffset - HEADER_SIZE;
        var fragmentLength := if |left| < avail then |left| else avail;
        var end := |left| == fragmentLength;
        var f := Fragment(if begin && end then FULL_TYPE else if begin then FIRST_TYPE
                          else if end then LAST_TYPE else MIDDLE_TYPE, left[..fragmentLength]);
        EmitPhysicalRecord(f);
        OneMoreFragment(crc, off, left, begin, f);
        assert dest == before + FragmentBytes(crc, off, f);
        ghost var rest := Fragments(EndOffset(off, f), left[fragmentLength..], false);
        assert !end ==> target == before + (FragmentBytes(crc, off, f) + Layout(crc, EndOffset(off, f), rest));
        left := left[fragmentLength..];
        begin := false;
        if end {
          break;
        }
      }
    }

    /** With too little room for a header, the rest of the block is filled with zeros. */
    method FillBlock()
      requires Valid()
      modifies this`dest, this`blockOffset
      ensures Valid() && dest == old(dest) + Zeros(Trailer(old(blockOffset)))
      ensures blockOffset == StartOffset(old(blockOffset))
    {
      var leftover := BLOCK_SIZE - blockOffset;
      if leftover < HEADER_SIZE {
        if leftover > 0 {
          dest := dest + Zeros(leftover);
        }
        blockOffset := 0;
      }
    }

    method EmitPhysicalRecord(f: Fragment)
      requires Valid() && blockOffset + HEADER_SIZE + |f.payload| <= BLOCK_SIZE
      requires FULL_TYPE <= f.kind <= LAST_TYPE
      modifies this
      ensures Valid() && dest == old(dest) + Header(crc, f) + f.payload
      ensures blockOffset == old(blockOffset) + HEADER_SIZE + |f.payload|
    {
      var sum := crc(typeCrc[f.kind], f.payload);
      var header := EncodeFixed32(Mask(sum)) + [|f.payload| % 256, |f.payload| / 256, f.kind];
      dest := dest + header;
      dest := dest + f.payload;
      blockOffset := blockOffset + HEADER_SIZE + |f.payload|;
    }
  }

  lemma OneMoreFragment(crc: Crc, off: nat, left: Bytes, begin: bool, f: Fragment)
    requires off <= BLOCK_SIZE
    requires f == Fragment(FragmentType(begin, FragmentLength(off, |left|) == |left|),
                           left[..FragmentLength(off, |left|)])
    ensures Fits(off, f) && |f.payload| <= |left| && f.payload == left[..|f.payload|]
    ensures var rest := left[|f.payload|..];
            var all := Fragments(off, left, begin);
            var after := Fragments(EndOffset(off, f), rest, false);
            if rest == [] then
              all == [f] && Layout(crc, off, all) == FragmentBytes(crc, off, f) && OffsetAfter(off, all) == EndOffset(off, f)
            else
              && all == [f] + after
              && Layout(crc, off, all) == FragmentBytes(crc, off, f) + Layout(crc, EndOffset(off, f), after)
              && OffsetAfter(off, all) == OffsetAfter(EndOffset(off, f), after)
  {
  }
}

/** Reading a log (db/log_reader.cc), with checksums verified and from offset 0.  The reader is
  * specified on every file, damaged ones included.
  */
module LogReader {
  import opened InternalKeys
  import opened Coding
  import opened LogFormat

  const EOF: nat := 5
  const BAD_RECORD: nat := 6

  /** buffer_ is data[begin..end]; end is end_of_buffer_offset_; drops counts reported corruptions. */
  datatype ReadState = ReadState(begin: nat, end: nat, eof: bool, drops: nat)

  datatype Physical = Physical(kind: nat, fragment: Bytes, st: ReadState)

  predicate InFile(data: Bytes, st: ReadState) {
    st.begin <= st.end <= |data|
  }

  /** One call of ReadPhysicalRecord: its result and the state it leaves. */
  function ReadPhysical(crc: Crc, data: Bytes, st: ReadState): (r: Physical)
    requires InFile(data, st)
    ensures InFile(data, r.st) && st.begin <= r.st.begin
    ensures r.kind != EOF ==> st.begin < r.st.begin
    decreases if st.eof then 0 else 1, |data| - st.end
  {
    if st.end - st.begin < HEADER_SIZE then
      if !st.eof then
        var end := if st.end + BLOCK_SIZE <= |data| then st.end + BLOCK_SIZE else |data|;
        ReadPhysical(crc, data, ReadState(st.end, end, end - st.end < BLOCK_SIZE, st.drops))
      else
        Physical(EOF, [], st.(begin := st.end))
    else
      ParseRecord(crc, data, st)
  }

  function ParseRecord(crc: Crc, data: Bytes, st: ReadState): (r: Physical)
    requires InFile(data, st) && st.begin + HEADER_SIZE <= st.end
    ensures InFile(data, r.st) && st.begin < r.st.begin
  {
    var b := data[st.begin..st.end];
    var kind := b[6];
    var length := b[4] + b[5] as int * 256;
    var skipped := st.(begin := st.end);
    if HEADER_SIZE + length > |b| then
      if !st.eof then Physical(BAD_RECORD, [], skipped.(drops := st.drops + 1))
      else Physical(EOF, [], skipped)
    else if kind == ZERO_TYPE && length == 0 then
      Physical(BAD_RECORD, [], skipped)
    else if crc(0, b[6..HEADER_SIZE + length]) != Unmask(DecodeFixed32(b[..4])) then
      Physical(BAD_RECORD, [], skipped.(drops := st.drops + 1))
    else
      Physical(kind, b[HEADER_SIZE..HEADER_SIZE + length],
               st.(begin := st.begin + HEADER_SIZE + length))
  }

  datatype Logical = Logical(record: Option<Bytes>, st: ReadState)

  /** One call of ReadRecord, from the point where `scratch` has been collected. */
  function ReadLogical(crc: Crc, data: Bytes, st: ReadState, inFragmented: bool, scratch: Bytes): (r: Logical)
    requires InFile(data, st)
    ensures InFile(data, r.st)
    ensures r.record.Some? ==> st.begin < r.st.begin
    decreases |data| - st.begin
  {
    var p := ReadPhysical(crc, data, st);
    var lost := p.st.(drops := p.st.drops + if inFragmented && scratch != [] then 1 else 0);
    if p.kind == FULL_TYPE then Logical(Some(p.fragment), lost)
    else if p.kind == FIRST_TYPE then ReadLogical(crc, data, lost, true, p.fragment)
    else if p.kind == MIDDLE_TYPE then
      if inFragmented then ReadLogical(crc, data, p.st, true, scratch + p.fragment)
      else ReadLogical(crc, data, p.st.(drops := p.st.drops + 1), false, scratch)
    else if p.kind == LAST_TYPE then
      if inFragmented then Logical(Some(scratch + p.fragment), p.st)
      else ReadLogical(crc, data, p.st.(drops := p.st.drops + 1), false, scratch)
    else if p.kind == EOF then Logical(None, p.st)
    else if p.kind == BAD_RECORD then
      ReadLogical(crc, data, p.st.(drops := p.st.drops + if inFragmented then 1 else 0), false,
                  if inFragmented then [] else scratch)
    else
      ReadLogical(crc, data, p.st.(drops := p.st.drops + 1), false, [])
  }

  datatype AllRecords = AllRecords(records: seq<Bytes>, drops: nat)

  /** ReadRecord until it fails, as RecoverLogFile and VersionSet::Recover do. */
  function ReadAllFrom(crc: Crc, data: Bytes, st: ReadState): AllRecords
    requires InFile(data, st)
    decreases |data| - st.begin
  {
    var r := ReadLogical(crc, data, st, false, []);
    if r.record.None? then AllRecords([], r.st.drops)
    else
      var rest := ReadAllFrom(crc, data, r.st);
      AllRecords([r.record.value] + rest.records, rest.drops)
  }

  method ReadAll(crc: Crc, file: Bytes) returns (records: seq<Bytes>, corruptions: nat)
    ensures AllRecords(records, corruptions) == ReadAllFrom(crc, file, ReadState(0, 0, false, 0))
  {
    hide ReadLogical;
    var reader := new Reader(crc, file);
    records := [];
    ghost var all := ReadAllFrom(crc, file, ReadState(0, 0, false, 0));
    while true
      invariant reader.Valid() && reader.crc == crc && reader.file == file
      invariant var rest := ReadAllFrom(crc, file, reader.State());
                all.records == records + rest.records && all.drops == rest.drops
      decreases |file| - reader.State().begin
    {
      ghost var st := reader.State();
      var record := reader.ReadRecord();
      if record.None? {
        break;
      }
      records := records + [record.value];
    }
    corruptions := reader.corruptions;
  }

  class Reader {
    const crc: Crc
    const file: Bytes
    var filePosition: nat
    var buffer: Bytes
    var eof: bool
    var corruptions: nat

    constructor (crc: Crc, file: Bytes)
      ensures Valid() && State() == ReadState(0, 0, false, 0) && this.crc == crc && this.file == file
    {
      this.crc, this.file := crc, file;
      filePosition, buffer, eof, corruptions := 0, [], false, 0;
    }

    ghost predicate Valid()
      reads this
    {
      |buffer| <= filePosition <= |file| && buffer == file[filePosition - |buffer|..filePosition]
    }

    ghost function State(): (st: ReadState)
      requires Valid()
      reads this
      ensures InFile(file, st)
    {
      ReadState(filePosition - |buffer|, filePosition, eof, corruptions)
    }

    method ReadPhysicalRecord() returns (kind: nat, fragment: Bytes)
      requires Valid()
      modifies this
      ensures Valid() && Physical(kind, fragment, State()) == ReadPhysical(crc, file, old(State()))
    {
      hide ParseRecord;
      ghost var result := ReadPhysical(crc, file, State());
      while true
        invariant Valid() && ReadPhysical(crc, file, State()) == result
        decreases if eof then 0 else 1, |file| - filePosition
      {
        if |buffer| < HEADER_SIZE {
          if !eof {
            buffer := if filePosition + BLOCK_SIZE <= |file| then file[filePosition..filePosition + BLOCK_SIZE]
                      else file[filePosition..];
            filePosition := filePosition + |buffer|;
            if |buffer| < BLOCK_SIZE {
              eof := true;
            }
            continue;
          } else {
            buffer := [];
            return EOF, [];
          }
        }
        kind, fragment := ParseHeader();
        return;
      }
    }

    /** The rest of ReadPhysicalRecord, once a header is in the buffer. */
    method ParseHeader() returns (kind: nat, fragment: Bytes)
      requires Valid() && |buffer| >= HEADER_SIZE
      modifies this
      ensures Valid() && Physical(kind, fragment, State()) == ParseRecord(crc, file, old(State()))
    {
      hide Unmask, DecodeFixed32;
      fragment := [];
      kind := buffer[6];
      var length := buffer[4] + buffer[5] as int * 256;
      if HEADER_SIZE + length > |buffer| {
        buffer := [];
        if !eof {
          corruptions := corruptions + 1;
          kind := BAD_RECORD;
        } else {
          kind := EOF;
        }
        return;
      }
      if kind == ZERO_TYPE && length == 0 {
        buffer := [];
        kind := BAD_RECORD;
        return;
      }
      var expected := Unmask(DecodeFixed32(buffer[..4]));
      var actual := crc(0, buffer[6..HEADER_SIZE + length]);
      if actual != expected {
        buffer := [];
        corruptions := corruptions + 1;
        kind := BAD_RECORD;
        return;
      }
      fragment := buffer[HEADER_SIZE..HEADER_SIZE + length];
      buffer := buffer[HEADER_SIZE + length..];
    }

    method ReportCorruption()
      requires Valid()
      modifies this
      ensures Valid() && State() == old(State()).(drops := old(State()).drops + 1)
    {
      corruptions := corruptions + 1;
    }

    method ReadRecord() returns (record: Option<Bytes>)
      requires Valid()
      modifies this
      ensures Valid() && Logical(record, State()) == ReadLogical(crc, file, old(State()), false, [])
    {
      hide ReadPhysical, Valid;
      var scratch: Bytes := [];
      var inFragmentedRecord := false;
      ghost var result := ReadLogical(crc, file, State(), false, []);
      while true
        invariant Valid() && ReadLogical(crc, file, State(), inFragmentedRecord, scratch) == result
        decreases |file| - State().begin
      {
        var kind, fragment := ReadPhysicalRecord();
        if kind == FULL_TYPE {
          if inFragmentedRecord && scratch != [] {
            ReportCorruption();
          }
          return Some(fragment);
        } else if kind == FIRST_TYPE {
          if inFragmentedRecord && scratch != [] {
            ReportCorruption();
          }
          scratch := fragment;
          inFragmentedRecord := true;
        } else if kind == MIDDLE_TYPE {
          if !inFragmentedRecord {
            ReportCorruption();
          } else {
            scratch := scratch + fragment;
          }
        } else if kind == LAST_TYPE {
          if !inFragmentedRecord {
            ReportCorruption();
          } else {
            return Some(scratch + fragment);
          }
        } else if kind == EOF {
          return None;
        } else if kind == BAD_RECORD {
          if inFragmentedRecord {
            ReportCorruption();
            inFragmentedRecord := false;
            scratch := [];
          }
        } else {
          ReportCorruption();
          inFragmentedRecord := false;
          scratch := [];
        }
      }
    }
  }
}

/** Any prefix of a written log reads back as the records it holds completely. */
module LogRoundTrip {
  import opened InternalKeys
  import opened Coding
  import opened LogFormat
  import opened LogWriter
  import opened LogReader

  /** The whole log that a writer makes of these records. */
  ghost function LogOf(crc: Crc, records: seq<Bytes>): Bytes {
    Layout(crc, 0, LogFragments(0, records))
  }

  /** The reader of data, a prefix of `full`, is about to read the fragments fs, of which it holds
    * the rest of one block.  `off` is its offset in that block; a full block and the beginning of
    * the next are the same place.
    */
  ghost predicate Synced(crc: Crc, full: Bytes, data: Bytes, st: ReadState, off: nat, fs: seq<Fragment>) {
    && data <= full && InFile(data, st) && off <= BLOCK_SIZE
    && AllFit(off, fs) && full[st.begin..] == Layout(crc, off, fs)
    && (if st.eof then st.end == |data| && |data| - st.begin < BLOCK_SIZE - off
        else st.end - st.begin == BLOCK_SIZE - off)
  }

  lemma NextBlock(crc: Crc, full: Bytes, data: Bytes, st: ReadState, off: nat, fs: seq<Fragment>)
    requires Synced(crc, full, data, st, off, fs) && !st.eof && st.end - st.begin < HEADER_SIZE
    ensures fs != [] ==>
      && Fits(off, fs[0]) && Fits(0, fs[0]) && EndOffset(off, fs[0]) == EndOffset(0, fs[0])
      && |FragmentBytes(crc, off, fs[0])| == st.end - st.begin + |FragmentBytes(crc, 0, fs[0])|
    ensures var end := if st.end + BLOCK_SIZE <= |data| then st.end + BLOCK_SIZE else |data|;
            Synced(crc, full, data, ReadState(st.end, end, end - st.end < BLOCK_SIZE, st.drops), 0, fs)
  {
    if fs != [] {
      TrailerSkipped(crc, off, fs);
      assert full[st.end..] == full[st.begin..][Trailer(off)..];
    }
  }

  /** The layout that begins with a trailer is that of the next block behind it. */
  lemma TrailerSkipped(crc: Crc, off: nat, fs: seq<Fragment>)
    requires off <= BLOCK_SIZE && BLOCK_SIZE - off < HEADER_SIZE && fs != [] && AllFit(off, fs)
    ensures Fits(0, fs[0]) && EndOffset(off, fs[0]) == EndOffset(0, fs[0]) && AllFit(0, fs)
    ensures |FragmentBytes(crc, off, fs[0])| == Trailer(off) + |FragmentBytes(crc, 0, fs[0])|
    ensures Layout(crc, off, fs) == Zeros(Trailer(off)) + Layout(crc, 0, fs)
  {
    hide Header, Zeros;
    var f := fs[0];
    assert Zeros(0) == [];
    InFront(Zeros(Trailer(off)), Header(crc, f), f.payload, Layout(crc, EndOffset(off, f), fs[1..]));
  }

  lemma InFront(z: Bytes, a: Bytes, b: Bytes, c: Bytes)
    ensures (z + a + b) + c == z + (([] + a + b) + c)
  {
    assert [] + a == a;
    assert z + a + b == z + (a + b);
  }

  /** One fragment: read back if it is all there, otherwise the end of the file. */
  ghost predicate ReadsBack(crc: Crc, full: Bytes, data: Bytes, st: ReadState, off: nat, fs: seq<Fragment>)
    requires InFile(data, st) && AllFit(off, fs)
  {
    var r := ReadPhysical(crc, data, st);
    && r.st.drops == st.drops
    && if fs != [] && st.begin + |FragmentBytes(crc, off, fs[0])| <= |data| then
         && r.kind == fs[0].kind && r.fragment == fs[0].payload
         && r.st.begin == st.begin + |FragmentBytes(crc, off, fs[0])|
         && Synced(crc, full, data, r.st, EndOffset(off, fs[0]), fs[1..])
       else r.kind == EOF
  }

  /** With room for a header in the block, the buffer starts with the next fragment's bytes. */
  lemma BufferStarts(crc: Crc, full: Bytes, data: Bytes, st: ReadState, off: nat, fs: seq<Fragment>)
    requires Synced(crc, full, data, st, off, fs) && st.begin + HEADER_SIZE <= st.end
    ensures fs != [] && Trailer(off) == 0
    ensures var f, b := fs[0], data[st.begin..st.end];
            && b[..HEADER_SIZE] == Header(crc, f)
            && (st.begin + HEADER_SIZE + |f.payload| <= st.end
                ==> b[HEADER_SIZE..HEADER_SIZE + |f.payload|] == f.payload)
    ensures full[st.begin + HEADER_SIZE + |fs[0].payload|..] == Layout(crc, EndOffset(off, fs[0]), fs[1..])
  {
    hide Header;
    assert |full[st.begin..]| >= HEADER_SIZE;
    var f := fs[0];
    var tail := full[st.begin..];
    var rest := Layout(crc, EndOffset(off, f), fs[1..]);
    assert tail == Header(crc, f) + f.payload + rest;
    assert data[st.begin..st.end] == tail[..st.end - st.begin];
    assert tail[..HEADER_SIZE] == Header(crc, f);
    assert tail[HEADER_SIZE..HEADER_SIZE + |f.payload|] == f.payload;
    assert tail[HEADER_SIZE + |f.payload|..] == rest;
  }

  lemma HeaderDecodes(crc: Crc, f: Fragment)
    requires |f.payload| < 0x1_0000
    ensures var h := Header(crc, f);
            && h[6] == f.kind && h[4] + h[5] as int * 256 == |f.payload|
            && Unmask(DecodeFixed32(h[..4])) == crc(0, [f.kind] + f.payload)
  {
    var sum := crc(0, [f.kind] + f.payload);
    UnmaskMask(sum);
    DecodeEncodeFixed32(Mask(sum));
    assert Header(crc, f)[..4] == EncodeFixed32(Mask(sum));
  }

  lemma ParseReadsBack(crc: Crc, full: Bytes, data: Bytes, st: ReadState, off: nat, fs: seq<Fragment>)
    requires Synced(crc, full, data, st, off, fs) && st.begin + HEADER_SIZE <= st.end
    ensures ReadsBack(crc, full, data, st, off, fs)
  {
    hide Header, Unmask, DecodeFixed32, Layout, RotateLeft15, Trailer;
    BufferStarts(crc, full, data, st, off, fs);
    var f, b := fs[0], data[st.begin..st.end];
    HeaderDecodes(crc, f);
    var h := Header(crc, f);
    assert b[6] == h[6] && b[4] == h[4] && b[5] == h[5] && b[..4] == h[..4];
    if HEADER_SIZE + |f.payload| <= |b| {
      assert b[6..HEADER_SIZE + |f.payload|] == [f.kind] + f.payload;
    }
  }

  lemma {:induction false} PhysicalReadsBack(crc: Crc, full: Bytes, data: Bytes, st: ReadState,
                                             off: nat, fs: seq<Fragment>)
    requires Synced(crc, full, data, st, off, fs)
    ensures ReadsBack(crc, full, data, st, off, fs)
    decreases if st.eof then 0 else 1, |data| - st.end
  {
    if st.end - st.begin < HEADER_SIZE {
      if !st.eof {
        NextBlock(crc, full, data, st, off, fs);
        var end := if st.end + BLOCK_SIZE <= |data| then st.end + BLOCK_SIZE else |data|;
        PhysicalReadsBack(crc, full, data, ReadState(st.end, end, end - st.end < BLOCK_SIZE, st.drops), 0, fs);
      }
    } else {
      ParseReadsBack(crc, full, data, st, off, fs);
    }
  }

  /** What reading one record, or the rest of one, must come to. */
  ghost predicate RecordReadsBack(crc: Crc, full: Bytes, data: Bytes, st: ReadState, off: nat,
                                  left: Bytes, begin: bool, scratch: Bytes, more: seq<Fragment>)
    requires off <= BLOCK_SIZE && InFile(data, st)
  {
    var r := ReadLogical(crc, data, st, !begin, scratch);
    var fs := Fragments(off, left, begin);
    var end := st.begin + |Layout(crc, off, fs)|;
    && r.st.drops == st.drops
    && if end <= |data| then
         && r.record == Some(scratch + left) && r.st.begin == end
         && Synced(crc, full, data, r.st, OffsetAfter(off, fs), more)
       else r.record == None
  }

  /** One record: read back if its last fragment is all there, otherwise the end of the file. */
  lemma {:induction false} LogicalReadsBack(crc: Crc, full: Bytes, data: Bytes, st: ReadState, off: nat,
                                            left: Bytes, begin: bool, scratch: Bytes, more: seq<Fragment>)
    requires off <= BLOCK_SIZE && (begin ==> scratch == [])
    requires Synced(crc, full, data, st, off, Fragments(off, left, begin) + more)
    ensures RecordReadsBack(crc, full, data, st, off, left, begin, scratch, more)
    decreases |left|, StartOffset(off)
  {
    hide FragmentBytes, ReadPhysical, Layout, Fragments, RecordReadsBack, ReadLogical;
    var n := FragmentLength(off, |left|);
    var f := Fragment(FragmentType(begin, n == |left|), left[..n]);
    OneMoreFragment(crc, off, left, begin, f);
    if n == |left| {
      LastFragment(crc, full, data, st, off, left, begin, scratch, more, f);
    } else {
      Advances(off, left, f);
      var rest := left[n..];
      var after := Fragments(EndOffset(off, f), rest, false);
      FragmentStep(crc, full, data, st, off, f, after, more);
      if st.begin + |FragmentBytes(crc, off, f)| <= |data| {
        var p := ReadPhysical(crc, data, st);
        LogicalReadsBack(crc, full, data, p.st, EndOffset(off, f), rest, false, scratch + f.payload, more);
      }
      EarlierFragment(crc, full, data, st, off, left, begin, scratch, more, f, rest);
    }
  }

  lemma LastFragment(crc: Crc, full: Bytes, data: Bytes, st: ReadState, off: nat, left: Bytes,
                     begin: bool, scratch: Bytes, more: seq<Fragment>, f: Fragment)
    requires off <= BLOCK_SIZE && (begin ==> scratch == []) && InFile(data, st)
    requires Synced(crc, full, data, st, off, Fragments(off, left, begin) + more)
    requires f == Fragment(FragmentType(begin, true), left) && FragmentLength(off, |left|) == |left|
    ensures RecordReadsBack(crc, full, data, st, off, left, begin, scratch, more)
  {
    hide Synced, Layout, Fragments, AllFit, OffsetAfter, FragmentBytes, ReadPhysical, Fits, StartOffset,
      FragmentLength, ReadLogical, EndOffset;
    assert left[..|left|] == left;
    OneMoreFragment(crc, off, left, begin, f);
    assert [f] + [] + more == [f] + more && [] + more == more;
    FragmentStep(crc, full, data, st, off, f, [], more);
    LogicalStep(crc, data, st, !begin, scratch);
  }

  lemma EarlierFragment(crc: Crc, full: Bytes, data: Bytes, st: ReadState, off: nat, left: Bytes,
                        begin: bool, scratch: Bytes, more: seq<Fragment>, f: Fragment, rest: Bytes)
    requires off <= BLOCK_SIZE && (begin ==> scratch == []) && Fits(off, f) && InFile(data, st)
    requires left == f.payload + rest && f.kind == (if begin then FIRST_TYPE else MIDDLE_TYPE)
    requires Synced(crc, full, data, st, off, [f] + Fragments(EndOffset(off, f), rest, false) + more)
    requires |Layout(crc, off, Fragments(off, left, begin))| == |FragmentBytes(crc, off, f)|
               + |Layout(crc, EndOffset(off, f), Fragments(EndOffset(off, f), rest, false))|
    requires OffsetAfter(off, Fragments(off, left, begin))
               == OffsetAfter(EndOffset(off, f), Fragments(EndOffset(off, f), rest, false))
    requires st.begin + |FragmentBytes(crc, off, f)| <= |data| ==>
               RecordReadsBack(crc, full, data, ReadPhysical(crc, data, st).st, EndOffset(off, f),
                               rest, false, scratch + f.payload, more)
    ensures RecordReadsBack(crc, full, data, st, off, left, begin, scratch, more)
  {
    hide Synced, Layout, Fragments, AllFit, OffsetAfter, FragmentBytes, ReadPhysical, Fits, StartOffset,
      FragmentLength, ReadLogical, EndOffset;
    FragmentStep(crc, full, data, st, off, f, Fragments(EndOffset(off, f), rest, false), more);
    LogicalStep(crc, data, st, !begin, scratch);
    assert scratch + f.payload + rest == scratch + left;
  }

  lemma Advances(off: nat, left: Bytes, f: Fragment)
    requires off <= BLOCK_SIZE && Fits(off, f) && |f.payload| == FragmentLength(off, |left|) < |left|
    ensures |f.payload| > 0 || StartOffset(EndOffset(off, f)) < StartOffset(off)
  {
  }

  /** What ReadRecord makes of the fragments of an undamaged log. */
  lemma LogicalStep(crc: Crc, data: Bytes, st: ReadState, inFragmented: bool, scratch: Bytes)
    requires InFile(data, st) && (!inFragmented ==> scratch == [])
    ensures var p := ReadPhysical(crc, data, st);
            var r := ReadLogical(crc, data, st, inFragmented, scratch);
            && (p.kind == EOF ==> r == Logical(None, p.st))
            && (p.kind == (if inFragmented then LAST_TYPE else FULL_TYPE) ==>
                  r == Logical(Some(scratch + p.fragment), p.st))
            && (p.kind == (if inFragmented then MIDDLE_TYPE else FIRST_TYPE) ==>
                  r == ReadLogical(crc, data, p.st, true, scratch + p.fragment))
  {
    var p := ReadPhysical(crc, data, st);
    assert !inFragmented ==> scratch + p.fragment == p.fragment;
  }

  lemma FragmentStep(crc: Crc, full: Bytes, data: Bytes, st: ReadState, off: nat, f: Fragment,
                     after: seq<Fragment>, more: seq<Fragment>)
    requires Synced(crc, full, data, st, off, [f] + after + more)
    ensures Fits(off, f)
    ensures var p := ReadPhysical(crc, data, st);
            && p.st.drops == st.drops
            && if st.begin + |FragmentBytes(crc, off, f)| <= |data| then
                 && p.kind == f.kind && p.fragment == f.payload
                 && p.st.begin == st.begin + |FragmentBytes(crc, off, f)|
                 && Synced(crc, full, data, p.st, EndOffset(off, f), after + more)
               else p.kind == EOF
  {
    var fs := [f] + after + more;
    PhysicalReadsBack(crc, full, data, st, off, fs);
    assert fs[0] == f && fs[1..] == after + more;
  }

  // ---- whole logs -----------------------------------------------------------------------------------

  /** The end of a block and the beginning of the next are the same place. */
  lemma BlockBoundary(crc: Crc, records: seq<Bytes>)
    ensures LogFragments(BLOCK_SIZE, records) == LogFragments(0, records)
    ensures Layout(crc, BLOCK_SIZE, LogFragments(0, records)) == Layout(crc, 0, LogFragments(0, records))
  {
    if records != [] {
      var fs := Fragments(0, records[0], true);
      assert Fragments(BLOCK_SIZE, records[0], true) == fs;
      assert OffsetAfter(BLOCK_SIZE, fs) == OffsetAfter(0, fs);
      var all := LogFragments(0, records);
      assert all[0] == fs[0];
      assert FragmentBytes(crc, BLOCK_SIZE, all[0]) == FragmentBytes(crc, 0, all[0]);
    }
  }

  /** How many of the records have all their bytes in this much room. */
  ghost function CompleteRecords(crc: Crc, off: nat, records: seq<Bytes>, room: int): (k: nat)
    requires off <= BLOCK_SIZE
    ensures k <= |records|
    decreases |records|
  {
    if records == [] then 0
    else
      var fs := Fragments(off, records[0], true);
      var size := |Layout(crc, off, fs)|;
      if size <= room then 1 + CompleteRecords(crc, OffsetAfter(off, fs), records[1..], room - size) else 0
  }

  lemma FirstRecord(crc: Crc, off: nat, records: seq<Bytes>)
    requires off <= BLOCK_SIZE && records != []
    ensures var fs := Fragments(off, records[0], true);
            var rest := LogFragments(OffsetAfter(off, fs), records[1..]);
            && LogFragments(off, records) == fs + rest
            && Layout(crc, off, fs + rest) == Layout(crc, off, fs) + Layout(crc, OffsetAfter(off, fs), rest)
  {
    var fs := Fragments(off, records[0], true);
    LayoutAppends(crc, off, fs, LogFragments(OffsetAfter(off, fs), records[1..]));
  }

  lemma {:induction false} TailReadsBack(crc: Crc, full: Bytes, data: Bytes, st: ReadState, off: nat,
                                         records: seq<Bytes>)
    requires off <= BLOCK_SIZE && Synced(crc, full, data, st, off, LogFragments(off, records))
    ensures ReadAllFrom(crc, data, st)
            == AllRecords(records[..CompleteRecords(crc, off, records, |data| - st.begin)], st.drops)
    decreases |records|
  {
    hide Fragments, ReadLogical, Layout, Fits, AllFit;
    if records == [] {
      PhysicalReadsBack(crc, full, data, st, off, []);
      LogicalStep(crc, data, st, false, []);
    } else {
      FirstRecord(crc, off, records);
      var fs := Fragments(off, records[0], true);
      var more := LogFragments(OffsetAfter(off, fs), records[1..]);
      LogicalReadsBack(crc, full, data, st, off, records[0], true, [], more);
      assert [] + records[0] == records[0];
      var r := ReadLogical(crc, data, st, false, []);
      if r.record.Some? {
        TailReadsBack(crc, full, data, r.st, OffsetAfter(off, fs), records[1..]);
      }
    }
  }

  /** Reading the first n bytes of a log gives its complete records, in order, and no corruption. */
  lemma TornLogReadsBack(crc: Crc, records: seq<Bytes>, n: nat)
    requires n <= |LogOf(crc, records)|
    ensures ReadAllFrom(crc, LogOf(crc, records)[..n], ReadState(0, 0, false, 0))
            == AllRecords(records[..CompleteRecords(crc, 0, records, n)], 0)
  {
    BlockBoundary(crc, records);
    SameCompleteRecords(crc, records, n);
    var full := LogOf(crc, records);
    assert full[0..] == full;
    TailReadsBack(crc, full, full[..n], ReadState(0, 0, false, 0), BLOCK_SIZE, records);
  }

  lemma SameCompleteRecords(crc: Crc, records: seq<Bytes>, n: nat)
    ensures CompleteRecords(crc, BLOCK_SIZE, records, n) == CompleteRecords(crc, 0, records, n)
  {
    if records != [] {
      assert Fragments(BLOCK_SIZE, records[0], true) == Fragments(0, records[0], true);
      var fs := Fragments(0, records[0], true);
      assert OffsetAfter(BLOCK_SIZE, fs) == OffsetAfter(0, fs);
      assert |Layout(crc, BLOCK_SIZE, fs)| == |Layout(crc, 0, fs)|;
    }
  }

  /** A record counts as complete just when the log up to and including it fits in the prefix. */
  lemma {:induction false} CompleteMeansWritten(crc: Crc, off: nat, records: seq<Bytes>, room: nat, j: nat)
    requires off <= BLOCK_SIZE && j <= |records|
    ensures j <= CompleteRecords(crc, off, records, room)
            <==> |Layout(crc, off, LogFragments(off, records[..j]))| <= room
    decreases |records|
  {
    hide Fragments, Layout;
    if j == 0 {
      EmptyLayout(crc, off);
    } else {
      FirstRecord(crc, off, records[..j]);
      var fs := Fragments(off, records[0], true);
      var size := |Layout(crc, off, fs)|;
      assert records[..j][1..] == records[1..][..j - 1];
      if size <= room {
        CompleteMeansWritten(crc, OffsetAfter(off, fs), records[1..], room - size, j - 1);
      }
    }
  }

  lemma EmptyLayout(crc: Crc, off: nat)
    requires off <= BLOCK_SIZE
    ensures Layout(crc, off, LogFragments(off, [])) == []
  {
  }

  // ---- writing whole logs -----------------------------------------------------------------------------

  lemma {:induction false} LogGrows(crc: Crc, off: nat, records: seq<Bytes>, record: Bytes)
    requires off <= BLOCK_SIZE
    ensures var fs := LogFragments(off, records);
            var f := Fragments(OffsetAfter(off, fs), record, true);
            && AllFit(off, fs + f) && LogFragments(off, records + [record]) == fs + f
            && Layout(crc, off, fs + f) == Layout(crc, off, fs) + Layout(crc, OffsetAfter(off, fs), f)
            && OffsetAfter(off, fs + f) == OffsetAfter(OffsetAfter(off, fs), f)
    decreases |records|
  {
    hide Fragments, Layout;
    var fs := LogFragments(off, records);
    LayoutAppends(crc, off, fs, Fragments(OffsetAfter(off, fs), record, true));
    OffsetAppends(off, fs, Fragments(OffsetAfter(off, fs), record, true));
    if records == [] {
      assert [record][1..] == [] && [] + [record] == [record];
      assert Fragments(off, record, true) + [] == Fragments(off, record, true);
    } else {
      var first := Fragments(off, records[0], true);
      LogGrows(crc, OffsetAfter(off, first), records[1..], record);
      assert (records + [record])[1..] == records[1..] + [record];
      OffsetAppends(off, first, LogFragments(OffsetAfter(off, first), records[1..]));
    }
  }

  lemma {:induction false} OffsetAppends(off: nat, a: seq<Fragment>, b: seq<Fragment>)
    requires off <= BLOCK_SIZE && AllFit(off, a) && AllFit(OffsetAfter(off, a), b)
    ensures AllFit(off, a + b) && OffsetAfter(off, a + b) == OffsetAfter(OffsetAfter(off, a), b)
    decreases |a|
  {
    if a == [] {
      assert a + b == b;
    } else {
      OffsetAppends(EndOffset(off, a[0]), a[1..], b);
      assert (a + b)[1..] == a[1..] + b && (a + b)[0] == a[0];
    }
  }

  /** What a writer leaves in a new file. */
  method WriteLog(crc: Crc, records: seq<Bytes>) returns (file: Bytes)
    requires Streams(crc)
    ensures file == LogOf(crc, records)
  {
    hide Fragments, Layout, LogFragments;
    var writer := new Writer(crc);
    EmptyLayout(crc, 0);
    NoFragments();
    for i := 0 to |records|
      invariant writer.Valid() && writer.crc == crc
      invariant writer.dest == Layout(crc, 0, LogFragments(0, records[..i]))
      invariant writer.blockOffset == OffsetAfter(0, LogFragments(0, records[..i]))
    {
      LogGrows(crc, 0, records[..i], records[i]);
      assert records[..i + 1] == records[..i] + [records[i]];
      writer.AddRecord(records[i]);
    }
    assert records[..|records|] == records;
    file := writer.dest;
  }

  lemma NoFragments()
    ensures LogFragments(0, []) == [] && forall records: seq<Bytes> :: records[..0] == []
  {
  }

  /** All records are complete in a log that is all there. */
  lemma AllComplete(crc: Crc, records: seq<Bytes>, n: nat)
    requires n == |LogOf(crc, records)|
    ensures CompleteRecords(crc, 0, records, n) == |records|
  {
    hide LogFragments, Layout;
    CompleteMeansWritten(crc, 0, records, n, |records|);
    assert records[..|records|] == records;
  }
}

/** Whatever is in a file, no record is read from it that was not stored there, piece by piece, with its checksums. */
module LogSoundness {
  import opened InternalKeys
  import opened Sequences
  import opened Coding
  import opened LogFormat
  import opened LogReader

  /** A fragment with its header: four bytes of checksum, two of length, one of type. */
  ghost predicate StoredAt(crc: Crc, data: Bytes, pos: nat, f: Fragment) {
    && pos + 7 + |f.payload| <= |data|
    && data[pos + 4] as int + 256 * data[pos + 5] as int == |f.payload| && data[pos + 6] == f.kind
    && data[pos + 7..pos + 7 + |f.payload|] == f.payload
    && Unmask(DecodeFixed32(data[pos..pos + 4])) == crc(0, [f.kind] + f.payload)
  }

  /** The fragments are stored one behind the other, from one place on and up to another. */
  ghost predicate Stored(crc: Crc, data: Bytes, from: nat, to: nat, fs: seq<Fragment>)
    decreases |fs|
  {
    if fs == [] then from <= to
    else exists pos :: from <= pos && StoredAt(crc, data, pos, fs[0])
                       && Stored(crc, data, pos + 7 + |fs[0].payload|, to, fs[1..])
  }

  function Joined(fs: seq<Fragment>): Bytes {
    if fs == [] then [] else Joined(fs[..|fs| - 1]) + fs[|fs| - 1].payload
  }

  /** The first fragment of a record and more of it, but not its last. */
  ghost predicate Begun(fs: seq<Fragment>) {
    fs != [] && fs[0].kind == 2 && forall i :: 0 < i < |fs| ==> fs[i].kind == 3
  }

  /** A record in one piece, or in a first, any number of middle and a last one. */
  ghost predicate MakesRecord(fs: seq<Fragment>, record: Bytes) {
    && fs != [] && record == Joined(fs)
    && if |fs| == 1 then fs[0].kind == 1 else fs[|fs| - 1].kind == 4 && Begun(fs[..|fs| - 1])
  }

  lemma {:induction false} StoredJoins(crc: Crc, data: Bytes, a: nat, b: nat, c: nat, fs: seq<Fragment>, gs: seq<Fragment>)
    requires Stored(crc, data, a, b, fs) && Stored(crc, data, b, c, gs)
    ensures Stored(crc, data, a, c, fs + gs)
    decreases |fs|
  {
    hide StoredAt;
    if fs == [] {
      assert fs + gs == gs;
      StoredEarlier(crc, data, a, b, c, gs);
    } else {
      var pos :| a <= pos && StoredAt(crc, data, pos, fs[0]) && Stored(crc, data, pos + 7 + |fs[0].payload|, b, fs[1..]);
      StoredJoins(crc, data, pos + 7 + |fs[0].payload|, b, c, fs[1..], gs);
      var all := fs + gs;
      assert all[0] == fs[0] && all[1..] == fs[1..] + gs;
      assert StoredAt(crc, data, pos, all[0]) && Stored(crc, data, pos + 7 + |all[0].payload|, c, all[1..]);
    }
  }

  lemma StoredEarlier(crc: Crc, data: Bytes, a: nat, b: nat, c: nat, fs: seq<Fragment>)
    requires a <= b && Stored(crc, data, b, c, fs)
    ensures Stored(crc, data, a, c, fs)
  {
  }

  lemma OneStored(crc: Crc, data: Bytes, from: nat, pos: nat, f: Fragment)
    requires from <= pos && StoredAt(crc, data, pos, f)
    ensures Stored(crc, data, from, pos + 7 + |f.payload|, [f])
  {
    hide StoredAt;
    var fs := [f];
    assert fs[0] == f && fs[1..] == [];
    assert StoredAt(crc, data, pos, fs[0]) && Stored(crc, data, pos + 7 + |fs[0].payload|, pos + 7 + |f.payload|, fs[1..]);
  }

  /** A fragment that is returned was stored further on. */
  lemma {:induction false} PhysicalIsStored(crc: Crc, data: Bytes, st: ReadState) returns (pos: nat)
    requires InFile(data, st)
    ensures var r := ReadPhysical(crc, data, st);
            1 <= r.kind <= 4 ==> && st.begin <= pos && r.st.begin == pos + 7 + |r.fragment|
                                 && StoredAt(crc, data, pos, Fragment(r.kind, r.fragment))
    decreases if st.eof then 0 else 1, |data| - st.end
  {
    hide ParseRecord, StoredAt;
    pos := st.begin;
    if st.end - st.begin < HEADER_SIZE {
      if !st.eof {
        var end := if st.end + BLOCK_SIZE <= |data| then st.end + BLOCK_SIZE else |data|;
        pos := PhysicalIsStored(crc, data, ReadState(st.end, end, end - st.end < BLOCK_SIZE, st.drops));
      }
    } else {
      ParsedIsStored(crc, data, st);
    }
  }

  lemma ParsedIsStored(crc: Crc, data: Bytes, st: ReadState)
    requires InFile(data, st) && st.begin + HEADER_SIZE <= st.end
    ensures var r := ParseRecord(crc, data, st);
            1 <= r.kind <= 4 ==> r.st.begin == st.begin + 7 + |r.fragment|
                                 && StoredAt(crc, data, st.begin, Fragment(r.kind, r.fragment))
  {
    hide Unmask, DecodeFixed32;
    var b := data[st.begin..st.end];
    var length := b[4] + b[5] as int * 256;
    if HEADER_SIZE + length <= |b| {
      PiecesOf(data, st.begin, st.end, length);
    }
  }

  lemma PiecesOf(data: Bytes, begin: nat, end: nat, length: nat)
    requires begin + 7 + length <= end <= |data|
    ensures var b := data[begin..end];
            && b[4] == data[begin + 4] && b[5] == data[begin + 5] && b[6] == data[begin + 6]
            && b[..4] == data[begin..begin + 4] && b[7..7 + length] == data[begin + 7..begin + 7 + length]
            && b[6..7 + length] == [b[6]] + b[7..7 + length] && b[6..7 + length] == data[begin + 6..begin + 7 + length]
  {
    PieceOf(data, begin, end, 0, 4);
    PieceOf(data, begin, end, 7, 7 + length);
    PieceOf(data, begin, end, 6, 7 + length);
  }

  lemma PieceOf(data: Bytes, begin: nat, end: nat, i: nat, j: nat)
    requires i <= j && begin + j <= end <= |data|
    ensures data[begin..end][i..j] == data[begin + i..begin + j]
  {
    var a, b := data[begin..end][i..j], data[begin + i..begin + j];
    assert |a| == |b| && forall k :: 0 <= k < |a| ==> a[k] == data[begin..end][i + k] == data[begin + (i + k)] == b[k];
  }

  lemma JoinedMore(fs: seq<Fragment>, f: Fragment)
    ensures Joined(fs + [f]) == Joined(fs) + f.payload
    ensures Joined([f]) == f.payload
  {
    assert (fs + [f])[..|fs|] == fs;
    assert [f][..0] == [] && [] + f.payload == f.payload;
  }

  /** What ReadRecord returns was stored, from `from` on, where the fragments collected so far are. */
  lemma {:induction false} LogicalIsStored(crc: Crc, data: Bytes, st: ReadState, inFragmented: bool, scratch: Bytes, from: nat,
                                           before: seq<Fragment>)
    returns (fs: seq<Fragment>)
    requires InFile(data, st) && from <= st.begin
    requires inFragmented ==> Begun(before) && scratch == Joined(before) && Stored(crc, data, from, st.begin, before)
    ensures var r := ReadLogical(crc, data, st, inFragmented, scratch);
            r.record.Some? ==> MakesRecord(fs, r.record.value) && Stored(crc, data, from, r.st.begin, fs)
    decreases |data| - st.begin
  {
    hide StoredAt, ReadPhysical, Joined, Stored;
    fs := [];
    var p := ReadPhysical(crc, data, st);
    var pos := PhysicalIsStored(crc, data, st);
    var f := Fragment(if p.kind < 256 then p.kind else 0, p.fragment);
    if p.kind == FULL_TYPE {
      fs := [f];
      JoinedMore([], f);
      OneStored(crc, data, from, pos, f);
    } else if p.kind == FIRST_TYPE {
      JoinedMore([], f);
      OneStored(crc, data, from, pos, f);
      var lost := p.st.(drops := p.st.drops + if inFragmented && scratch != [] then 1 else 0);
      fs := LogicalIsStored(crc, data, lost, true, p.fragment, from, [f]);
    } else if p.kind == MIDDLE_TYPE && inFragmented {
      JoinedMore(before, f);
      OneStored(crc, data, st.begin, pos, f);
      StoredJoins(crc, data, from, st.begin, p.st.begin, before, [f]);
      fs := LogicalIsStored(crc, data, p.st, true, scratch + p.fragment, from, before + [f]);
    } else if p.kind == LAST_TYPE && inFragmented {
      JoinedMore(before, f);
      OneStored(crc, data, st.begin, pos, f);
      StoredJoins(crc, data, from, st.begin, p.st.begin, before, [f]);
      fs := before + [f];
      assert fs[..|fs| - 1] == before;
    } else if p.kind != EOF {
      var lost := p.st.(drops := p.st.drops + if p.kind == BAD_RECORD && !inFragmented then 0 else 1);
      var scratch' := if p.kind == MIDDLE_TYPE || p.kind == LAST_TYPE || (p.kind == BAD_RECORD && !inFragmented)
                      then scratch else [];
      fs := LogicalIsStored(crc, data, lost, false, scratch', from, []);
    }
  }

  /** Reading a file to its end: each record was stored, one after the other. */
  lemma {:induction false} OnlyStoredIsRead(crc: Crc, data: Bytes, st: ReadState) returns (parts: seq<seq<Fragment>>)
    requires InFile(data, st)
    ensures var records := ReadAllFrom(crc, data, st).records;
            && |parts| == |records| && (forall i :: 0 <= i < |records| ==> MakesRecord(parts[i], records[i]))
            && Stored(crc, data, st.begin, |data|, Concat(parts, |parts|))
    decreases |data| - st.begin
  {
    hide StoredAt, Stored, ReadLogical, MakesRecord;
    var r := ReadLogical(crc, data, st, false, []);
    var fs := LogicalIsStored(crc, data, st, false, [], st.begin, []);
    if r.record.None? {
      parts := [];
      NothingStored(crc, data, st.begin);
    } else {
      var rest := OnlyStoredIsRead(crc, data, r.st);
      parts := [fs] + rest;
      ConcatSplit(parts, 1, |parts|);
      assert parts[1..] == rest && Concat(parts, 0) + parts[0] == fs;
      StoredJoins(crc, data, st.begin, r.st.begin, |data|, fs, Concat(rest, |rest|));
    }
  }

  lemma NothingStored(crc: Crc, data: Bytes, from: nat)
    requires from <= |data|
    ensures Stored(crc, data, from, |data|, [])
  {
  }

  /** A fragment whose checksum is wrong is refused, with the rest of its block, and that is reported. */
  lemma WrongChecksumIsReported(crc: Crc, data: Bytes, st: ReadState)
    requires st.begin + 7 <= st.end <= |data|
    requires var n := data[st.begin + 4] as int + 256 * data[st.begin + 5] as int;
             && st.begin + 7 + n <= st.end && !(data[st.begin + 6] == 0 && n == 0)
             && Unmask(DecodeFixed32(data[st.begin..st.begin + 4])) != crc(0, data[st.begin + 6..st.begin + 7 + n])
    ensures ReadPhysical(crc, data, st) == Physical(BAD_RECORD, [], st.(begin := st.end, drops := st.drops + 1))
  {
    hide Unmask, DecodeFixed32, EncodeFixed32;
    PiecesOf(data, st.begin, st.end, data[st.begin + 4] as int + 256 * data[st.begin + 5] as int);
  }
}
