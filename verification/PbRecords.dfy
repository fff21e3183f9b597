/** Which records a message is made of, and that decoding succeeds exactly if all of them can be read and none of the
  * required fields is missing.
  */
module PbRecords {
  import opened InternalKeys
  import opened Coding
  import opened PbFields
  import opened PbWire
  import opened PbEncoding
  import opened PbDecoding
  import opened PbSkipping
  import opened PbRoundTrip

  /** The bytes are records of fields with these tags, up to their end or a tag of zero; reading the records one after
    * the other makes `cells'` of the structure, and leaves the bytes `rest`.
    */
  ghost predicate Reads(fs: seq<Field>, cells: seq<Cell>, b: Bytes, tags: seq<nat>, cells': seq<Cell>, rest: Bytes)
    requires WellFormed(fs) && Sound(fs, cells)
    decreases |tags|
  {
    if tags == [] then cells' == cells && Ends(b, rest)
    else
      var key := DecodeVarint32(b);
      && b != [] && key.Some? && key.value.value != 0 && key.value.value / 8 == tags[0]
      && var r := ReadRecord(fs, cells, tags[0], key.value.value % 8, b[key.value.size..]);
         r.Some? && Reads(fs, r.value.value, r.value.rest, tags[1..], cells', rest)
  }

  ghost predicate Ends(b: Bytes, rest: Bytes) {
    var key := DecodeVarint32(b);
    if b == [] then rest == [] else key.Some? && key.value.value == 0 && rest == b[key.value.size..]
  }

  /** A record goes to the field with its tag, or is skipped if there is none. */
  ghost function ReadRecord(fs: seq<Field>, cells: seq<Cell>, tag: nat, wireType: nat, b: Bytes): (r: Option<Taken<seq<Cell>>>)
    requires WellFormed(fs) && Sound(fs, cells)
    ensures r.Some? ==> Sound(fs, r.value.value) && |r.value.rest| < |b|
  {
    match Lookup(fs, tag)
    case Some(i) =>
      SoundField(fs, cells, i);
      (match DecodeField(fs[i], wireType, cells[Home(fs, i)], b)
       case None => None
       case Some(t) =>
         PutKeepsSound(fs, cells, i, t.value);
         Some(Taken(cells[Home(fs, i) := t.value], t.rest)))
    case None =>
      match if fs == [] && tag == 0 then SkipBool(b) else Skip(wireType, b)
      case None => None
      case Some(rest) => Some(Taken(cells, rest))
  }

  /** The required fields that the decoder tracks: the first 64. */
  ghost predicate IsTracked(fs: seq<Field>, j: nat) {
    j < |fs| && fs[j].htype.Required? && |RequiredAhead(fs, j)| < 64
  }

  /** A record with the tag of each of them was there. */
  ghost predicate NoneMissing(fs: seq<Field>, tags: seq<nat>) {
    forall j :: 0 <= j < |fs| && IsTracked(fs, j) ==> fs[j].tag in tags
  }

  ghost function RequiredAhead(fs: seq<Field>, j: nat): set<nat>
    requires j <= |fs|
  {
    set i: nat | i < j && fs[i].htype.Required?
  }

  lemma {:induction false} AheadIsBefore(fs: seq<Field>, j: nat)
    requires j <= |fs|
    ensures |RequiredAhead(fs, j)| == RequiredBefore(fs, j)
  {
    if j > 0 {
      AheadIsBefore(fs, j - 1);
      assert RequiredAhead(fs, j)
             == RequiredAhead(fs, j - 1) + if fs[j - 1].htype.Required? then {j - 1} else {};
    } else {
      assert RequiredAhead(fs, 0) == {};
    }
  }

  /** The marks that records with these tags leave. */
  ghost predicate MarkedBy(fs: seq<Field>, tags: seq<nat>, seen: set<nat>, seen': set<nat>) {
    forall j :: 0 <= j < |fs| && fs[j].htype.Required? && RequiredBefore(fs, j) < MAX_REQUIRED_FIELDS
                ==> (RequiredBefore(fs, j) in seen' <==> RequiredBefore(fs, j) in seen || fs[j].tag in tags)
  }

  /** One record of the decoder's loop. */
  lemma OneRecordRead(fs: seq<Field>, cells: seq<Cell>, seen: set<nat>, b: Bytes) returns (seen': set<nat>)
    requires WellFormed(fs) && Sound(fs, cells) && b != [] && DecodeVarint32(b).Some? && DecodeVarint32(b).value.value != 0
    ensures var key := DecodeVarint32(b).value;
            && MarkedBy(fs, [key.value / 8], seen, seen')
            && match ReadRecord(fs, cells, key.value / 8, key.value % 8, b[key.size..])
               case None => DecodeFields(fs, cells, seen, b) == None
               case Some(t) => DecodeFields(fs, cells, seen, b) == DecodeFields(fs, t.value, seen', t.rest)
  {
    hide DecodeField, Skip, SkipBool, WellFormed, Sound, Finish, DecodeVarint32, Lookup;
    var tag := DecodeVarint32(b).value.value / 8;
    var i := Lookup(fs, tag);
    seen' := if i.Some? then Seen(fs, i.value, seen) else seen;
    if i.Some? {
      SoundField(fs, cells, i.value);
      TagsAreDistinct(fs);
      MarksOne(fs, i.value, seen);
    }
  }

  lemma TagsAreDistinct(fs: seq<Field>)
    requires WellFormed(fs)
    ensures DistinctTags(fs)
  {
  }

  lemma MarksOne(fs: seq<Field>, i: nat, seen: set<nat>)
    requires DistinctTags(fs) && i < |fs|
    ensures MarkedBy(fs, [fs[i].tag], seen, Seen(fs, i, seen))
  {
    forall j | 0 <= j < |fs| && fs[j].htype.Required? && j != i
      ensures fs[i].htype.Required? ==> RequiredBefore(fs, j) != RequiredBefore(fs, i)
    {
      RequiredBeforeGrows(fs, if i < j then i else j, if i < j then j else i);
    }
  }

  lemma MarkedInTurn(fs: seq<Field>, tags: seq<nat>, a: set<nat>, b: set<nat>, c: set<nat>)
    requires tags != [] && MarkedBy(fs, [tags[0]], a, b) && MarkedBy(fs, tags[1..], b, c)
    ensures MarkedBy(fs, tags, a, c)
  {
    assert tags == [tags[0]] + tags[1..];
  }

  lemma {:induction false} ReadsDecodes(fs: seq<Field>, cells: seq<Cell>, seen: set<nat>, b: Bytes, tags: seq<nat>,
                                        cells': seq<Cell>, rest: Bytes)
    returns (seen': set<nat>)
    requires WellFormed(fs) && Sound(fs, cells) && Reads(fs, cells, b, tags, cells', rest)
    ensures Sound(fs, cells') && MarkedBy(fs, tags, seen, seen')
    ensures DecodeFields(fs, cells, seen, b) == Finish(fs, cells', seen', rest)
    decreases |tags|
  {
    hide WellFormed, Sound, ReadRecord, Finish, MarkedBy, DecodeVarint32;
    if tags == [] {
      seen' := seen;
      EndOfLoop(fs, cells, seen, b, rest);
    } else {
      hide DecodeFields;
      var key := DecodeVarint32(b).value;
      var next := OneRecordRead(fs, cells, seen, b);
      var t := ReadRecord(fs, cells, tags[0], key.value % 8, b[key.size..]).value;
      seen' := ReadsDecodes(fs, t.value, next, t.rest, tags[1..], cells', rest);
      MarkedInTurn(fs, tags, seen, next, seen');
    }
  }

  lemma EndOfLoop(fs: seq<Field>, cells: seq<Cell>, seen: set<nat>, b: Bytes, rest: Bytes)
    requires WellFormed(fs) && Sound(fs, cells) && Ends(b, rest)
    ensures DecodeFields(fs, cells, seen, b) == Finish(fs, cells, seen, rest) && MarkedBy(fs, [], seen, seen)
  {
    hide WellFormed, Sound, DecodeVarint32, Finish;
  }

  lemma {:induction false} DecodesReads(fs: seq<Field>, cells: seq<Cell>, seen: set<nat>, b: Bytes)
    returns (tags: seq<nat>)
    requires WellFormed(fs) && Sound(fs, cells) && DecodeFields(fs, cells, seen, b).Some?
    ensures var r := DecodeFields(fs, cells, seen, b).value; Reads(fs, cells, b, tags, r.value, r.rest)
    decreases |b|
  {
    hide WellFormed, Sound, ReadRecord, DecodeVarint32;
    tags := [];
    if b != [] {
      LoopNeedsKey(fs, cells, seen, b);
      var key := DecodeVarint32(b).value;
      if key.value != 0 {
        hide DecodeFields;
        var next := OneRecordRead(fs, cells, seen, b);
        var t := ReadRecord(fs, cells, key.value / 8, key.value % 8, b[key.size..]).value;
        tags := DecodesReads(fs, t.value, next, t.rest);
        tags := [key.value / 8] + tags;
        assert tags[1..] == tags[1..];
      }
    }
  }

  lemma LoopNeedsKey(fs: seq<Field>, cells: seq<Cell>, seen: set<nat>, b: Bytes)
    requires WellFormed(fs) && Sound(fs, cells) && DecodeFields(fs, cells, seen, b).Some? && b != []
    ensures DecodeVarint32(b).Some?
    ensures DecodeVarint32(b).value.value == 0 ==>
              Reads(fs, cells, b, [], DecodeFields(fs, cells, seen, b).value.value, DecodeFields(fs, cells, seen, b).value.rest)
  {
    hide WellFormed, Sound, DecodeVarint32;
  }

  lemma AllSeenIfTracked(fs: seq<Field>, tags: seq<nat>, seen: set<nat>)
    requires MarkedBy(fs, tags, {}, seen)
    ensures AllSeen(fs, seen) <==> NoneMissing(fs, tags)
  {
    forall j: nat | j < |fs| ensures |RequiredAhead(fs, j)| == RequiredBefore(fs, j) {
      AheadIsBefore(fs, j);
    }
    if AllSeen(fs, seen) {
      forall j | 0 <= j < |fs| && IsTracked(fs, j) ensures fs[j].tag in tags {
        RequiredBeforeGrows(fs, j, |fs|);
        assert RequiredBefore(fs, j) < Tracked(fs);
      }
    } else {
      var k: nat :| k < Tracked(fs) && k !in seen;
      var j := NthRequired(fs, |fs|, k);
      assert IsTracked(fs, j);
    }
  }

  /** Decoding succeeds exactly if the bytes are records that can be read and every tracked required field is among
    * them; the result is what the records make.
    */
  lemma DecodesExactly(fs: seq<Field>, cells: seq<Cell>, b: Bytes, cells': seq<Cell>, rest: Bytes)
    requires WellFormed(fs) && Sound(fs, cells)
    ensures DecodeNoInit(fs, cells, b) == Some(Taken(cells', rest))
            <==> exists tags :: Reads(fs, cells, b, tags, cells', rest) && NoneMissing(fs, tags)
  {
    hide WellFormed, Sound, Reads, DecodeFields, MarkedBy, AllSeen, NoneMissing;
    if DecodeNoInit(fs, cells, b) == Some(Taken(cells', rest)) {
      var tags := DecodesReads(fs, cells, {}, b);
      var seen := ReadsDecodes(fs, cells, {}, b, tags, cells', rest);
      AllSeenIfTracked(fs, tags, seen);
    }
    if tags :| Reads(fs, cells, b, tags, cells', rest) && NoneMissing(fs, tags) {
      var seen := ReadsDecodes(fs, cells, {}, b, tags, cells', rest);
      AllSeenIfTracked(fs, tags, seen);
    }
  }

  /** The empty message lacks a required field. */
  lemma EmptyIsRefused()
    ensures var fs := [Field(1, UVarint, Required, 0, 0, 4, 0, None, [])];
            WellFormed(fs) && Decode(fs, []) == None
  {
    var fs := [Field(1, UVarint, Required, 0, 0, 4, 0, None, [])];
    assert WellFormed([]) && FieldOk(fs[0]) && WellFormed(fs);
    assert RequiredBefore(fs, 0) == 0 && RequiredBefore(fs, 1) == 1 && Tracked(fs) == 1;
    var none: set<nat> := {};
    assert 0 !in none && !AllSeen(fs, none);
  }

  /** A message that was written without one of the required fields that the reader tracks is refused. */
  lemma MissingFieldIsRefused(es: seq<Field>, m: seq<Cell>, ds: seq<Field>, j: nat)
    requires WellFormed(es) && WellFormed(ds) && Compatible(es, ds) && Matches(es, m)
    requires Encoded(es, m).Some? && |Encoded(es, m).value| < SIZE_LIMIT
    requires j < |ds| && IsTracked(ds, j) && Unknown(es, ds[j].tag)
    ensures Decode(ds, Encoded(es, m).value) == None
  {
    hide WellFormed, Compatible, Matches, EncodeFrom, DecodeFields, AllPass, ComesOver;
    CompatibleRoundTrip(es, m, ds);
    AheadIsBefore(ds, j);
    assert !Among(es, |es|, ds[j].tag);
  }

  // ---- records that are not all there ---------------------------------------------------------------------

  lemma {:induction false} TruncatedVarint32(v: nat, k: nat, result: Word, n: nat)
    requires n < |EncodeVarint(v)|
    ensures Varint32From(EncodeVarint(v)[..n], k, result) == None
    decreases v
  {
    var b := EncodeVarint(v)[..n];
    if n > 0 {
      TruncatedVarint32(v / 128, k + 1, Varint32Result(k, result, b[0] % 128), n - 1);
      assert b[1..] == EncodeVarint(v / 128)[..n - 1];
    }
  }

  lemma {:induction false} TruncatedSkip(v: nat, n: nat)
    requires n < |EncodeVarint(v)|
    ensures SkipVarint(EncodeVarint(v)[..n]) == None
    decreases v
  {
    var b := EncodeVarint(v)[..n];
    if n > 0 {
      TruncatedSkip(v / 128, n - 1);
      assert b[1..] == EncodeVarint(v / 128)[..n - 1];
    }
  }

  lemma TruncatedNum(t: LType, size: nat, x: int, n: nat)
    requires InRange(t, size, x) && EncodeNum(t, size, x).Some? && n < |EncodeNum(t, size, x).value|
    ensures DecodeNum(t, size, EncodeNum(t, size, x).value[..n]) == None
    ensures Skip(WireType(t), EncodeNum(t, size, x).value[..n]) == None
  {
    hide EncodeVarint, ParseVarint, SkipVarint, Substream, EncodeFixed32, EncodeFixed64, Zigzag, ToUnsigned, Varint32From;
    if !t.Fixed32? && !t.Fixed64? {
      var v := match t
        case Bool => if x != 0 then 1 else 0
        case Varint => ToUnsigned(x)
        case UVarint => x
        case SVarint => Zigzag(x);
      TruncatedVarint32(v, 0, 0, n);
      TruncatedVarint(v, n, 10);
      TruncatedSkip(v, n);
    }
  }

  /** A length, and less than it says. */
  lemma TruncatedPrefixed(b: Bytes, n: nat)
    requires |b| < SIZE_LIMIT && n < |Prefixed(b)|
    ensures var got := Prefixed(b)[..n];
            && Substream(got) == None
            && (DecodeVarint32(got).Some? ==>
                  var p := DecodeVarint32(got).value;
                  p.value == |b| > |got[p.size..]|)
  {
    hide EncodeVarint, Varint32From;
    var v, got := EncodeVarint(|b|), Prefixed(b)[..n];
    if n < |v| {
      TruncatedVarint32(|b|, 0, 0, n);
      assert got == v[..n];
    } else {
      var some := b[..n - |v|];
      Varint32Inverse(|b|, some);
      assert got == v + some && got[|v|..] == some;
    }
  }

  /** No value can be read, or skipped, from less than all its bytes. */
  lemma TruncatedValue(f: Field, v: Value, start: seq<Cell>, n: nat)
    requires FieldOk(f) && HasType(f, v) && EncodeValue(f, v).Some? && |EncodeValue(f, v).value| < SIZE_LIMIT
    requires (f.ltype.Submessage? ==> Sound(f.sub, start)) && n < |EncodeValue(f, v).value|
    ensures DecodeValue(f, start, EncodeValue(f, v).value[..n]) == None
    ensures Skip(WireType(f.ltype), EncodeValue(f, v).value[..n]) == None
  {
    hide Substream, WellFormed, Matches, Sound, EncodeFrom, UpToNul, Prefixed, DecodeNum, EncodeNum, DecodeVarint32, DecodeFields;
    if f.ltype.Submessage? {
      hide FieldOk;
      PrefixedIsLonger(Encoded(f.sub, v.cells).value);
      TruncatedPrefixed(Encoded(f.sub, v.cells).value, n);
    } else if Packable(f.ltype) {
      TruncatedNum(f.ltype, f.dataSize, v.n, n);
    } else {
      TruncatedPrefixed(if f.ltype.String? then UpToNul(v.b) else v.b, n);
    }
  }

  /** A record that has lost its end is refused, by whatever descriptor has its field or lacks it. */
  lemma TruncatedRecordFails(fs: seq<Field>, cells: seq<Cell>, seen: set<nat>, f: Field, v: Value, n: nat)
    requires WellFormed(fs) && Sound(fs, cells) && FieldOk(f) && HasType(f, v) && (f in fs || Unknown(fs, f.tag))
    requires EncodeRecord(f, v).Some? && 0 < n < |EncodeRecord(f, v).value| < SIZE_LIMIT
    ensures DecodeFields(fs, cells, seen, EncodeRecord(f, v).value[..n]) == None
  {
    hide TagBytes, EncodeValue, DecodeValue, DecodeFields, WellFormed, FieldOk, HasType, Sound, Skip, ValueOk;
    var w := WireType(f.ltype);
    var tag, enc := TagBytes(f, w), EncodeValue(f, v).value;
    if n < |tag| {
      TruncatedKey(fs, cells, seen, f, w, n);
      assert EncodeRecord(f, v).value[..n] == tag[..n];
    } else {
      var some := enc[..n - |tag|];
      assert EncodeRecord(f, v).value[..n] == tag + some;
      if Unknown(fs, f.tag) {
        UnknownRecord(fs, cells, seen, f, w, some);
        TruncatedValue(f, v, if f.ltype.Submessage? then DefaultCells(f) else [], n - |tag|);
      } else {
        var i :| 0 <= i < |fs| && fs[i] == f;
        SoundField(fs, cells, i);
        OneRecord(fs, i, w, cells, seen, some);
        TruncatedValue(f, v, StartOf(f, cells[Home(fs, i)]), n - |tag|);
        NotPacked(f, cells[Home(fs, i)], some);
      }
    }
  }

  function DefaultCells(f: Field): (cells: seq<Cell>)
    requires FieldOk(f) && f.ltype.Submessage?
    ensures Sound(f.sub, cells)
  {
    Defaults(f.sub)
  }

  lemma NotPacked(f: Field, c: Cell, b: Bytes)
    requires FieldOk(f) && CellOk(f, c) && DecodeValue(f, StartOf(f, c), b) == None
    ensures DecodeField(f, WireType(f.ltype), c, b) == None
  {
    hide DecodeValue, DecodeItems;
  }

  lemma TruncatedKey(fs: seq<Field>, cells: seq<Cell>, seen: set<nat>, f: Field, w: nat, n: nat)
    requires WellFormed(fs) && Sound(fs, cells) && w < 8 && 0 < n < |TagBytes(f, w)|
    ensures DecodeFields(fs, cells, seen, TagBytes(f, w)[..n]) == None
  {
    hide Lookup, DecodeField, Skip, WellFormed, Sound;
    TruncatedVarint32(f.tag * 8 + w, 0, 0, n);
  }

  /** The example of the specification, and one of each other wire type. */
  lemma BytesOfFields()
    ensures EncodeRecord(Field(1, UVarint, Required, 0, 0, 4, 0, None, []), Num(150)) == Some([0x08, 0x96, 0x01])
    ensures EncodeRecord(Field(2, FixedLengthBytes, Required, 0, 0, 2, 0, None, []), Blob([7, 8])) == Some([0x12, 2, 7, 8])
  {
    assert EncodeVarint(1) == [1] && EncodeVarint(150) == [150] + EncodeVarint(1) && EncodeVarint(2) == [2];
    var varint: Bytes, blob: Bytes := [0x96, 0x01], [2, 7, 8];
    assert EncodeVarint(150) == varint && [0x08] + varint == [0x08, 0x96, 0x01];
    assert Prefixed([7, 8]) == blob && [0x12] + blob == [0x12, 2, 7, 8];
  }

  lemma BytesOfFixedFields()
    ensures EncodeRecord(Field(1, Fixed32, Required, 0, 0, 4, 0, None, []), Num(1)) == Some([0x0D, 1, 0, 0, 0])
    ensures EncodeRecord(Field(1, Fixed64, Required, 0, 0, 8, 0, None, []), Num(1)) == Some([0x09, 1, 0, 0, 0, 0, 0, 0, 0])
  {
    var b32: Bytes, b64: Bytes := [1, 0, 0, 0], [1, 0, 0, 0, 0, 0, 0, 0];
    assert EncodeVarint(0x0D) == [0x0D] && EncodeVarint(0x09) == [0x09];
    assert EncodeFixed32(1) == b32 && [0x0D] + b32 == [0x0D, 1, 0, 0, 0];
    assert EncodeFixed64(1) == b64 && [0x09] + b64 == [0x09, 1, 0, 0, 0, 0, 0, 0, 0];
  }
}
