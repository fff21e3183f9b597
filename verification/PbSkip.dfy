/** Fields that a decoder does not know: the wire type of a record says how far it goes, so that the decoder skips
  * just what the encoder wrote.
  *
  * Wire types are those of the Protocol Buffers Encoding specification, section "Message Structure".
  */
module PbSkipping {
  import opened InternalKeys
  import opened Sequences
  import opened Coding
  import opened PbFields
  import opened PbWire
  import opened PbEncoding
  import opened PbDecoding

  const SIZE_LIMIT: nat := 0x8000_0000_0000_0000

  lemma SubstreamOfPrefixed(b: Bytes, rest: Bytes)
    requires |b| < SIZE_LIMIT
    ensures Substream(Prefixed(b) + rest) == if |b| <= PB_SIZE_MAX then Some(Taken(b, rest)) else None
  {
    hide DecodeVarint32, EncodeVarint;
    var v := EncodeVarint(|b|);
    Assoc(v, b, rest);
    Varint32Inverse(|b|, b + rest);
    if |b| <= PB_SIZE_MAX {
      assert (v + (b + rest))[|v|..] == b + rest;
      assert (b + rest)[..|b|] == b && (b + rest)[|b|..] == rest;
    }
  }

  /** The key in front of a record: the number of the field, and a wire type for each kind of field. */
  lemma KeyOfRecord(f: Field, v: Value, rest: Bytes)
    requires FieldOk(f) && HasType(f, v) && EncodeRecord(f, v).Some?
    ensures var key := DecodeVarint32(EncodeRecord(f, v).value + rest);
            && key.Some? && key.value.value / 8 == f.tag
            && key.value.value % 8
               == match f.ltype
                  case Bool | Varint | UVarint | SVarint => 0
                  case Fixed64 => 1
                  case ByteArray | String | Submessage | FixedLengthBytes => 2
                  case Fixed32 => 5
  {
    hide EncodeVarint, DecodeVarint32, EncodeValue, HasType;
    var w := WireType(f.ltype);
    var enc := EncodeValue(f, v).value;
    Assoc(TagBytes(f, w), enc, rest);
    Varint32Inverse(f.tag * 8 + w, enc + rest);
  }

  /** That of a packed array. */
  lemma KeyOfPacked(f: Field, items: seq<Value>, rest: Bytes)
    requires FieldOk(f) && Packable(f.ltype) && items != [] && (forall v :: v in items ==> HasType(f, v))
    requires EncodeArray(f, items).Some?
    ensures var key := DecodeVarint32(EncodeArray(f, items).value + rest);
            key.Some? && key.value.value == 8 * f.tag + 2
  {
    hide EncodeVarint, DecodeVarint32, EncodeItems, HasType;
    var enc := Prefixed(EncodeItems(f, items).value);
    Assoc(TagBytes(f, WT_STRING), enc, rest);
    Varint32Inverse(f.tag * 8 + WT_STRING, enc + rest);
  }

  // ---- skipping what was written ------------------------------------------------------------------------

  /** Lengths have 32 bits, wherever a length is written. */
  ghost predicate ValueSkips(f: Field, v: Value)
    requires HasType(f, v)
  {
    f.ltype.Submessage? ==> Encoded(f.sub, v.cells).Some? && |Encoded(f.sub, v.cells).value| <= PB_SIZE_MAX
  }

  ghost predicate CellSkips(f: Field, c: Cell)
    requires CellHasType(f, c)
  {
    if !f.htype.Repeated? then Present(f, c) ==> ValueSkips(f, c.value)
    else if Packable(f.ltype) then EncodeItems(f, c.items).Some? && |EncodeItems(f, c.items).value| <= PB_SIZE_MAX
    else forall v :: v in c.items ==> ValueSkips(f, v)
  }

  lemma {:induction false} SkipsVarint(n: nat, rest: Bytes)
    ensures SkipVarint(EncodeVarint(n) + rest) == Some(rest)
  {
    var b := EncodeVarint(n) + rest;
    if n < 128 {
      assert b[1..] == rest;
    } else {
      SkipsVarint(n / 128, rest);
      assert b[1..] == EncodeVarint(n / 128) + rest;
    }
  }

  /** A value is skipped by its wire type, whatever comes after it. */
  lemma SkipsValue(f: Field, v: Value, rest: Bytes)
    requires FieldOk(f) && HasType(f, v) && EncodeValue(f, v).Some? && |EncodeValue(f, v).value| < SIZE_LIMIT
    ensures Skip(WireType(f.ltype), EncodeValue(f, v).value + rest) == if ValueSkips(f, v) then Some(rest) else None
  {
    hide Substream, WellFormed, Matches, EncodeFrom, UpToNul, Prefixed;
    var b := EncodeValue(f, v).value;
    if f.ltype.Submessage? {
      hide FieldOk, EncodeVarint;
      PrefixedIsLonger(Encoded(f.sub, v.cells).value);
      SubstreamOfPrefixed(Encoded(f.sub, v.cells).value, rest);
    } else if Packable(f.ltype) {
      SkipsNum(f.ltype, f.dataSize, v.n, rest);
    } else if f.ltype.String? {
      SubstreamOfPrefixed(UpToNul(v.b), rest);
    } else {
      SubstreamOfPrefixed(v.b, rest);
    }
  }

  lemma PrefixedIsLonger(b: Bytes)
    ensures |Prefixed(b)| > |b|
  {
  }

  lemma SkipsNum(t: LType, size: nat, n: int, rest: Bytes)
    requires InRange(t, size, n) && EncodeNum(t, size, n).Some?
    ensures Skip(WireType(t), EncodeNum(t, size, n).value + rest) == Some(rest)
  {
    hide EncodeVarint, SkipVarint, Substream, EncodeFixed32, EncodeFixed64, Zigzag, ToUnsigned;
    var b := EncodeNum(t, size, n).value;
    match t
    case Bool => SkipsVarint(if n != 0 then 1 else 0, rest);
    case Varint => SkipsVarint(ToUnsigned(n), rest);
    case UVarint => SkipsVarint(n, rest);
    case SVarint => SkipsVarint(Zigzag(n), rest);
    case Fixed32 => assert (b + rest)[4..] == rest;
    case Fixed64 => assert (b + rest)[8..] == rest;
  }

  /** No field of the descriptor has the tag. */
  predicate Unknown(fs: seq<Field>, tag: nat) {
    forall j :: 0 <= j < |fs| ==> fs[j].tag != tag
  }

  lemma UnknownRecord(fs: seq<Field>, cells: seq<Cell>, seen: set<nat>, f: Field, wireType: nat, payload: Bytes)
    requires WellFormed(fs) && Sound(fs, cells) && FieldOk(f) && Unknown(fs, f.tag) && wireType < 8
    ensures DecodeFields(fs, cells, seen, TagBytes(f, wireType) + payload)
            == match Skip(wireType, payload)
               case None => None
               case Some(rest) => DecodeFields(fs, cells, seen, rest)
  {
    hide EncodeVarint, DecodeVarint32, Lookup, DecodeField, Finish, Skip, SkipBool, Sound, WellFormed;
    var tag := f.tag * 8 + wireType;
    var b := TagBytes(f, wireType) + payload;
    TagIsSmall(f);
    Varint32Inverse(tag, payload);
    assert b[|EncodeVarint(tag)|..] == payload;
    assert tag / 8 == f.tag && tag % 8 == wireType;
    assert Finds(fs, f.tag, Lookup(fs, f.tag));
  }

  lemma TagIsSmall(f: Field)
    requires FieldOk(f)
    ensures 0 < f.tag < 0x2000_0000
  {
  }

  lemma SkipsRecord(fs: seq<Field>, cells: seq<Cell>, seen: set<nat>, f: Field, v: Value, rest: Bytes)
    requires WellFormed(fs) && Sound(fs, cells) && FieldOk(f) && Unknown(fs, f.tag) && HasType(f, v)
    requires EncodeRecord(f, v).Some? && |EncodeRecord(f, v).value| < SIZE_LIMIT
    ensures DecodeFields(fs, cells, seen, EncodeRecord(f, v).value + rest)
            == if ValueSkips(f, v) then DecodeFields(fs, cells, seen, rest) else None
  {
    hide TagBytes, EncodeValue, DecodeFields, ValueSkips, WellFormed, FieldOk, HasType, Sound, Unknown, Skip;
    var enc, w := EncodeValue(f, v).value, WireType(f.ltype);
    Assoc(TagBytes(f, w), enc, rest);
    UnknownRecord(fs, cells, seen, f, w, enc + rest);
    SkipsValue(f, v, rest);
  }

  lemma {:induction false} SkipsRecords(fs: seq<Field>, cells: seq<Cell>, seen: set<nat>, f: Field, items: seq<Value>,
                                        rest: Bytes)
    requires WellFormed(fs) && Sound(fs, cells) && FieldOk(f) && Unknown(fs, f.tag)
    requires (forall v :: v in items ==> HasType(f, v)) && EncodeRecords(f, items).Some?
    requires |EncodeRecords(f, items).value| < SIZE_LIMIT
    ensures DecodeFields(fs, cells, seen, EncodeRecords(f, items).value + rest)
            == if forall v :: v in items ==> ValueSkips(f, v) then DecodeFields(fs, cells, seen, rest) else None
    decreases |items|
  {
    hide EncodeRecord, DecodeFields, ValueSkips, WellFormed, FieldOk, HasType, Sound, Unknown;
    if items == [] {
      assert [] + rest == rest;
    } else {
      var first, others := EncodeRecord(f, items[0]).value, EncodeRecords(f, items[1..]).value;
      Assoc(first, others, rest);
      SkipsRecord(fs, cells, seen, f, items[0], others + rest);
      SkipsRecords(fs, cells, seen, f, items[1..], rest);
      assert items == [items[0]] + items[1..];
    }
  }

  /** A field that the descriptor lacks is skipped, however it was written. */
  lemma SkipsField(fs: seq<Field>, cells: seq<Cell>, seen: set<nat>, f: Field, c: Cell, rest: Bytes)
    requires WellFormed(fs) && Sound(fs, cells) && FieldOk(f) && Unknown(fs, f.tag) && CellHasType(f, c)
    requires EncodeField(f, c).Some? && |EncodeField(f, c).value| < SIZE_LIMIT
    ensures DecodeFields(fs, cells, seen, EncodeField(f, c).value + rest)
            == if CellSkips(f, c) then DecodeFields(fs, cells, seen, rest) else None
  {
    hide EncodeRecord, EncodeRecords, EncodeItems, DecodeFields, ValueSkips, WellFormed, FieldOk, HasType, Sound, Unknown,
      IsDefault, TagBytes, EncodeVarint, Skip;
    if f.htype.Repeated? {
      if c.items == [] {
        NothingWritten(f, rest);
      } else if Packable(f.ltype) {
        var enc := EncodeItems(f, c.items).value;
        Assoc(TagBytes(f, WT_STRING), Prefixed(enc), rest);
        UnknownRecord(fs, cells, seen, f, WT_STRING, Prefixed(enc) + rest);
        SkipsPrefixed(enc, rest);
      } else {
        SkipsRecords(fs, cells, seen, f, c.items, rest);
      }
    } else if Present(f, c) {
      SkipsRecord(fs, cells, seen, f, c.value, rest);
    } else {
      NothingWritten(f, rest);
    }
  }

  lemma NothingWritten(f: Field, rest: Bytes)
    ensures EncodeItems(f, []) == Some([]) && [] + rest == rest
  {
  }

  lemma SkipsPrefixed(b: Bytes, rest: Bytes)
    requires |b| < SIZE_LIMIT
    ensures Skip(WT_STRING, Prefixed(b) + rest) == if |b| <= PB_SIZE_MAX then Some(rest) else None
  {
    hide Substream, Prefixed;
    SubstreamOfPrefixed(b, rest);
  }
}
