/** pb_decode undoes pb_encode: exactly for the structures whose strings end within their array and whose
  * submessages and packed arrays have lengths of 32 bits.
  */
module PbRoundTrip {
  import opened InternalKeys
  import opened Sequences
  import opened Coding
  import opened PbFields
  import opened PbWire
  import opened PbEncoding
  import opened PbDecoding
  import opened PbSkipping

  // ---- structures that mean the same ------------------------------------------------------------------

  ghost predicate SameValue(f: Field, a: Value, b: Value)
    decreases f, 0
  {
    if f.ltype.Submessage? then a.Message? && b.Message? && Same(f.sub, a.cells, b.cells)
    else if f.ltype.String? then a.Blob? && b.Blob? && UpToNul(a.b) == UpToNul(b.b)
    else a == b
  }

  /** What is not set does not matter. */
  ghost predicate SameCell(f: Field, a: Cell, b: Cell)
    decreases f, 1
  {
    match f.htype
    case Required => a.Single? && b.Single? && SameValue(f, a.value, b.value)
    case Optional =>
      if f.sizeOffset == 0 then a.Single? && b.Single? && SameValue(f, a.value, b.value)
      else a.Maybe? && b.Maybe? && a.has == b.has && (a.has ==> SameValue(f, a.value, b.value))
    case Repeated =>
      && a.Many? && b.Many? && |a.items| == |b.items|
      && forall k :: 0 <= k < |a.items| ==> SameValue(f, a.items[k], b.items[k])
    case OneOf =>
      && a.Union? && b.Union? && (a.which == f.tag <==> b.which == f.tag)
      && (a.which == f.tag ==> SameValue(f, a.value, b.value))
  }

  ghost predicate Same(fs: seq<Field>, a: seq<Cell>, b: seq<Cell>)
    decreases fs, 2
  {
    && |a| == |fs| && |b| == |fs|
    && forall i :: 0 <= i < |fs| ==> SameCell(fs[i], a[Home(fs, i)], b[Home(fs, i)])
  }

  // ---- structures that come back ----------------------------------------------------------------------

  ghost predicate ValueFits(f: Field, v: Value)
    requires HasType(f, v)
    decreases f, 0
  {
    if f.ltype.Submessage? then
      && Encoded(f.sub, v.cells).Some? && |Encoded(f.sub, v.cells).value| <= PB_SIZE_MAX && AllFit(f.sub, v.cells, 0)
    else f.ltype.String? ==> |UpToNul(v.b)| < f.dataSize
  }

  ghost predicate CellFits(f: Field, c: Cell)
    requires CellHasType(f, c)
    decreases f, 1
  {
    if !f.htype.Repeated? then Present(f, c) ==> ValueFits(f, c.value)
    else if Packable(f.ltype) then EncodeItems(f, c.items).Some? && |EncodeItems(f, c.items).value| <= PB_SIZE_MAX
    else forall v :: v in c.items ==> ValueFits(f, v)
  }

  /** Field i and those after it. */
  ghost predicate AllFit(fs: seq<Field>, cells: seq<Cell>, i: nat)
    requires i <= |fs| && Matches(fs, cells)
    decreases fs, 2, |fs| - i
  {
    i == |fs| || (CellFits(fs[i], cells[Home(fs, i)]) && AllFit(fs, cells, i + 1))
  }

  // ---- values -------------------------------------------------------------------------------------------

  lemma {:induction false} UpToNulTwice(b: Bytes)
    ensures UpToNul(UpToNul(b)) == UpToNul(b)
  {
    if b != [] && b[0] != 0 {
      UpToNulTwice(b[1..]);
      assert UpToNul(b)[1..] == UpToNul(b[1..]);
    }
  }

  lemma BlobRoundTrip(f: Field, b: Bytes, rest: Bytes)
    requires FieldOk(f) && !Packable(f.ltype) && !f.ltype.Submessage? && |b| <= PB_SIZE_MAX
    requires f.ltype.ByteArray? ==> |b| + BYTES_OFFSET <= f.dataSize
    requires f.ltype.FixedLengthBytes? ==> |b| == f.dataSize
    ensures DecodeBlob(f, Prefixed(b) + rest)
            == if f.ltype.String? && |b| >= f.dataSize then None else Some(Taken(Blob(b), rest))
  {
    hide DecodeVarint32, EncodeVarint, WellFormed, ValueOk;
    var v := EncodeVarint(|b|);
    Assoc(v, b, rest);
    Varint32Inverse(|b|, b + rest);
    assert (v + (b + rest))[|v|..] == b + rest;
    assert (b + rest)[..|b|] == b && (b + rest)[|b|..] == rest;
    if b == [] {
      assert Zeros(|b|) == b;
      assert [] + rest == rest;
    }
  }

  /** A value in front of other bytes. */
  lemma {:induction false} ValueRoundTrip(f: Field, v: Value, start: seq<Cell>, rest: Bytes)
    requires FieldOk(f) && HasType(f, v) && EncodeValue(f, v).Some? && |EncodeValue(f, v).value| < SIZE_LIMIT
    requires f.ltype.Submessage? ==> start == Defaults(f.sub)
    ensures var r := DecodeValue(f, start, EncodeValue(f, v).value + rest);
            if ValueFits(f, v) then r.Some? && r.value.rest == rest && SameValue(f, v, r.value.value) else r == None
    decreases f, 0
  {
    hide EncodeNum, DecodeNum, DecodeVarint32, EncodeVarint, WellFormed, Matches, Sound, EncodeFrom, UpToNul, Same,
      AllFit;
    var enc := EncodeValue(f, v).value;
    if f.ltype.Submessage? {
      var b := Encoded(f.sub, v.cells).value;
      SubstreamOfPrefixed(b, rest);
      if |b| <= PB_SIZE_MAX {
        FromDefaults(f.sub, v.cells);
      }
    } else if Packable(f.ltype) {
      NumRoundTrip(f.ltype, f.dataSize, v.n, rest);
      assert (enc + rest)[|enc|..] == rest;
    } else if f.ltype.String? {
      BlobRoundTrip(f, UpToNul(v.b), rest);
      UpToNulTwice(v.b);
    } else {
      BlobRoundTrip(f, v.b, rest);
    }
  }

  // ---- records --------------------------------------------------------------------------------------------

  /** A record at the front of the input is read into its field. */
  lemma OneRecord(fs: seq<Field>, i: nat, wireType: nat, cells: seq<Cell>, seen: set<nat>, payload: Bytes)
    requires WellFormed(fs) && Sound(fs, cells) && i < |fs| && wireType < 8
    ensures FieldOk(fs[i]) && CellOk(fs[i], cells[Home(fs, i)])
    ensures var r := DecodeField(fs[i], wireType, cells[Home(fs, i)], payload);
            (r.Some? ==> Sound(fs, cells[Home(fs, i) := r.value.value]))
            && DecodeFields(fs, cells, seen, TagBytes(fs[i], wireType) + payload)
               == if r.None? then None
                  else DecodeFields(fs, cells[Home(fs, i) := r.value.value], Seen(fs, i, seen), r.value.rest)
  {
    hide EncodeVarint, DecodeVarint32, CellHasType, CellOk, Lookup, DecodeField, Finish;
    var tag := fs[i].tag * 8 + wireType;
    var b := TagBytes(fs[i], wireType) + payload;
    assert FieldOk(fs[i]);
    Varint32Inverse(tag, payload);
    assert b[|EncodeVarint(tag)|..] == payload;
    assert tag / 8 == fs[i].tag && tag % 8 == wireType;
    LookupFinds(fs, i);
    var r := DecodeField(fs[i], wireType, cells[Home(fs, i)], payload);
    if r.Some? {
      PutKeepsSound(fs, cells, i, r.value.value);
    }
  }

  lemma LookupFinds(fs: seq<Field>, i: nat)
    requires DistinctTags(fs) && i < |fs|
    ensures Lookup(fs, fs[i].tag) == Some(i)
  {
    assert Finds(fs, fs[i].tag, Lookup(fs, fs[i].tag));
  }

  ghost predicate StartsAfresh(f: Field, c: Cell)
    requires FieldOk(f) && CellOk(f, c)
  {
    && (f.ltype.Submessage? ==> StartOf(f, c) == Defaults(f.sub))
    && (f.htype.Repeated? ==> |c.items| < f.arraySize)
  }

  /** Reading back one value with its tag. */
  lemma {:induction false} RecordRoundTrip(fs: seq<Field>, i: nat, v: Value, cells: seq<Cell>, seen: set<nat>, rest: Bytes)
    returns (v': Value)
    requires WellFormed(fs) && Sound(fs, cells) && i < |fs| == |cells| && FieldOk(fs[i]) && HasType(fs[i], v)
    requires CellOk(fs[i], cells[Home(fs, i)]) && StartsAfresh(fs[i], cells[Home(fs, i)])
    requires EncodeRecord(fs[i], v).Some? && |EncodeRecord(fs[i], v).value| < SIZE_LIMIT
    ensures ValueFits(fs[i], v) ==> ValueOk(fs[i], v') && SameValue(fs[i], v, v')
    ensures ValueFits(fs[i], v) ==>
              var cells' := cells[Home(fs, i) := Filled(fs[i], cells[Home(fs, i)], v')];
              && Sound(fs, cells')
              && DecodeFields(fs, cells, seen, EncodeRecord(fs[i], v).value + rest)
                 == DecodeFields(fs, cells', Seen(fs, i, seen), rest)
    ensures !ValueFits(fs[i], v) ==> DecodeFields(fs, cells, seen, EncodeRecord(fs[i], v).value + rest) == None
    decreases fs, 1
  {
    hide TagBytes, EncodeValue, DecodeValue, DecodeFields, ValueFits, SameValue, WellFormed, FieldOk, CellOk, ValueOk,
      HasType, CellHasType, Sound, Matches;
    var f, c := fs[i], cells[Home(fs, i)];
    var enc := EncodeValue(f, v).value;
    Assoc(TagBytes(f, WireType(f.ltype)), enc, rest);
    OneRecord(fs, i, WireType(f.ltype), cells, seen, enc + rest);
    ValueRoundTrip(f, v, StartOf(f, c), rest);
    var r := DecodeValue(f, StartOf(f, c), enc + rest);
    v' := if r.Some? then r.value.value else v;
  }

  /** The items read so far, and then those of the array. */
  ghost predicate Extended(f: Field, before: seq<Value>, items: seq<Value>, after: seq<Value>) {
    && |after| == |before| + |items| && after[..|before|] == before
    && forall k :: 0 <= k < |items| ==> SameValue(f, items[k], after[|before| + k])
  }

  lemma ExtendedOnce(f: Field, before: seq<Value>, items: seq<Value>, v: Value, after: seq<Value>)
    requires items != [] && SameValue(f, items[0], v) && Extended(f, before + [v], items[1..], after)
    ensures Extended(f, before, items, after)
  {
    hide SameValue;
    assert after[..|before|] == (before + [v])[..|before|] == before by {
      assert after[..|before|] == after[..|before| + 1][..|before|];
    }
    forall k | 0 <= k < |items| ensures SameValue(f, items[k], after[|before| + k]) {
      if k == 0 {
        assert after[|before|] == after[..|before| + 1][|before|] == v;
      } else {
        assert SameValue(f, items[1..][k - 1], after[|before| + 1 + (k - 1)]);
      }
    }
  }

  lemma {:induction false} RecordsRoundTrip(fs: seq<Field>, i: nat, items: seq<Value>, cells: seq<Cell>, seen: set<nat>,
                                            rest: Bytes)
    returns (cells': seq<Cell>)
    requires WellFormed(fs) && Sound(fs, cells) && i < |fs| == |cells|
    requires fs[i].htype.Repeated? && !Packable(fs[i].ltype)
    requires forall v :: v in items ==> HasType(fs[i], v)
    requires cells[i].Many? && |cells[i].items| + |items| <= fs[i].arraySize
    requires EncodeRecords(fs[i], items).Some? && |EncodeRecords(fs[i], items).value| < SIZE_LIMIT
    ensures var b := EncodeRecords(fs[i], items).value + rest;
            if forall v :: v in items ==> ValueFits(fs[i], v) then
              && Sound(fs, cells') && cells'[i].Many? && cells' == cells[i := cells'[i]]
              && Extended(fs[i], cells[i].items, items, cells'[i].items)
              && DecodeFields(fs, cells, seen, b) == DecodeFields(fs, cells', seen, rest)
            else DecodeFields(fs, cells, seen, b) == None
    decreases fs, 2, |items|
  {
    hide EncodeRecord, DecodeFields, ValueFits, SameValue, FieldOk, ValueOk, HasType, TagBytes, Matches, Defaults;
    cells' := cells;
    if items == [] {
      assert [] + rest == rest;
    } else {
      var f, first := fs[i], EncodeRecord(fs[i], items[0]).value;
      var others := EncodeRecords(f, items[1..]).value;
      Assoc(first, others, rest);
      assert FieldOk(f) && CellOk(f, cells[Home(fs, i)]) && Home(fs, i) == i;
      var v' := RecordRoundTrip(fs, i, items[0], cells, seen, others + rest);
      if ValueFits(f, items[0]) {
        var next := cells[i := Many(cells[i].items + [v'])];
        cells' := RecordsRoundTrip(fs, i, items[1..], next, seen, rest);
        assert items == [items[0]] + items[1..];
        if forall v :: v in items[1..] ==> ValueFits(f, v) {
          ExtendedOnce(f, cells[i].items, items, v', cells'[i].items);
        }
      }
    }
  }

  lemma {:induction false} ItemsRoundTrip(f: Field, items: seq<Value>, before: seq<Value>)
    requires FieldOk(f) && Packable(f.ltype) && (forall v :: v in items ==> HasType(f, v))
    requires |before| + |items| <= f.arraySize && (forall v :: v in before ==> ValueOk(f, v))
    requires EncodeItems(f, items).Some?
    ensures DecodeItems(f, before, EncodeItems(f, items).value) == Some(before + items)
  {
    hide EncodeNum, DecodeNum, WellFormed, Matches;
    if items == [] {
      assert before + [] == before;
    } else {
      var b, others := EncodeValue(f, items[0]).value, EncodeItems(f, items[1..]).value;
      NumRoundTrip(f.ltype, f.dataSize, items[0].n, others);
      assert (b + others)[|b|..] == others;
      ItemsRoundTrip(f, items[1..], before + [items[0]]);
      assert before + [items[0]] + items[1..] == before + items;
    }
  }

  /** A packed array. */
  lemma PackedRoundTrip(fs: seq<Field>, i: nat, items: seq<Value>, cells: seq<Cell>, seen: set<nat>, rest: Bytes)
    requires WellFormed(fs) && Sound(fs, cells) && i < |fs| && fs[i].htype.Repeated? && Packable(fs[i].ltype)
    requires forall v :: v in items ==> HasType(fs[i], v)
    requires cells[i] == Many([]) && items != [] && EncodeArray(fs[i], items).Some?
    requires |EncodeArray(fs[i], items).value| < SIZE_LIMIT
    ensures var cells', b := cells[i := Many(items)], EncodeArray(fs[i], items).value + rest;
            if |EncodeItems(fs[i], items).value| <= PB_SIZE_MAX then
              && Sound(fs, cells') && DecodeFields(fs, cells, seen, b) == DecodeFields(fs, cells', seen, rest)
            else DecodeFields(fs, cells, seen, b) == None
  {
    hide EncodeItems, DecodeItems, DecodeFields, ValueOk, HasType, TagBytes, Matches, EncodeVarint, Substream;
    var f, enc := fs[i], EncodeItems(fs[i], items).value;
    assert FieldOk(f) && Home(fs, i) == i;
    Assoc(TagBytes(f, WT_STRING), Prefixed(enc), rest);
    OneRecord(fs, i, WT_STRING, cells, seen, Prefixed(enc) + rest);
    SubstreamOfPrefixed(enc, rest);
    ItemsRoundTrip(f, items, []);
    assert [] + items == items;
  }

  // ---- fields ---------------------------------------------------------------------------------------------

  /** Nothing has been read into the field yet. */
  ghost predicate NotYet(f: Field, c: Cell)
    requires FieldOk(f)
  {
    if f.htype.OneOf? then c.Union? && c.which != f.tag else c == InitialCell(f)
  }

  /** A field that is not written is as good as what the decoder starts with. */
  lemma {:induction false} UnsetIsInitial(f: Field, c: Cell, initial: Cell)
    requires FieldOk(f) && CellHasType(f, c) && NotYet(f, initial)
    requires if f.htype.Repeated? then c.items == [] else !Present(f, c)
    ensures SameCell(f, c, initial)
    decreases f, 1
  {
    if f.htype.Optional? && f.sizeOffset == 0 {
      DefaultIsInitial(f, c.value);
    }
  }

  lemma {:induction false} DefaultIsInitial(f: Field, v: Value)
    requires FieldOk(f) && HasType(f, v) && ValueIsDefault(f, v) && f.initial.None?
    ensures SameValue(f, v, InitialValue(f))
    decreases f, 0
  {
    if f.ltype.Submessage? {
      AllDefaultIsInitial(f.sub, v.cells);
    }
  }

  lemma {:induction false} AllDefaultIsInitial(fs: seq<Field>, cells: seq<Cell>)
    requires WellFormed(fs) && Matches(fs, cells) && AllDefault(fs, cells, 0)
    ensures Same(fs, cells, Defaults(fs))
    decreases fs, 2
  {
    hide IsDefault, SameCell, CellHasType, FieldOk, InitialCell;
    forall i | 0 <= i < |fs| ensures SameCell(fs[i], cells[Home(fs, i)], Defaults(fs)[Home(fs, i)]) {
      EachIsDefault(fs, cells, 0, i);
      UnsetField(fs, i, cells[Home(fs, i)]);
    }
  }

  lemma {:induction false} UnsetField(fs: seq<Field>, i: nat, c: Cell)
    requires WellFormed(fs) && i < |fs| && CellHasType(fs[i], c) && IsDefault(fs[i], c)
    ensures SameCell(fs[i], c, Defaults(fs)[Home(fs, i)])
    decreases fs, 1
  {
    assert FieldOk(fs[Home(fs, i)]) && FieldOk(fs[i]);
    UnsetIsInitial(fs[i], c, Defaults(fs)[Home(fs, i)]);
  }

  lemma {:induction false} EachIsDefault(fs: seq<Field>, cells: seq<Cell>, i: nat, j: nat)
    requires i <= j < |fs| && Matches(fs, cells) && AllDefault(fs, cells, i)
    ensures CellHasType(fs[j], cells[Home(fs, j)]) && IsDefault(fs[j], cells[Home(fs, j)])
    decreases j - i
  {
    hide CellHasType, IsDefault;
    if i < j {
      EachIsDefault(fs, cells, i + 1, j);
    }
  }

  /** What reading back field i does to the structure. */
  ghost predicate ReadBack(fs: seq<Field>, i: nat, c: Cell, cells: seq<Cell>, cells': seq<Cell>)
    requires i < |fs| == |cells|
  {
    var f, h := fs[i], Home(fs, i);
    && |cells'| == |cells| && cells' == cells[h := cells'[h]] && SameCell(f, c, cells'[h])
    && (f.htype.OneOf? ==> cells'[h] == cells[h] || (c.Union? && cells'[h].Union? && c.which == cells'[h].which == f.tag))
  }

  lemma {:induction false} FieldRoundTrip(fs: seq<Field>, i: nat, c: Cell, cells: seq<Cell>, seen: set<nat>, rest: Bytes)
    returns (cells': seq<Cell>)
    requires WellFormed(fs) && Sound(fs, cells) && i < |fs| == |cells| && FieldOk(fs[i])
    requires CellHasType(fs[i], c) && NotYet(fs[i], cells[Home(fs, i)])
    requires EncodeField(fs[i], c).Some? && |EncodeField(fs[i], c).value| < SIZE_LIMIT
    ensures CellFits(fs[i], c) ==> Sound(fs, cells') && ReadBack(fs, i, c, cells, cells')
    ensures var b := EncodeField(fs[i], c).value + rest;
            DecodeFields(fs, cells, seen, b)
            == if CellFits(fs[i], c) then DecodeFields(fs, cells', Seen(fs, i, seen), rest) else None
    decreases fs, 3
  {
    hide DecodeFields, EncodeRecord, EncodeRecords, EncodeItems, ValueFits, SameValue, HasType, ValueOk, WellFormed,
      Matches, Sound, Defaults, IsDefault;
    var f, h := fs[i], Home(fs, i);
    cells' := cells;
    assert CellOk(f, cells[h]) by { CellIsOk(fs, i, cells); }
    if f.htype.Repeated? {
      if c.items == [] {
        NothingWritten(f, rest);
      } else if Packable(f.ltype) {
        PackedRoundTrip(fs, i, c.items, cells, seen, rest);
        cells' := cells[i := Many(c.items)];
        SameItems(f, c.items);
      } else {
        cells' := RecordsRoundTrip(fs, i, c.items, cells, seen, rest);
      }
    } else if Present(f, c) {
      StartsAfreshIfNotYet(f, cells[h]);
      var v' := RecordRoundTrip(fs, i, c.value, cells, seen, rest);
      if ValueFits(f, c.value) {
        cells' := cells[h := Filled(f, cells[h], v')];
      }
    } else {
      UnsetIsInitial(f, c, cells[h]);
      assert [] + rest == rest;
    }
  }

  lemma CellIsOk(fs: seq<Field>, i: nat, cells: seq<Cell>)
    requires Sound(fs, cells) && i < |fs| == |cells|
    ensures CellOk(fs[i], cells[Home(fs, i)])
  {
  }

  lemma SameItems(f: Field, items: seq<Value>)
    requires Packable(f.ltype)
    ensures forall k :: 0 <= k < |items| ==> SameValue(f, items[k], items[k])
  {
  }

  lemma StartsAfreshIfNotYet(f: Field, c: Cell)
    requires FieldOk(f) && CellOk(f, c) && NotYet(f, c) && !f.htype.Repeated?
    ensures StartsAfresh(f, c)
  {
    hide Defaults, WellFormed, Sound, Matches;
    if f.ltype.Submessage? && !f.htype.OneOf? {
      assert c.value == InitialValue(f) == Message(Defaults(f.sub));
    }
  }

  // ---- from one descriptor to another ---------------------------------------------------------------------

  /** The descriptors of two versions of a message: fields with the same number are the same, and members of one union
    * that both have come from one union.
    */
  ghost predicate Compatible(es: seq<Field>, ds: seq<Field>) {
    && (forall k, j :: 0 <= k < |es| && 0 <= j < |ds| && es[k].tag == ds[j].tag ==> es[k] == ds[j])
    && (forall k, k', j, j' ::
          && 0 <= k < |es| && 0 <= k' < |es| && 0 <= j < |ds| && 0 <= j' < |ds|
          && es[k].tag == ds[j].tag && es[k'].tag == ds[j'].tag && Home(ds, j) == Home(ds, j')
          ==> Home(es, k) == Home(es, k'))
  }

  /** Field k and those after it: read back by a decoder that has the field, and skipped by one that has not. */
  ghost predicate AllPass(es: seq<Field>, m: seq<Cell>, k: nat, ds: seq<Field>)
    requires k <= |es| && Matches(es, m)
    decreases |es| - k
  {
    k == |es|
    || ((if Unknown(ds, es[k].tag) then CellSkips(es[k], m[Home(es, k)]) else CellFits(es[k], m[Home(es, k)]))
        && AllPass(es, m, k + 1, ds))
  }

  /** One of the first k fields has the tag. */
  ghost predicate Among(es: seq<Field>, k: nat, tag: nat) {
    exists i :: 0 <= i < k && i < |es| && es[i].tag == tag
  }

  /** Of the fields that the decoder has, those among the first k have been read back, and the others have not. */
  ghost predicate Halfway(es: seq<Field>, m: seq<Cell>, k: nat, ds: seq<Field>, cells: seq<Cell>)
    requires |m| == |es| && |cells| == |ds| && WellFormed(ds)
  {
    && (forall i, j :: 0 <= i < k && i < |es| && 0 <= j < |ds| && es[i].tag == ds[j].tag
                       ==> SameCell(ds[j], m[Home(es, i)], cells[Home(ds, j)]))
    && (forall j :: 0 <= j < |ds| && !Among(es, k, ds[j].tag) ==> NotYet(ds[j], cells[Home(ds, j)]))
  }

  /** The required fields of the first k are marked. */
  ghost predicate Marked(es: seq<Field>, k: nat, ds: seq<Field>, seen: set<nat>) {
    forall j :: 0 <= j < |ds| && ds[j].htype.Required? && RequiredBefore(ds, j) < MAX_REQUIRED_FIELDS
                ==> (RequiredBefore(ds, j) in seen <==> Among(es, k, ds[j].tag))
  }

  lemma KnownFurther(es: seq<Field>, m: seq<Cell>, k: nat, ds: seq<Field>, j: nat, cells: seq<Cell>, cells': seq<Cell>)
    requires WellFormed(es) && WellFormed(ds) && Compatible(es, ds) && |m| == |es| && |cells| == |ds|
    requires k < |es| && j < |ds| && es[k] == ds[j] && Halfway(es, m, k, ds, cells)
    requires ReadBack(ds, j, m[Home(es, k)], cells, cells')
    ensures Halfway(es, m, k + 1, ds, cells')
  {
    hide SameCell, NotYet, FieldOk, Home, ReadBack;
    assert |cells'| == |ds| by { SameLength(ds, j, m[Home(es, k)], cells, cells'); }
    forall i, l | 0 <= i < k + 1 && i < |es| && 0 <= l < |ds| && es[i].tag == ds[l].tag
      ensures SameCell(ds[l], m[Home(es, i)], cells'[Home(ds, l)])
    {
      KnownStays(es, m, k, ds, j, cells, cells', i, l);
    }
    forall l | 0 <= l < |ds| && !Among(es, k + 1, ds[l].tag) ensures NotYet(ds[l], cells'[Home(ds, l)]) {
      assert ds[l].tag != es[k].tag && !Among(es, k, ds[l].tag);
      assert FieldOk(ds[l]) && NotYet(ds[l], cells[Home(ds, l)]);
      OtherNotYet(ds, j, l, m[Home(es, k)], cells, cells');
    }
  }

  lemma KnownStays(es: seq<Field>, m: seq<Cell>, k: nat, ds: seq<Field>, j: nat, cells: seq<Cell>, cells': seq<Cell>,
                   i: nat, l: nat)
    requires WellFormed(es) && WellFormed(ds) && Compatible(es, ds) && |m| == |es| && |cells| == |ds|
    requires k < |es| && j < |ds| && es[k] == ds[j] && Halfway(es, m, k, ds, cells)
    requires ReadBack(ds, j, m[Home(es, k)], cells, cells')
    requires i <= k && l < |ds| && es[i].tag == ds[l].tag
    ensures |cells'| == |ds| && SameCell(ds[l], m[Home(es, i)], cells'[Home(ds, l)])
  {
    hide SameCell, NotYet, FieldOk, Home, ReadBack, Among;
    if i < k {
      assert SameCell(ds[l], m[Home(es, i)], cells[Home(ds, l)]) && es[i].tag != es[k].tag;
      OtherStays(ds, j, l, m[Home(es, k)], m[Home(es, i)], cells, cells');
    } else {
      assert l == j by { assert es[k].tag == ds[j].tag; }
      ReadBackIsSame(ds, j, m[Home(es, k)], cells, cells');
    }
  }

  lemma SameLength(fs: seq<Field>, i: nat, c: Cell, cells: seq<Cell>, cells': seq<Cell>)
    requires i < |fs| == |cells| && ReadBack(fs, i, c, cells, cells')
    ensures |cells'| == |fs|
  {
  }

  lemma ReadBackIsSame(fs: seq<Field>, i: nat, c: Cell, cells: seq<Cell>, cells': seq<Cell>)
    requires i < |fs| == |cells| && ReadBack(fs, i, c, cells, cells')
    ensures |cells'| == |fs| && SameCell(fs[i], c, cells'[Home(fs, i)])
  {
  }

  /** Reading field j leaves what was read into another field; if they share a union, so they do where c and c0 come
    * from.
    */
  lemma OtherStays(fs: seq<Field>, j: nat, l: nat, c: Cell, c0: Cell, cells: seq<Cell>, cells': seq<Cell>)
    requires j < |fs| == |cells| && l < |fs| && fs[j].tag != fs[l].tag && ReadBack(fs, j, c, cells, cells')
    requires SameCell(fs[l], c0, cells[Home(fs, l)]) && (Home(fs, j) == Home(fs, l) ==> c0 == c)
    ensures |cells'| == |fs| && SameCell(fs[l], c0, cells'[Home(fs, l)])
  {
    hide SameValue, Home;
    if Home(fs, l) == Home(fs, j) {
      OneHome(fs, l, j);
    }
  }

  lemma OtherNotYet(fs: seq<Field>, j: nat, l: nat, c: Cell, cells: seq<Cell>, cells': seq<Cell>)
    requires j < |fs| == |cells| && l < |fs| && fs[j].tag != fs[l].tag && ReadBack(fs, j, c, cells, cells')
    requires FieldOk(fs[l]) && NotYet(fs[l], cells[Home(fs, l)])
    ensures |cells'| == |fs| && NotYet(fs[l], cells'[Home(fs, l)])
  {
    hide SameCell, Home, FieldOk, InitialCell;
    if Home(fs, l) == Home(fs, j) {
      OneHome(fs, l, j);
    }
  }

  lemma OneHome(fs: seq<Field>, i: nat, j: nat)
    requires i < |fs| && j < |fs| && Home(fs, i) == Home(fs, j) && i != j
    ensures fs[i].htype.OneOf? && fs[j].htype.OneOf?
  {
  }

  lemma UnknownFurther(es: seq<Field>, m: seq<Cell>, k: nat, ds: seq<Field>, cells: seq<Cell>, seen: set<nat>)
    requires WellFormed(ds) && |m| == |es| && |cells| == |ds| && k < |es| && Unknown(ds, es[k].tag)
    requires Halfway(es, m, k, ds, cells) && Marked(es, k, ds, seen)
    ensures Halfway(es, m, k + 1, ds, cells) && Marked(es, k + 1, ds, seen)
  {
    hide SameCell, NotYet, Home, WellFormed;
    assert forall j :: 0 <= j < |ds| ==> (Among(es, k + 1, ds[j].tag) <==> Among(es, k, ds[j].tag));
  }

  lemma OneMoreMarked(es: seq<Field>, k: nat, ds: seq<Field>, j: nat, seen: set<nat>)
    requires DistinctTags(ds) && k < |es| && j < |ds| && es[k] == ds[j] && Marked(es, k, ds, seen)
    ensures Marked(es, k + 1, ds, Seen(ds, j, seen))
  {
    forall l | 0 <= l < |ds| && ds[l].htype.Required? && RequiredBefore(ds, l) < MAX_REQUIRED_FIELDS
      ensures RequiredBefore(ds, l) in Seen(ds, j, seen) <==> Among(es, k + 1, ds[l].tag)
    {
      assert Among(es, k + 1, ds[l].tag) <==> Among(es, k, ds[l].tag) || ds[l].tag == es[k].tag;
      if l < j {
        RequiredBeforeGrows(ds, l, j);
      } else if j < l {
        RequiredBeforeGrows(ds, j, l);
      }
    }
  }

  /** The required fields that a decoder tracks, which are the first 64, are all among those of the encoder. */
  ghost predicate HasRequired(es: seq<Field>, ds: seq<Field>) {
    forall j :: 0 <= j < |ds| && ds[j].htype.Required? && RequiredBefore(ds, j) < MAX_REQUIRED_FIELDS
                ==> Among(es, |es|, ds[j].tag)
  }

  lemma {:induction false} FieldsRoundTrip(es: seq<Field>, m: seq<Cell>, k: nat, ds: seq<Field>, cells: seq<Cell>,
                                           seen: set<nat>)
    requires WellFormed(es) && WellFormed(ds) && Compatible(es, ds) && Matches(es, m) && Sound(ds, cells) && k <= |es|
    requires EncodeFrom(es, m, k).Some? && |EncodeFrom(es, m, k).value| < SIZE_LIMIT
    requires |m| == |es| && |cells| == |ds| && Halfway(es, m, k, ds, cells) && Marked(es, k, ds, seen)
    ensures var r := DecodeFields(ds, cells, seen, EncodeFrom(es, m, k).value);
            if AllPass(es, m, k, ds) && HasRequired(es, ds) then
              r.Some? && r.value.rest == [] && |r.value.value| == |ds| && Halfway(es, m, |es|, ds, r.value.value)
            else r == None
    decreases ds, 4, |es| - k
  {
    hide EncodeField, CellFits, CellSkips, FieldOk, CellHasType, CellOk, Halfway, Marked, Compatible, Seen, AllSeen;
    if k == |es| {
      EndsIfMarked(es, ds, seen);
    } else {
      var f, c := es[k], m[Home(es, k)];
      assert FieldOk(f) && CellHasType(f, c);
      var others := EncodeFrom(es, m, k + 1).value;
      hide EncodeFrom, DecodeFields, Sound, Matches, WellFormed, ReadBack;
      if Unknown(ds, f.tag) {
        SkipsField(ds, cells, seen, f, c, others);
        UnknownFurther(es, m, k, ds, cells, seen);
        if CellSkips(f, c) {
          FieldsRoundTrip(es, m, k + 1, ds, cells, seen);
        }
      } else {
        var j := KnownAs(es, m, k, ds, cells);
        var cells' := FieldRoundTrip(ds, j, c, cells, seen, others);
        if CellFits(f, c) {
          KnownPasses(es, m, k, ds, j, cells, cells', seen);
          FieldsRoundTrip(es, m, k + 1, ds, cells', Seen(ds, j, seen));
        }
      }
    }
  }

  lemma KnownPasses(es: seq<Field>, m: seq<Cell>, k: nat, ds: seq<Field>, j: nat, cells: seq<Cell>, cells': seq<Cell>,
                    seen: set<nat>)
    requires WellFormed(es) && WellFormed(ds) && Compatible(es, ds) && |m| == |es| && |cells| == |ds|
    requires k < |es| && j < |ds| && es[k] == ds[j] && Halfway(es, m, k, ds, cells) && Marked(es, k, ds, seen)
    requires ReadBack(ds, j, m[Home(es, k)], cells, cells')
    ensures |cells'| == |ds| && Halfway(es, m, k + 1, ds, cells') && Marked(es, k + 1, ds, Seen(ds, j, seen))
  {
    hide SameCell, NotYet, FieldOk, Halfway, Marked, Compatible;
    KnownFurther(es, m, k, ds, j, cells, cells');
    OneMoreMarked(es, k, ds, j, seen);
  }

  lemma KnownAs(es: seq<Field>, m: seq<Cell>, k: nat, ds: seq<Field>, cells: seq<Cell>) returns (j: nat)
    requires WellFormed(es) && WellFormed(ds) && Compatible(es, ds) && |m| == |es| && |cells| == |ds| && k < |es|
    requires !Unknown(ds, es[k].tag) && Halfway(es, m, k, ds, cells)
    ensures j < |ds| && es[k] == ds[j] && FieldOk(ds[j]) && NotYet(ds[j], cells[Home(ds, j)])
  {
    hide SameCell, NotYet, FieldOk, Home;
    j :| 0 <= j < |ds| && ds[j].tag == es[k].tag;
    assert !Among(es, k, ds[j].tag);
    assert FieldOk(ds[j]);
  }

  lemma EndsIfMarked(es: seq<Field>, ds: seq<Field>, seen: set<nat>)
    requires Marked(es, |es|, ds, seen)
    ensures AllSeen(ds, seen) <==> HasRequired(es, ds)
  {
    hide Among;
    if HasRequired(es, ds) {
      forall k: nat | k < Tracked(ds) ensures k in seen {
        var j := NthRequired(ds, |ds|, k);
      }
    }
    if AllSeen(ds, seen) {
      forall j | 0 <= j < |ds| && ds[j].htype.Required? && RequiredBefore(ds, j) < MAX_REQUIRED_FIELDS
        ensures Among(es, |es|, ds[j].tag)
      {
        RequiredBeforeGrows(ds, j, |ds|);
        assert RequiredBefore(ds, j) < Tracked(ds);
      }
    }
  }

  lemma NothingReadYet(es: seq<Field>, m: seq<Cell>, ds: seq<Field>)
    requires WellFormed(ds) && |m| == |es|
    ensures Halfway(es, m, 0, ds, Defaults(ds)) && Marked(es, 0, ds, {})
  {
    forall j | 0 <= j < |ds| ensures NotYet(ds[j], Defaults(ds)[Home(ds, j)]) {
      assert FieldOk(ds[j]) && FieldOk(ds[Home(ds, j)]);
    }
  }

  // ---- whole structures -----------------------------------------------------------------------------------

  lemma {:induction false} PassIsFit(fs: seq<Field>, m: seq<Cell>, k: nat)
    requires Matches(fs, m) && k <= |fs|
    ensures AllPass(fs, m, k, fs) <==> AllFit(fs, m, k)
    decreases |fs| - k
  {
    hide CellFits, CellSkips, Matches, Unknown, Home;
    if k < |fs| {
      KnowsItself(fs, k);
      PassIsFit(fs, m, k + 1);
    }
  }

  lemma KnowsItself(fs: seq<Field>, k: nat)
    requires k < |fs|
    ensures !Unknown(fs, fs[k].tag)
  {
  }

  lemma WithItself(fs: seq<Field>)
    requires WellFormed(fs)
    ensures Compatible(fs, fs) && HasRequired(fs, fs)
  {
    hide FieldOk;
  }

  lemma AllReadBack(fs: seq<Field>, m: seq<Cell>, cells: seq<Cell>)
    requires WellFormed(fs) && |m| == |cells| == |fs| && Halfway(fs, m, |fs|, fs, cells)
    ensures Same(fs, m, cells)
  {
    hide SameCell, NotYet, WellFormed;
  }

  /** Decoding on top of the defaults what was encoded. */
  lemma {:induction false} FromDefaults(fs: seq<Field>, m: seq<Cell>)
    requires WellFormed(fs) && Matches(fs, m) && Encoded(fs, m).Some? && |Encoded(fs, m).value| < SIZE_LIMIT
    ensures var r := DecodeFields(fs, Defaults(fs), {}, Encoded(fs, m).value);
            if AllFit(fs, m, 0) then r.Some? && r.value.rest == [] && Same(fs, m, r.value.value) else r == None
    decreases fs, 5
  {
    hide EncodeFrom, DecodeFields, AllFit, AllPass, Same, FieldOk, SameCell, CellHasType, CellOk, Compatible, HasRequired,
      Halfway, Marked;
    NothingReadYet(fs, m, fs);
    WithItself(fs);
    PassIsFit(fs, m, 0);
    FieldsRoundTrip(fs, m, 0, fs, Defaults(fs), {});
    var r := DecodeFields(fs, Defaults(fs), {}, Encoded(fs, m).value);
    if r.Some? {
      AllReadBack(fs, m, r.value.value);
    }
  }

  /** The round trip, for every descriptor and every structure that can be encoded. */
  lemma RoundTrip(fs: seq<Field>, m: seq<Cell>)
    requires WellFormed(fs) && Matches(fs, m) && Encoded(fs, m).Some? && |Encoded(fs, m).value| < SIZE_LIMIT
    ensures var r := Decode(fs, Encoded(fs, m).value);
            && (r.Some? <==> AllFit(fs, m, 0))
            && (r.Some? ==> r.value.rest == [] && Same(fs, m, r.value.value))
  {
    FromDefaults(fs, m);
  }

  /** What both have comes over, and what only the decoder has is as it was initially. */
  ghost predicate ComesOver(es: seq<Field>, m: seq<Cell>, ds: seq<Field>, cells: seq<Cell>) {
    && |m| == |es| && |cells| == |ds| && (forall j :: 0 <= j < |ds| ==> FieldOk(ds[j]))
    && (forall i, j :: 0 <= i < |es| && 0 <= j < |ds| && es[i].tag == ds[j].tag
                       ==> SameCell(ds[j], m[Home(es, i)], cells[Home(ds, j)]))
    && (forall j :: 0 <= j < |ds| && Unknown(es, ds[j].tag) ==> NotYet(ds[j], cells[Home(ds, j)]))
  }

  /** A message written with one descriptor and read with another, which may lack fields of the first and have others:
    * it is decoded exactly if what both have fits, what the decoder lacks can be skipped, and the encoder has all
    * required fields of the decoder.
    */
  lemma CompatibleRoundTrip(es: seq<Field>, m: seq<Cell>, ds: seq<Field>)
    requires WellFormed(es) && WellFormed(ds) && Compatible(es, ds) && Matches(es, m)
    requires Encoded(es, m).Some? && |Encoded(es, m).value| < SIZE_LIMIT
    ensures var r := Decode(ds, Encoded(es, m).value);
            && (r.Some? <==> AllPass(es, m, 0, ds) && HasRequired(es, ds))
            && (r.Some? ==> r.value.rest == [] && ComesOver(es, m, ds, r.value.value))
  {
    hide EncodeFrom, DecodeFields, AllPass, FieldOk, SameCell, CellHasType, CellOk, Compatible, HasRequired, Halfway, Marked,
      ComesOver;
    NothingReadYet(es, m, ds);
    FieldsRoundTrip(es, m, 0, ds, Defaults(ds), {});
    var r := Decode(ds, Encoded(es, m).value);
    if r.Some? {
      AllCameOver(es, m, ds, r.value.value);
    }
  }

  lemma AllCameOver(es: seq<Field>, m: seq<Cell>, ds: seq<Field>, cells: seq<Cell>)
    requires WellFormed(ds) && |m| == |es| && |cells| == |ds| && Halfway(es, m, |es|, ds, cells)
    ensures ComesOver(es, m, ds, cells)
  {
    hide SameCell, NotYet, FieldOk;
    assert forall j :: 0 <= j < |ds| && Unknown(es, ds[j].tag) ==> !Among(es, |es|, ds[j].tag);
  }

  // ---- what was decoded can be encoded ------------------------------------------------------------------

  lemma {:induction false} ValueEncodes(f: Field, v: Value)
    requires FieldOk(f) && ValueOk(f, v)
    ensures EncodeValue(f, v).Some?
    decreases f, 0
  {
    if f.ltype.Submessage? {
      SoundEncodes(f.sub, v.cells, 0);
    }
  }

  lemma {:induction false} ItemsEncode(f: Field, items: seq<Value>)
    requires FieldOk(f) && (forall v :: v in items ==> HasType(f, v)) && forall v :: v in items ==> ValueOk(f, v)
    ensures EncodeItems(f, items).Some? && EncodeRecords(f, items).Some?
    decreases f, 1, |items|
  {
    hide FieldOk, ValueOk, HasType, EncodeValue;
    if items != [] {
      ValueEncodes(f, items[0]);
      ItemsEncode(f, items[1..]);
    }
  }

  lemma {:induction false} FieldEncodes(f: Field, c: Cell)
    requires FieldOk(f) && CellOk(f, c)
    ensures EncodeField(f, c).Some?
    decreases f, 2
  {
    hide FieldOk, ValueOk, HasType, EncodeValue, EncodeItems, EncodeRecords, IsDefault;
    if f.htype.Repeated? {
      ItemsEncode(f, c.items);
    } else if Present(f, c) {
      ValueEncodes(f, c.value);
    }
  }

  lemma {:induction false} SoundEncodes(fs: seq<Field>, cells: seq<Cell>, i: nat)
    requires WellFormed(fs) && Matches(fs, cells) && Sound(fs, cells) && i <= |fs|
    ensures EncodeFrom(fs, cells, i).Some?
    decreases fs, 3, |fs| - i
  {
    hide FieldOk, CellOk, CellHasType, EncodeField;
    if i < |fs| {
      assert FieldOk(fs[i]) && CellOk(fs[i], cells[Home(fs, i)]);
      FieldEncodes(fs[i], cells[Home(fs, i)]);
      SoundEncodes(fs, cells, i + 1);
    }
  }

  lemma SoundMatches(fs: seq<Field>, cells: seq<Cell>)
    requires Sound(fs, cells)
    ensures Matches(fs, cells)
  {
  }

  /** And whatever part of it has an encoding of 32 bits in length fits. */
  lemma {:induction false} ValueFitsIfSmall(f: Field, v: Value)
    requires FieldOk(f) && ValueOk(f, v) && EncodeValue(f, v).Some? && |EncodeValue(f, v).value| <= PB_SIZE_MAX
    ensures ValueFits(f, v)
    decreases f, 0
  {
    hide Matches, Sound, EncodeFrom, AllFit;
    if f.ltype.Submessage? {
      AllFitIfSmall(f.sub, v.cells, 0);
    }
  }

  lemma {:induction false} ItemsFitIfSmall(f: Field, items: seq<Value>)
    requires FieldOk(f) && (forall v :: v in items ==> HasType(f, v)) && forall v :: v in items ==> ValueOk(f, v)
    requires EncodeRecords(f, items).Some? && |EncodeRecords(f, items).value| <= PB_SIZE_MAX
    ensures forall v :: v in items ==> ValueFits(f, v)
    decreases f, 1, |items|
  {
    hide FieldOk, ValueOk, HasType, EncodeValue, ValueFits;
    if items != [] {
      ValueFitsIfSmall(f, items[0]);
      ItemsFitIfSmall(f, items[1..]);
      assert items == [items[0]] + items[1..];
    }
  }

  lemma {:induction false} CellFitsIfSmall(f: Field, c: Cell)
    requires FieldOk(f) && CellOk(f, c) && EncodeField(f, c).Some? && |EncodeField(f, c).value| <= PB_SIZE_MAX
    ensures CellFits(f, c)
    decreases f, 2
  {
    hide FieldOk, ValueOk, HasType, EncodeValue, EncodeRecords, IsDefault, ValueFits;
    if !f.htype.Repeated? {
      if Present(f, c) {
        ValueFitsIfSmall(f, c.value);
      }
    } else if !Packable(f.ltype) {
      if c.items != [] {
        ItemsFitIfSmall(f, c.items);
      }
    }
  }

  lemma {:induction false} AllFitIfSmall(fs: seq<Field>, cells: seq<Cell>, i: nat)
    requires WellFormed(fs) && Matches(fs, cells) && Sound(fs, cells) && i <= |fs|
    requires EncodeFrom(fs, cells, i).Some? && |EncodeFrom(fs, cells, i).value| <= PB_SIZE_MAX
    ensures AllFit(fs, cells, i)
    decreases fs, 3, |fs| - i
  {
    hide WellFormed, Sound, CellHasType, EncodeFrom, EncodeField, CellFits;
    if i < |fs| {
      SoundField(fs, cells, i);
      OneFieldOff(fs, cells, i);
      CellFitsIfSmall(fs[i], cells[Home(fs, i)]);
      AllFitIfSmall(fs, cells, i + 1);
    }
  }

  lemma OneFieldOff(fs: seq<Field>, cells: seq<Cell>, i: nat)
    requires Matches(fs, cells) && i < |fs| && EncodeFrom(fs, cells, i).Some?
    ensures EncodeField(fs[i], cells[Home(fs, i)]).Some? && EncodeFrom(fs, cells, i + 1).Some?
    ensures |EncodeFrom(fs, cells, i).value|
            == |EncodeField(fs[i], cells[Home(fs, i)]).value| + |EncodeFrom(fs, cells, i + 1).value|
  {
    hide CellHasType, EncodeField;
  }

  /** Whatever bytes it came from, a decoded structure can be encoded, and comes back if its encoding has a length
    * of 32 bits.
    */
  lemma DecodedRoundTrips(fs: seq<Field>, b: Bytes)
    requires WellFormed(fs) && Decode(fs, b).Some?
    ensures var m := Decode(fs, b).value.value;
            && Matches(fs, m) && Encoded(fs, m).Some?
            && (|Encoded(fs, m).value| <= PB_SIZE_MAX ==>
                  var r := Decode(fs, Encoded(fs, m).value);
                  r.Some? && r.value.rest == [] && Same(fs, m, r.value.value))
  {
    hide WellFormed, Sound, EncodeFrom, DecodeFields, AllFit, Same;
    var m := Decode(fs, b).value.value;
    SoundMatches(fs, m);
    SoundEncodes(fs, m, 0);
    if |Encoded(fs, m).value| <= PB_SIZE_MAX {
      AllFitIfSmall(fs, m, 0);
      RoundTrip(fs, m);
    }
  }

  // ---- a string that fills its array ----------------------------------------------------------------------

  /** A required string in an array of two chars. */
  function TwoChars(): seq<Field> {
    [Field(1, String, Required, 0, 0, 2, 0, None, [])]
  }

  /** The encoder takes "ab" without a NUL from an array of two, but the decoder has no room for the NUL that it
    * would add.
    */
  lemma FullStringIsRejected()
    ensures var fs, m := TwoChars(), [Single(Blob([97, 98]))];
            && WellFormed(fs) && Matches(fs, m) && Encoded(fs, m) == Some([10, 2, 97, 98])
            && Decode(fs, [10, 2, 97, 98]) == None
  {
    var fs, m := TwoChars(), [Single(Blob([97, 98]))];
    var f, c := fs[0], m[0];
    assert HasType(f, c.value) && CellHasType(f, c);
    assert Matches(fs, m);
    assert WellFormed([]) && FieldOk(f) && WellFormed(fs);
    assert UpToNul([98]) == [98] && UpToNul([97, 98]) == [97, 98];
    assert EncodeVarint(2) == [2] && EncodeVarint(10) == [10];
    assert Prefixed([97, 98]) == [2, 97, 98] && TagBytes(f, 2) == [10];
    var tag: Bytes, text: Bytes, record: Bytes := [10], [2, 97, 98], [10, 2, 97, 98];
    assert tag + text == record && record + [] == record;
    assert EncodeField(f, c) == EncodeRecord(f, c.value) == Some(record);
    assert EncodeFrom(fs, m, 1) == Some([]);
    assert Encoded(fs, m) == Some([10, 2, 97, 98]);
    assert !ValueFits(f, c.value) && !CellFits(f, c) && !AllFit(fs, m, 0);
    RoundTrip(fs, m);
  }
}
