/** pb_ostream_t and the encoder that writes to it (pb_encode.c). */
module PbOutput {
  import opened InternalKeys
  import opened Coding
  import opened PbFields
  import opened PbWire
  import opened PbEncoding

  /** An output stream into a buffer of maxSize bytes, or a sizing stream, which only counts. */
  class OStream {
    const sizing: bool
    const maxSize: nat
    var bytes: Bytes
    var written: nat

    ghost predicate Valid()
      reads this
    {
      sizing || written <= maxSize
    }

    ghost function State(): Output
      reads this
    {
      Output(bytes, written)
    }

    /** pb_ostream_from_buffer, its buffer being filled from where `bytes` ends; or PB_OSTREAM_SIZING. */
    constructor (sizing: bool, maxSize: nat, bytes: Bytes)
      ensures Valid() && this.sizing == sizing && this.maxSize == maxSize && State() == Output(bytes, 0)
    {
      this.sizing, this.maxSize, this.bytes, written := sizing, maxSize, bytes, 0;
    }

    /** pb_write */
    method Write(buf: Bytes) returns (ok: bool)
      requires Valid()
      modifies this
      ensures Effect(ok, old(State()), State(), sizing, maxSize, Some(buf)) && (ok ==> Valid())
    {
      if |buf| > 0 && !sizing {
        if written + |buf| > maxSize {
          return false;
        }
        bytes := bytes + buf;
      }
      assert buf == [] ==> bytes + buf == bytes;
      written := written + |buf|;
      ok := true;
    }

    /** pb_write with no data, on a sizing stream. */
    method Count(n: nat, ghost buf: Bytes) returns (ok: bool)
      requires Valid() && sizing && n == |buf|
      modifies this
      ensures ok && Effect(ok, old(State()), State(), sizing, maxSize, Some(buf)) && Valid()
    {
      written := written + n;
      ok := true;
    }

    method EncodeVarint(value: nat) returns (ok: bool)
      requires Valid()
      modifies this
      ensures Effect(ok, old(State()), State(), sizing, maxSize, Some(Coding.EncodeVarint(value))) && (ok ==> Valid())
    {
      if value <= 0x7F {
        ok := Write([value]);
        return;
      }
      var buffer := VarintBuffer(value);
      ok := Write(buffer);
    }

    method EncodeTag(wireType: nat, f: Field) returns (ok: bool)
      requires Valid() && wireType < 8
      modifies this
      ensures Effect(ok, old(State()), State(), sizing, maxSize, Some(TagBytes(f, wireType))) && (ok ==> Valid())
    {
      ok := EncodeVarint(f.tag * 8 + wireType);
    }

    method EncodeString(b: Bytes) returns (ok: bool)
      requires Valid()
      modifies this
      ensures Effect(ok, old(State()), State(), sizing, maxSize, Some(Prefixed(b))) && (ok ==> Valid())
    {
      hide Coding.EncodeVarint;
      ghost var s0, x, y := State(), Some(Coding.EncodeVarint(|b|)), Some(b);
      ok := EncodeVarint(|b|);
      if !ok {
        EffectFails(s0, s0, State(), sizing, maxSize, x, y);
        return;
      }
      ghost var s1 := State();
      ok := Write(b);
      EffectThen(s0, s1, State(), ok, sizing, maxSize, x, y);
    }

    /** The scalar encoders. */
    method EncodeScalar(f: Field, v: Value) returns (ok: bool)
      requires Valid() && HasType(f, v) && Packable(f.ltype)
      modifies this
      ensures Effect(ok, old(State()), State(), sizing, maxSize, EncodeValue(f, v)) && (ok ==> Valid())
    {
      hide Coding.EncodeVarint, EncodeFixed32, EncodeFixed64, Zigzag, ToUnsigned, Effect;
      if f.ltype.Bool? {
        ok := EncodeVarint(if v.n != 0 then 1 else 0);
      } else if f.ltype.Fixed32? {
        ok := Write(EncodeFixed32(v.n));
      } else if f.ltype.Fixed64? {
        ok := Write(EncodeFixed64(v.n));
      } else if !IntSize(f.dataSize) {
        NoOutput(State(), sizing, maxSize);
        ok := false;
      } else {
        ok := EncodeVarint(if f.ltype.Varint? then ToUnsigned(v.n) else if f.ltype.UVarint? then v.n else Zigzag(v.n));
      }
    }

    /** The encoder that PB_ENCODERS has for the type. */
    method EncodeAny(f: Field, v: Value) returns (ok: bool)
      requires Valid() && HasType(f, v)
      modifies this
      ensures Effect(ok, old(State()), State(), sizing, maxSize, EncodeValue(f, v)) && (ok ==> Valid())
      decreases f, 0
    {
      hide Effect;
      if f.ltype.Submessage? {
        ok := EncodeSubmessage(f.sub, v.cells);
      } else if Packable(f.ltype) {
        ok := EncodeScalar(f, v);
      } else if f.ltype.String? {
        var size := StringLength(v.b, f.dataSize);
        ok := EncodeString(v.b[..size]);
      } else if f.ltype.ByteArray? && |v.b| + BYTES_OFFSET > f.dataSize {
        NoOutput(State(), sizing, maxSize);
        ok := false;
      } else {
        ok := EncodeString(v.b);
      }
    }

    /** pb_encode_submessage: sized first, then written through a substream of just that size. */
    method EncodeSubmessage(fs: seq<Field>, cells: seq<Cell>) returns (ok: bool)
      requires Valid() && Matches(fs, cells)
      modifies this
      ensures Effect(ok, old(State()), State(), sizing, maxSize,
                     if Encoded(fs, cells).None? then None else Some(Prefixed(Encoded(fs, cells).value)))
      ensures ok ==> Valid()
      decreases fs, 7
    {
      hide Coding.EncodeVarint, Matches, EncodeFrom;
      ghost var s0, enc := State(), Encoded(fs, cells);
      var substream := new OStream(true, 0, []);
      ok := substream.Encode(fs, cells);
      if !ok {
        return;
      }
      var size := substream.written;
      assert size == |enc.value|;
      ghost var x := Some(Coding.EncodeVarint(size));
      ok := EncodeVarint(size);
      if !ok {
        EffectFails(s0, s0, State(), sizing, maxSize, x, enc);
        return;
      }
      ghost var s1 := State();
      if sizing {
        ok := Count(size, enc.value);
      } else if written + size > maxSize {
        ok := false;
      } else {
        substream := new OStream(false, size, bytes);
        ok := substream.Encode(fs, cells);
        written := written + substream.written;
        bytes := substream.bytes;
        // "submsg size changed" does not happen
        assert ok && substream.written == size;
      }
      EffectThen(s0, s1, State(), ok, sizing, maxSize, x, enc);
    }

    /** The first pass over a packed array: how long it is going to be. */
    method SizeOfItems(f: Field, items: seq<Value>) returns (size: Option<nat>)
      requires Packable(f.ltype) && forall v :: v in items ==> HasType(f, v)
      ensures size.Some? <==> EncodeItems(f, items).Some?
      ensures size.Some? ==> size.value == |EncodeItems(f, items).value|
      decreases f, 2
    {
      hide EncodeNum, HasType, EncodeValue;
      FixedItems(f, items);
      if f.ltype.Fixed32? {
        return Some(4 * |items|);
      } else if f.ltype.Fixed64? {
        return Some(8 * |items|);
      }
      var stream := new OStream(true, 0, []);
      var ok := stream.WriteItems(f, items);
      size := if ok then Some(stream.written) else None;
    }

    method WriteItems(f: Field, items: seq<Value>) returns (ok: bool)
      requires Valid() && forall v :: v in items ==> HasType(f, v)
      modifies this
      ensures Effect(ok, old(State()), State(), sizing, maxSize, EncodeItems(f, items)) && (ok ==> Valid())
      decreases f, 1
    {
      hide HasType, EncodeValue, EncodeItems, Effect;
      ghost var s0: Output, done: Option<Bytes> := State(), Some([]);
      NothingYet(s0, sizing, maxSize, EncodeItems(f, items));
      NoItems(f);
      for i := 0 to |items|
        invariant Valid() && Effect(true, s0, State(), sizing, maxSize, done)
        invariant Then(done, EncodeItems(f, items[i..])) == EncodeItems(f, items)
      {
        FirstItem(f, items, i);
        ghost var s1, x := State(), EncodeValue(f, items[i]);
        ok := EncodeAny(f, items[i]);
        ThenAssoc(done, x, EncodeItems(f, items[i + 1..]));
        if !ok {
          ThenFails(s0, s1, State(), sizing, maxSize, done, x, EncodeItems(f, items[i + 1..]));
          return;
        }
        EffectThen(s0, s1, State(), ok, sizing, maxSize, done, x);
        done := Then(done, x);
      }
      ThenAssoc(done, done, done);
      ok := true;
    }

    method EncodeRecord(f: Field, v: Value) returns (ok: bool)
      requires Valid() && HasType(f, v)
      modifies this
      ensures Effect(ok, old(State()), State(), sizing, maxSize, PbEncoding.EncodeRecord(f, v)) && (ok ==> Valid())
      decreases f, 1
    {
      hide HasType, EncodeValue, TagBytes, Effect;
      ghost var s0, x, y := State(), Some(TagBytes(f, WireType(f.ltype))), EncodeValue(f, v);
      ok := EncodeTag(WireType(f.ltype), f);
      if !ok {
        EffectFails(s0, s0, State(), sizing, maxSize, x, y);
        return;
      }
      ghost var s1 := State();
      ok := EncodeAny(f, v);
      EffectThen(s0, s1, State(), ok, sizing, maxSize, x, y);
    }

    method WriteRecords(f: Field, items: seq<Value>) returns (ok: bool)
      requires Valid() && forall v :: v in items ==> HasType(f, v)
      modifies this
      ensures Effect(ok, old(State()), State(), sizing, maxSize, EncodeRecords(f, items)) && (ok ==> Valid())
      decreases f, 2
    {
      hide HasType, PbEncoding.EncodeRecord, EncodeRecords, Effect;
      ghost var s0: Output, done: Option<Bytes> := State(), Some([]);
      NothingYet(s0, sizing, maxSize, EncodeRecords(f, items));
      NoRecords(f);
      for i := 0 to |items|
        invariant Valid() && Effect(true, s0, State(), sizing, maxSize, done)
        invariant Then(done, EncodeRecords(f, items[i..])) == EncodeRecords(f, items)
      {
        FirstRecord(f, items, i);
        ghost var s1, x := State(), PbEncoding.EncodeRecord(f, items[i]);
        ok := EncodeRecord(f, items[i]);
        ThenAssoc(done, x, EncodeRecords(f, items[i + 1..]));
        if !ok {
          ThenFails(s0, s1, State(), sizing, maxSize, done, x, EncodeRecords(f, items[i + 1..]));
          return;
        }
        EffectThen(s0, s1, State(), ok, sizing, maxSize, done, x);
        done := Then(done, x);
      }
      ThenAssoc(done, done, done);
      ok := true;
    }

    /** encode_array */
    method EncodeArray(f: Field, items: seq<Value>) returns (ok: bool)
      requires Valid() && forall v :: v in items ==> HasType(f, v)
      modifies this
      ensures Effect(ok, old(State()), State(), sizing, maxSize, PbEncoding.EncodeArray(f, items)) && (ok ==> Valid())
      decreases f, 4
    {
      hide HasType, EncodeItems, EncodeRecords, Effect;
      if items == [] {
        NothingYet(State(), sizing, maxSize, None);
        return true;
      }
      if |items| > f.arraySize {
        NoOutput(State(), sizing, maxSize);
        return false;
      }
      if Packable(f.ltype) {
        ok := EncodePacked(f, items);
      } else {
        ok := WriteRecords(f, items);
      }
    }

    method EncodePacked(f: Field, items: seq<Value>) returns (ok: bool)
      requires Valid() && items != [] && |items| <= f.arraySize && Packable(f.ltype)
      requires forall v :: v in items ==> HasType(f, v)
      modifies this
      ensures Effect(ok, old(State()), State(), sizing, maxSize, PbEncoding.EncodeArray(f, items)) && (ok ==> Valid())
      decreases f, 3
    {
      hide HasType, EncodeItems, TagBytes, Effect, Coding.EncodeVarint;
      ghost var s0, enc, x := State(), EncodeItems(f, items), Some(TagBytes(f, WT_STRING));
      ok := EncodeTag(WT_STRING, f);
      if !ok {
        EffectFails(s0, s0, State(), sizing, maxSize, x, if enc.None? then None else Some(Prefixed(enc.value)));
        return;
      }
      ghost var s1 := State();
      var size := SizeOfItems(f, items);
      if size.None? {
        NoOutput(s0, sizing, maxSize);
        return false;
      }
      ghost var y := Some(Coding.EncodeVarint(size.value));
      assert Then(y, enc) == Some(Prefixed(enc.value));
      ok := EncodeVarint(size.value);
      if !ok {
        EffectFails(s1, s1, State(), sizing, maxSize, y, enc);
        EffectThen(s0, s1, State(), ok, sizing, maxSize, x, Then(y, enc));
        return;
      }
      ghost var s2 := State();
      if sizing {
        ok := Count(size.value, enc.value);
      } else {
        ok := WriteItems(f, items);
      }
      EffectThen(s1, s2, State(), ok, sizing, maxSize, y, enc);
      EffectThen(s0, s1, State(), ok, sizing, maxSize, x, Then(y, enc));
    }

    /** encode_basic_field */
    method EncodeField(f: Field, c: Cell) returns (ok: bool)
      requires Valid() && CellHasType(f, c)
      modifies this
      ensures Effect(ok, old(State()), State(), sizing, maxSize, PbEncoding.EncodeField(f, c)) && (ok ==> Valid())
      decreases f, 5
    {
      hide HasType, PbEncoding.EncodeArray, PbEncoding.EncodeRecord, Effect, IsDefault;
      NothingYet(State(), sizing, maxSize, None);
      ok := true;
      match f.htype
      case Required => ok := EncodeRecord(f, c.value);
      case Optional =>
        var has: bool;
        if f.sizeOffset != 0 {
          has := c.has;
        } else {
          var unset := CheckDefault(f, c);
          has := !unset;
        }
        if has {
          ok := EncodeRecord(f, c.value);
        }
      case Repeated => ok := EncodeArray(f, c.items);
      case OneOf =>
        if c.which == f.tag {
          ok := EncodeRecord(f, c.value);
        }
    }

    /** pb_encode */
    method Encode(fs: seq<Field>, cells: seq<Cell>) returns (ok: bool)
      requires Valid() && Matches(fs, cells)
      modifies this
      ensures Effect(ok, old(State()), State(), sizing, maxSize, Encoded(fs, cells)) && (ok ==> Valid())
      decreases fs, 6
    {
      hide Matches, CellHasType, PbEncoding.EncodeField, Effect, EncodeFrom, FieldIter.Valid, Home;
      ghost var s0: Output, done: Option<Bytes> := State(), Some([]);
      NothingYet(s0, sizing, maxSize, Encoded(fs, cells));
      NoFields(fs, cells);
      var iter := new FieldIter(fs);
      var more := iter.Begin();
      if !more {
        return true;
      }
      ghost var i := 0;
      while more
        invariant iter.Valid() && iter.fields == fs && fs != [] && fresh(iter)
        invariant i <= |fs| && if more then i == iter.pos < |fs| else i == |fs|
        invariant Valid() && Effect(true, s0, State(), sizing, maxSize, done)
        invariant Then(done, EncodeFrom(fs, cells, i)) == Encoded(fs, cells)
        decreases |fs| - i
      {
        FirstField(fs, cells, i);
        var f, c := fs[iter.pos], cells[Home(fs, iter.pos)];
        ghost var s1, x := State(), PbEncoding.EncodeField(f, c);
        ok := EncodeField(f, c);
        ThenAssoc(done, x, EncodeFrom(fs, cells, i + 1));
        if !ok {
          ThenFails(s0, s1, State(), sizing, maxSize, done, x, EncodeFrom(fs, cells, i + 1));
          return;
        }
        EffectThen(s0, s1, State(), ok, sizing, maxSize, done, x);
        done := Then(done, x);
        more := iter.Next();
        i := i + 1;
      }
      ThenAssoc(done, done, done);
      ok := true;
    }
  }

  /** pb_get_encoded_size */
  method GetEncodedSize(fs: seq<Field>, cells: seq<Cell>) returns (size: Option<nat>)
    requires Matches(fs, cells)
    ensures size == if Encoded(fs, cells).Some? then Some(|Encoded(fs, cells).value|) else None
  {
    var stream := new OStream(true, 0, []);
    var ok := stream.Encode(fs, cells);
    size := if ok then Some(stream.written) else None;
  }

  /** The loop of pb_encode_varint, for a value of more than seven bits. */
  method VarintBuffer(value: nat) returns (buffer: Bytes)
    requires value > 0
    ensures buffer == Coding.EncodeVarint(value)
  {
    buffer := [];
    var left: nat := value;
    ghost var before: Bytes, last: nat := [], value;
    while left > 0
      invariant left > 0 ==> buffer + Coding.EncodeVarint(left) == Coding.EncodeVarint(value)
      invariant left == 0 ==> last < 128 && buffer == before + [last + 128]
                              && before + [last] == Coding.EncodeVarint(value)
    {
      before, last := buffer, left;
      assert buffer + ([left % 128 + 128] + Coding.EncodeVarint(left / 128))
          == (buffer + [left % 128 + 128]) + Coding.EncodeVarint(left / 128);
      buffer := buffer + [left % 128 + 128];
      left := left / 128;
    }
    buffer := buffer[..|buffer| - 1] + [buffer[|buffer| - 1] - 128];
  }

  /** The loop of pb_enc_string: b is what the array holds before the NUL that the decoder puts there. */
  method StringLength(b: Bytes, maxSize: nat) returns (size: nat)
    requires |b| <= maxSize
    ensures size <= |b| && b[..size] == UpToNul(b)
  {
    hide UpToNul;
    size := 0;
    assert b[0..] == b && b[..0] + UpToNul(b) == UpToNul(b);
    while size < maxSize && size < |b| && b[size] != 0
      invariant size <= |b| && UpToNul(b) == b[..size] + UpToNul(b[size..])
    {
      OneMoreChar(b, size);
      size := size + 1;
    }
    EndOfString(b[size..]);
    assert b[..size] + [] == b[..size];
  }

  lemma EndOfString(b: Bytes)
    requires b == [] || b[0] == 0
    ensures UpToNul(b) == []
  {
  }

  lemma OneMoreChar(b: Bytes, size: nat)
    requires size < |b| && b[size] != 0
    ensures b[..size] + UpToNul(b[size..]) == b[..size + 1] + UpToNul(b[size + 1..])
  {
    assert b[size..][1..] == b[size + 1..];
    var tail := UpToNul(b[size + 1..]);
    assert UpToNul(b[size..]) == [b[size]] + tail;
    assert b[..size] + ([b[size]] + tail) == (b[..size] + [b[size]]) + tail;
    assert b[..size + 1] == b[..size] + [b[size]];
  }

  /** pb_check_proto3_default_value */
  method CheckDefault(f: Field, c: Cell) returns (unset: bool)
    requires CellHasType(f, c)
    ensures unset == IsDefault(f, c)
    decreases f
  {
    match f.htype
    case Required => unset := false;
    case Repeated => unset := c.items == [];
    case OneOf => unset := c.which == 0;
    case Optional =>
      if f.sizeOffset != 0 {
        unset := !c.has;
      } else if f.ltype.Submessage? {
        unset := CheckAllDefault(f.sub, c.value.cells);
      } else {
        var v := c.value;
        unset := if Packable(f.ltype) then v.n == 0
                 else if f.ltype.String? then |v.b| == 0 || v.b[0] == 0
                 else if f.ltype.ByteArray? then |v.b| == 0
                 else f.dataSize == 0;
      }
  }

  method CheckAllDefault(fs: seq<Field>, cells: seq<Cell>) returns (unset: bool)
    requires Matches(fs, cells)
    ensures unset == AllDefault(fs, cells, 0)
    decreases fs
  {
    hide Matches, IsDefault, CellHasType, AllDefault, FieldIter.Valid, Home;
    NoMoreDefaults(fs, cells);
    var iter := new FieldIter(fs);
    var more := iter.Begin();
    ghost var i := 0;
    while more
      invariant iter.Valid() && iter.fields == fs && fresh(iter)
      invariant i <= |fs| && if more then i == iter.pos < |fs| else i == |fs|
      invariant AllDefault(fs, cells, i) == AllDefault(fs, cells, 0)
      decreases |fs| - i
    {
      FirstDefault(fs, cells, i);
      unset := CheckDefault(fs[iter.pos], cells[Home(fs, iter.pos)]);
      if !unset {
        return;
      }
      more := iter.Next();
      i := i + 1;
    }
    unset := true;
  }

  lemma NoMoreDefaults(fs: seq<Field>, cells: seq<Cell>)
    requires Matches(fs, cells)
    ensures AllDefault(fs, cells, |fs|)
  {
  }

  lemma FirstDefault(fs: seq<Field>, cells: seq<Cell>, i: nat)
    requires Matches(fs, cells) && i < |fs|
    ensures |cells| == |fs| && CellHasType(fs[i], cells[Home(fs, i)])
    ensures AllDefault(fs, cells, i) == (IsDefault(fs[i], cells[Home(fs, i)]) && AllDefault(fs, cells, i + 1))
  {
  }

  // ---- one step of the loops ------------------------------------------------------------------------------

  lemma NoOutput(s: Output, sizing: bool, maxSize: nat)
    ensures forall s': Output :: Effect(false, s, s', sizing, maxSize, None)
  {
  }

  lemma NothingYet(s: Output, sizing: bool, maxSize: nat, all: Option<Bytes>)
    requires sizing || s.written <= maxSize
    ensures Effect(true, s, s, sizing, maxSize, Some([])) && Then(Some([]), all) == all
  {
    assert s.bytes + [] == s.bytes;
    ThenAssoc(all, all, all);
  }

  lemma ThenFails(s0: Output, s1: Output, s2: Output, sizing: bool, maxSize: nat, done: Option<Bytes>,
                  x: Option<Bytes>, rest: Option<Bytes>)
    requires Effect(true, s0, s1, sizing, maxSize, done) && Effect(false, s1, s2, sizing, maxSize, x)
    ensures Effect(false, s0, s2, sizing, maxSize, Then(done, Then(x, rest)))
  {
  }

  lemma NoItems(f: Field)
    ensures EncodeItems(f, []) == Some([])
  {
  }

  lemma FirstItem(f: Field, items: seq<Value>, i: nat)
    requires i < |items| && forall v :: v in items ==> HasType(f, v)
    ensures forall v :: v in items[i..] ==> HasType(f, v)
    ensures EncodeItems(f, items[i..]) == Then(EncodeValue(f, items[i]), EncodeItems(f, items[i + 1..]))
  {
    assert items[i..][1..] == items[i + 1..];
  }

  lemma NoRecords(f: Field)
    ensures EncodeRecords(f, []) == Some([])
  {
  }

  lemma FirstRecord(f: Field, items: seq<Value>, i: nat)
    requires i < |items| && forall v :: v in items ==> HasType(f, v)
    ensures EncodeRecords(f, items[i..]) == Then(EncodeRecord(f, items[i]), EncodeRecords(f, items[i + 1..]))
  {
    assert items[i..][1..] == items[i + 1..];
  }

  lemma NoFields(fs: seq<Field>, cells: seq<Cell>)
    requires Matches(fs, cells)
    ensures EncodeFrom(fs, cells, |fs|) == Some([])
  {
  }

  lemma FirstField(fs: seq<Field>, cells: seq<Cell>, i: nat)
    requires Matches(fs, cells) && i < |fs|
    ensures |cells| == |fs| && CellHasType(fs[i], cells[Home(fs, i)])
    ensures EncodeFrom(fs, cells, i) == Then(EncodeField(fs[i], cells[Home(fs, i)]), EncodeFrom(fs, cells, i + 1))
  {
  }

  lemma {:induction false} FixedItems(f: Field, items: seq<Value>)
    requires forall v :: v in items ==> HasType(f, v)
    ensures f.ltype.Fixed32? ==> EncodeItems(f, items).Some? && |EncodeItems(f, items).value| == 4 * |items|
    ensures f.ltype.Fixed64? ==> EncodeItems(f, items).Some? && |EncodeItems(f, items).value| == 8 * |items|
  {
    if items != [] {
      FixedItems(f, items[1..]);
    }
  }
}
