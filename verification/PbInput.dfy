/** pb_istream_t over a buffer, and the decoder that reads from it (pb_decode.c). */
module PbInput {
  import opened InternalKeys
  import opened Coding
  import opened PbFields
  import opened PbWire
  import opened PbEncoding
  import opened PbDecoding

  /** A varint some bytes further on. */
  function Later(k: nat, r: Option<Parsed>): Option<Parsed> {
    match r
    case None => None
    case Some(p) => Some(Parsed(p.value, p.size + k))
  }

  class IStream {
    const buf: Bytes
    var pos: nat
    var left: nat

    ghost predicate Valid()
      reads this
    {
      pos + left <= |buf|
    }

    /** What is left to read. */
    ghost function Left(): Bytes
      requires Valid()
      reads this
    {
      buf[pos..pos + left]
    }

    /** pb_istream_from_buffer, or a substream: some of the bytes of a buffer. */
    constructor (buf: Bytes, pos: nat, left: nat)
      requires pos + left <= |buf|
      ensures Valid() && this.buf == buf && this.pos == pos && this.left == left
    {
      this.buf, this.pos, this.left := buf, pos, left;
    }

    /** pb_read; the bytes may be read just to skip them. */
    method Read(count: nat) returns (r: Option<Bytes>)
      requires Valid()
      modifies this
      ensures Valid() && r.Some? == (count <= |old(Left())|)
      ensures r.Some? ==> r.value == old(Left())[..count] && Left() == old(Left())[count..]
      ensures pos + left == old(pos + left)
    {
      if count == 0 {
        return Some([]);
      }
      if left < count {
        return None;
      }
      r := Some(buf[pos..pos + count]);
      pos := pos + count;
      left := left - count;
    }

    method ReadByte() returns (r: Option<Byte>)
      requires Valid()
      modifies this
      ensures Valid() && r.Some? == (old(Left()) != [])
      ensures r.Some? ==> r.value == old(Left())[0] && Left() == old(Left())[1..]
      ensures pos + left == old(pos + left)
    {
      if left == 0 {
        return None;
      }
      r := Some(buf[pos]);
      pos := pos + 1;
      left := left - 1;
    }

    /** pb_decode_varint32_eof; the first byte is tried on its own. */
    method DecodeVarint32() returns (r: Option<nat>)
      requires Valid()
      modifies this
      ensures Valid() && Took(old(Left()), PbWire.DecodeVarint32(old(Left())), Left(), r)
      ensures pos + left == old(pos + left)
    {
      hide Varint32From, Varint32Result, PbWire.DecodeVarint32, Later;
      ghost var b := Left();
      NoBytesYet(b);
      var byte := ReadByte();
      if byte.None? {
        return None;
      }
      Varint32Step(b, 0, 0);
      if byte.value < 128 {
        return Some(byte.value);
      }
      var k: nat, result: Word := 1, byte.value - 128;
      while true
        invariant Valid() && 1 <= k <= |b| && Left() == b[k..] && pos + left == old(pos + left)
        invariant Later(k, Varint32From(b[k..], k, result)) == PbWire.DecodeVarint32(b)
        decreases |b| - k
      {
        byte := ReadByte();
        if byte.None? {
          OutOfBytes(k, result);
          return None;
        }
        Varint32Step(b, k, result);
        assert byte.value == b[k];
        if 7 * k >= 32 {
          var signExtension := if 7 * k < 63 then 0xFF else 0x01;
          if byte.value % 128 != 0 && (result / 0x8000_0000 == 0 || byte.value != signExtension) {
            return None;
          }
        }
        result := Varint32Result(k, result, byte.value % 128);
        k := k + 1;
        if byte.value < 128 {
          break;
        }
      }
      if 7 * k == 35 && byte.value / 16 % 8 != 0 {
        return None;
      }
      r := Some(result);
    }

    /** pb_decode_varint */
    method DecodeVarint() returns (r: Option<nat>)
      requires Valid()
      modifies this
      ensures Valid() && Took(old(Left()), GetVarint64(old(Left())), Left(), r)
      ensures pos + left == old(pos + left)
    {
      hide ParseVarint, Above;
      ghost var b := Left();
      NothingBelow(ParseVarint(b, 10));
      assert b[0..] == b;
      var result: nat, unit: nat, k: nat := 0, 1, 0;
      while true
        invariant Valid() && k <= |b| && Left() == b[k..] && k <= 10 && pos + left == old(pos + left)
        invariant Above(result, unit, k, ParseVarint(b[k..], 10 - k)) == ParseVarint(b, 10)
        decreases 10 - k
      {
        if 7 * k >= 64 {
          NoVarint(b[k..], 10 - k, result, unit, k);
          return None;
        }
        var byte := ReadByte();
        if byte.None? {
          NoVarint(b[k..], 10 - k, result, unit, k);
          return None;
        }
        OneMoreByte(b, k, 10, result, unit);
        assert byte.value == b[k];
        var more, bits: nat := byte.value >= 128, byte.value % 128;
        assert bits == if more then byte.value - 128 else byte.value;
        result := result + bits * unit;
        unit := unit * 128;
        k := k + 1;
        if !more {
          break;
        }
      }
      r := Some(result % TWO_TO_64);
    }

    /** pb_make_string_substream: the bytes of the substream are no longer left in this one, which does not
      * move on before the substream is closed.
      */
    method MakeSubstream() returns (sub: IStream?)
      requires Valid()
      modifies this
      ensures Valid() && (sub != null <==> Substream(old(Left())).Some?)
      ensures sub != null ==>
                && fresh(sub) && sub.Valid() && sub.buf == buf && sub.Left() == Substream(old(Left())).value.value
                && sub.pos == pos && sub.left < old(left)
                && pos + sub.left + left == old(pos + left) <= |buf|
                && buf[pos + sub.left..pos + sub.left + left] == Substream(old(Left())).value.rest
    {
      hide PbWire.DecodeVarint32;
      var size := DecodeVarint32();
      if size.None? || left < size.value {
        return null;
      }
      sub := new IStream(buf, pos, size.value);
      left := left - size.value;
    }

    /** pb_close_string_substream: what the substream has left is skipped. */
    method CloseSubstream(sub: IStream)
      requires sub.Valid() && sub != this && sub.buf == buf && sub.pos + sub.left + left <= |buf|
      modifies this, sub
      ensures Valid() && Left() == buf[old(sub.pos + sub.left)..old(sub.pos + sub.left) + old(left)]
      ensures left == old(left) && pos == old(sub.pos + sub.left)
    {
      if sub.left > 0 {
        var skipped := sub.Skip(sub.left);
      }
      pos := sub.pos;
    }

    /** pb_read with nowhere to put the bytes. */
    method Skip(count: nat) returns (ok: bool)
      requires Valid()
      modifies this
      ensures Valid() && ok == (count <= |old(Left())|)
      ensures ok ==> Left() == old(Left())[count..] && pos == old(pos) + count
      ensures pos + left == old(pos + left)
    {
      if left < count {
        return false;
      }
      pos := pos + count;
      left := left - count;
      ok := true;
    }

    method SkipVarint() returns (ok: bool)
      requires Valid()
      modifies this
      ensures Valid() && Skipped(PbDecoding.SkipVarint(old(Left())), Left(), ok)
      ensures pos + left == old(pos + left)
    {
      ghost var b := Left();
      var more := true;
      while more
        invariant Valid() && pos + left == old(pos + left)
        invariant if more then PbDecoding.SkipVarint(Left()) == PbDecoding.SkipVarint(b)
                  else PbDecoding.SkipVarint(b) == Some(Left())
        decreases left + One(more)
      {
        var byte := ReadByte();
        if byte.None? {
          return false;
        }
        more := byte.value >= 128;
      }
      ok := true;
    }

    /** pb_skip_field */
    method SkipField(wireType: nat) returns (ok: bool)
      requires Valid()
      modifies this
      ensures Valid() && Skipped(PbDecoding.Skip(wireType, old(Left())), Left(), ok)
      ensures pos + left == old(pos + left)
    {
      hide PbWire.DecodeVarint32, PbDecoding.SkipVarint;
      if wireType == 0 {
        ok := SkipVarint();
      } else if wireType == 1 {
        ok := Skip(8);
      } else if wireType == 2 {
        var length := DecodeVarint32();
        if length.None? {
          return false;
        }
        ok := Skip(length.value);
      } else if wireType == 5 {
        ok := Skip(4);
      } else {
        ok := false;
      }
    }

    /** pb_dec_bool to pb_dec_fixed64. */
    method DecodeScalar(f: Field) returns (r: Option<int>)
      requires Valid() && Packable(f.ltype)
      modifies this
      ensures Valid() && (r.Some? <==> DecodeNum(f.ltype, f.dataSize, old(Left())).Some?)
      ensures r.Some? ==> var n := DecodeNum(f.ltype, f.dataSize, old(Left())).value;
                          r.value == n.n && Left() == old(Left())[n.size..]
      ensures pos + left == old(pos + left)
    {
      hide PbWire.DecodeVarint32, GetVarint64, DecodeFixed32, DecodeFixed64, Received, InRange;
      if f.ltype.Bool? {
        var value := DecodeVarint32();
        return if value.None? then None else Some(if value.value != 0 then 1 else 0);
      }
      if f.ltype.Fixed32? {
        var bytes := Read(4);
        return if bytes.None? then None else Some(DecodeFixed32(bytes.value));
      }
      if f.ltype.Fixed64? {
        var bytes := Read(8);
        return if bytes.None? then None else Some(DecodeFixed64(bytes.value));
      }
      var value := DecodeVarint();
      if value.None? {
        return None;
      }
      var n := Received(f.ltype, f.dataSize, value.value);
      r := if IntSize(f.dataSize) && InRange(f.ltype, f.dataSize, n) then Some(n) else None;
    }

    /** pb_dec_bytes, pb_dec_string and pb_dec_fixed_length_bytes. */
    method DecodeBytes(f: Field) returns (r: Option<Value>)
      requires Valid() && FieldOk(f) && !Packable(f.ltype) && !f.ltype.Submessage?
      modifies this
      ensures Valid() && Yields(DecodeBlob(f, old(Left())), Left(), r)
      ensures pos + left == old(pos + left)
    {
      hide PbWire.DecodeVarint32, FieldOk, ValueOk;
      var size := DecodeVarint32();
      if size.None? {
        return None;
      }
      if f.ltype.FixedLengthBytes? && size.value == 0 {
        return Some(Blob(Zeros(f.dataSize)));
      }
      if f.ltype.FixedLengthBytes? && size.value != f.dataSize {
        return None;
      }
      if f.ltype.ByteArray? && size.value + BYTES_OFFSET > f.dataSize {
        return None;
      }
      if f.ltype.String? && size.value + 1 > f.dataSize {
        return None;
      }
      var bytes := Read(size.value);
      r := if bytes.None? then None else Some(Blob(bytes.value));
    }

    /** The decoder that PB_DECODERS has for the type. */
    method DecodeAny(f: Field, start: seq<Cell>) returns (r: Option<Value>)
      requires Valid() && FieldOk(f) && (f.ltype.Submessage? ==> Sound(f.sub, start))
      modifies this
      ensures Valid() && Yields(DecodeValue(f, start, old(Left())), Left(), r)
      ensures r.Some? ==> pos + left == old(pos + left)
      decreases left, 1
    {
      hide Sound, WellFormed, PbDecoding.DecodeFields, DecodeNum, ValueOk, DecodeBlob, Substream;
      if f.ltype.Submessage? {
        var sub := MakeSubstream();
        if sub == null {
          return None;
        }
        ghost var rest := buf[pos + sub.left..pos + sub.left + left];
        var cells := sub.DecodeNoInit(f.sub, start);
        if cells.None? {
          return None;
        }
        CloseSubstream(sub);
        r := Some(Message(cells.value));
      } else if Packable(f.ltype) {
        var n := DecodeScalar(f);
        r := if n.None? then None else Some(Num(n.value));
      } else {
        r := DecodeBytes(f);
      }
    }

    /** The packed array in a substream of its own. */
    method DecodePacked(f: Field, before: seq<Value>) returns (r: Option<seq<Value>>)
      requires Valid() && FieldOk(f) && Packable(f.ltype) && |before| <= f.arraySize
      requires forall v :: v in before ==> ValueOk(f, v)
      modifies this
      ensures Valid() && r == DecodeItems(f, before, old(Left())) && (r.Some? ==> left == 0)
      ensures r.Some? ==> pos == old(pos) + old(left)
    {
      hide FieldOk, Sound, Matches, DecodeNum;
      ghost var b := Left();
      var items := before;
      while left > 0 && |items| < f.arraySize
        invariant Valid() && |items| <= f.arraySize && (forall v :: v in items ==> ValueOk(f, v))
        invariant DecodeItems(f, items, Left()) == DecodeItems(f, before, b)
        invariant pos + left == old(pos) + old(left)
        decreases left
      {
        var n := DecodeScalar(f);
        if n.None? {
          return None;
        }
        items := items + [Num(n.value)];
      }
      r := if left != 0 then None else Some(items);
    }

    /** decode_static_field */
    method DecodeField(f: Field, wireType: nat, c: Cell) returns (r: Option<Cell>)
      requires Valid() && FieldOk(f) && CellOk(f, c)
      modifies this
      ensures Valid() && Yields(PbDecoding.DecodeField(f, wireType, c, old(Left())), Left(), r)
      ensures r.Some? ==> pos + left == old(pos + left)
      decreases left, 2
    {
      hide WellFormed, HasType, ValueOk, DecodeValue, DecodeItems, Substream;
      if f.htype.Repeated? && wireType == WT_STRING && Packable(f.ltype) {
        var sub := MakeSubstream();
        if sub == null {
          return None;
        }
        var items := sub.DecodePacked(f, c.items);
        if items.None? {
          return None;
        }
        CloseSubstream(sub);
        return Some(Many(items.value));
      }
      if f.htype.Repeated? && |c.items| >= f.arraySize {
        return None;
      }
      var start := [];
      if f.ltype.Submessage? {
        if f.htype.Repeated? || f.htype.OneOf? {
          start := SetToDefaults(f.sub);
        } else {
          start := StartOf(f, c);
        }
      }
      var v := DecodeAny(f, start);
      if v.None? {
        return None;
      }
      match f.htype
      case Required => r := Some(Single(v.value));
      case Optional => r := Some(if f.sizeOffset == 0 then Single(v.value) else Maybe(true, v.value));
      case Repeated => r := Some(Many(c.items + [v.value]));
      case OneOf => r := Some(Union(f.tag, v.value));
    }

    /** One round of the loop of pb_decode_noinit; a tag of 0 stops it. */
    method DecodeNext(fs: seq<Field>, cells: seq<Cell>, iter: FieldIter, fieldsSeen: array<bool>, ghost seen: set<nat>)
      returns (next: Option<seq<Cell>>, stop: bool, ghost seen': set<nat>)
      requires Valid() && left > 0 && WellFormed(fs) && Sound(fs, cells) && iter.Valid() && iter.fields == fs
      requires fieldsSeen.Length == MAX_REQUIRED_FIELDS && Marks(fs, fieldsSeen[..], seen)
      modifies this, iter, fieldsSeen
      ensures Valid() && iter.Valid() 
      ensures next.None? ==> DecodeFields(fs, cells, seen, old(Left())) == None
      ensures next.Some? ==>
                && Sound(fs, next.value) && Marks(fs, fieldsSeen[..], seen')
                && left < old(left) && pos + left == old(pos + left)
                && DecodeFields(fs, cells, seen, old(Left()))
                   == if stop then Finish(fs, next.value, seen', Left()) else DecodeFields(fs, next.value, seen', Left())
      decreases left, 3
    {
      hide FieldOk, CellOk, WellFormed, Sound, PbWire.DecodeVarint32, DecodeFields, FieldIter.Valid, RequiredBefore,
        Marks, AllSeen, AfterKey, PbDecoding.DecodeField, PbDecoding.Skip, Seen, Home;
      seen', stop := seen, false;
      DecodeStep(fs, cells, seen, Left());
      var key := DecodeVarint32();
      if key.None? {
        return None, false, seen;
      }
      if key.value == 0 {
        return Some(cells), true, seen;
      }
      ghost var rest := Left();
      var found := iter.Find(key.value / 8);
      if !found || fs == [] {
        UnknownField(fs, cells, seen, key.value, rest);
        var ok := SkipUnknown(key.value % 8, found);
        next := if ok then Some(cells) else None;
      } else {
        var i := iter.pos;
        KnownField(fs, cells, seen, key.value, i, rest);
        MarkSeen(fieldsSeen, iter, seen);
        seen' := Seen(fs, i, seen);
        var c := DecodeField(fs[i], key.value % 8, cells[Home(fs, i)]);
        next := if c.None? then None else Some(cells[Home(fs, i) := c.value]);
      }
    }

    /** pb_decode_noinit */
    method DecodeNoInit(fs: seq<Field>, start: seq<Cell>) returns (r: Option<seq<Cell>>)
      requires Valid() && WellFormed(fs) && Sound(fs, start)
      modifies this
      ensures Valid() && Yields(DecodeFields(fs, start, {}, old(Left())), Left(), r)
      ensures r.Some? ==> pos + left == old(pos + left)
      decreases left, 4
    {
      hide WellFormed, Sound, DecodeFields, FieldIter.Valid, RequiredBefore, Marks, AllSeen;
      var fieldsSeen := new bool[MAX_REQUIRED_FIELDS](_ => false);
      ghost var seen: set<nat> := {};
      NoMarks(fs, fieldsSeen[..]);
      var cells, stop := start, false;
      var iter := new FieldIter(fs);
      ghost var b := Left();
      while left > 0 && !stop
        invariant Valid() && left <= old(left) && pos + left == old(pos + left)
        invariant iter.Valid() && iter.fields == fs && fresh(iter) && fresh(fieldsSeen)
        invariant Sound(fs, cells) && fieldsSeen.Length == MAX_REQUIRED_FIELDS && Marks(fs, fieldsSeen[..], seen)
        invariant DecodeFields(fs, start, {}, b)
               == if stop then Finish(fs, cells, seen, Left()) else DecodeFields(fs, cells, seen, Left())
        decreases left
      {
        var next: Option<seq<Cell>>;
        next, stop, seen := DecodeNext(fs, cells, iter, fieldsSeen, seen);
        if next.None? {
          return None;
        }
        cells := next.value;
      }
      DecodeEnd(fs, cells, seen);
      var count := CountRequired(iter);
      var ok := CheckSeen(fs, fieldsSeen, if count > MAX_REQUIRED_FIELDS then MAX_REQUIRED_FIELDS else count, seen);
      r := if ok then Some(cells) else None;
    }

    /** A field that is not in the descriptor; in an empty one, its terminating entry reads as a required bool,
      * which is kept nowhere.
      */
    method SkipUnknown(wireType: nat, terminator: bool) returns (ok: bool)
      requires Valid()
      modifies this
      ensures Valid() && pos + left == old(pos + left)
      ensures Skipped(if terminator then SkipBool(old(Left())) else PbDecoding.Skip(wireType, old(Left())), Left(), ok)
    {
      hide PbWire.DecodeVarint32, PbDecoding.Skip;
      if terminator {
        var ignored := DecodeVarint32();
        ok := ignored.Some?;
      } else {
        ok := SkipField(wireType);
      }
    }

    /** pb_decode */
    method Decode(fs: seq<Field>) returns (r: Option<seq<Cell>>)
      requires Valid() && WellFormed(fs)
      modifies this
      ensures Valid() && Yields(PbDecoding.Decode(fs, old(Left())), Left(), r)
    {
      hide WellFormed, Sound;
      var cells := SetToDefaults(fs);
      r := DecodeNoInit(fs, cells);
    }
  }

  /** pb_message_set_to_defaults */
  method SetToDefaults(fs: seq<Field>) returns (cells: seq<Cell>)
    requires WellFormed(fs)
    ensures cells == Defaults(fs)
    decreases fs
  {
    hide FieldIter.Valid, Sound, ValueOk;
    var iter := new FieldIter(fs);
    var more := iter.Begin();
    cells := [];
    while more
      invariant iter.Valid() && iter.fields == fs && fresh(iter)
      invariant |cells| <= |fs| && if more then |cells| == iter.pos < |fs| else |cells| == |fs|
      invariant forall j :: 0 <= j < |cells| ==> cells[j] == InitialCell(fs[j])
      decreases |fs| - |cells|
    {
      var c := SetFieldToDefault(fs[iter.pos]);
      cells := cells + [c];
      more := iter.Next();
    }
  }

  /** pb_field_set_to_default */
  method SetFieldToDefault(f: Field) returns (c: Cell)
    requires FieldOk(f)
    ensures c == InitialCell(f)
    decreases f
  {
    hide Sound, ValueOk;
    if f.htype.Repeated? {
      return Many([]);
    }
    if f.htype.OneOf? {
      return Union(0, Num(0));
    }
    var v: Value;
    if f.ltype.Submessage? {
      var cells := SetToDefaults(f.sub);
      v := Message(cells);
    } else if f.initial.Some? {
      v := f.initial.value;
    } else {
      v := if Packable(f.ltype) then Num(0) else if f.ltype.FixedLengthBytes? then Blob(Zeros(f.dataSize)) else Blob([]);
    }
    c := if f.htype.Optional? && f.sizeOffset != 0 then Maybe(false, v) else Single(v);
  }

  // ---- required fields ----------------------------------------------------------------------------------

  /** fields_seen holds one bit for each required field that was read, and no others. */
  ghost predicate Marks(fs: seq<Field>, bits: seq<bool>, seen: set<nat>) {
    && (forall k: nat :: k < |bits| ==> (bits[k] <==> k in seen))
    && (forall k: nat :: k in seen ==> k < |bits| && k < RequiredBefore(fs, |fs|))
  }

  lemma NoMarks(fs: seq<Field>, bits: seq<bool>)
    requires forall k :: 0 <= k < |bits| ==> !bits[k]
    ensures Marks(fs, bits, {})
  {
  }

  lemma MarkOne(fs: seq<Field>, bits: seq<bool>, seen: set<nat>, i: nat)
    requires Marks(fs, bits, seen) && i < |fs| && fs[i].htype.Required? && RequiredBefore(fs, i) < |bits|
    ensures Marks(fs, bits[RequiredBefore(fs, i) := true], seen + {RequiredBefore(fs, i)})
  {
    RequiredBeforeGrows(fs, i, |fs|);
  }

  method MarkSeen(bits: array<bool>, iter: FieldIter, ghost seen: set<nat>)
    requires iter.Valid() && iter.fields != [] && bits.Length == MAX_REQUIRED_FIELDS && Marks(iter.fields, bits[..], seen)
    modifies bits
    ensures Marks(iter.fields, bits[..], Seen(iter.fields, iter.pos, seen))
  {
    hide Marks, RequiredBefore, DataAt, SizeAt;
    if iter.fields[iter.pos].htype.Required? && iter.requiredFieldIndex < MAX_REQUIRED_FIELDS {
      MarkOne(iter.fields, bits[..], seen, iter.pos);
      bits[iter.requiredFieldIndex] := true;
    }
  }

  /** Seeks to the end of the descriptor to count its required fields. */
  method CountRequired(iter: FieldIter) returns (count: nat)
    requires iter.Valid()
    modifies iter
    ensures count == RequiredBefore(iter.fields, |iter.fields|)
  {
    hide DataAt, SizeAt, Home;
    var last: HType := Required;
    var more := true;
    count := 0;
    while more
      invariant iter.Valid()
      invariant !more && iter.fields != [] ==>
                  count == RequiredBefore(iter.fields, |iter.fields| - 1) && last == iter.fields[|iter.fields| - 1].htype
      invariant !more && iter.fields == [] ==> count == 0
      decreases more, |iter.fields| - iter.pos
    {
      count := iter.requiredFieldIndex;
      if iter.fields != [] {
        last := iter.fields[iter.pos].htype;
      }
      more := iter.Next();
    }
    if last.Required? && iter.fields != [] {
      count := count + 1;
    }
  }

  /** Whole words of 32 bits first, then the rest of the last word, where no other bit may be set. */
  method CheckSeen(fs: seq<Field>, bits: array<bool>, count: nat, ghost seen: set<nat>) returns (ok: bool)
    requires bits.Length == MAX_REQUIRED_FIELDS && Marks(fs, bits[..], seen) && count == Tracked(fs)
    ensures ok <==> AllSeen(fs, seen)
  {
    hide RequiredBefore;
    var words := count / 32;
    var i := 0;
    while i < words
      invariant i <= words && forall k: nat :: k < 32 * i ==> bits[k]
    {
      var j := 0;
      while j < 32
        invariant j <= 32 && forall k: nat :: k < 32 * i + j ==> bits[k]
      {
        if !bits[32 * i + j] {
          return false;
        }
        j := j + 1;
      }
      i := i + 1;
    }
    if count % 32 != 0 {
      var j := 0;
      while j < 32
        invariant j <= 32 && forall k: nat :: k < 32 * words + j && k < count ==> bits[k]
      {
        if bits[32 * words + j] != (j < count % 32) {
          return false;
        }
        j := j + 1;
      }
    }
    ok := true;
  }

  // ---- one step of the decoder ----------------------------------------------------------------------------

  lemma DecodeEnd(fs: seq<Field>, cells: seq<Cell>, seen: set<nat>)
    requires WellFormed(fs) && Sound(fs, cells)
    ensures DecodeFields(fs, cells, seen, []) == Finish(fs, cells, seen, [])
  {
  }

  lemma KnownField(fs: seq<Field>, cells: seq<Cell>, seen: set<nat>, key: nat, i: nat, rest: Bytes)
    requires WellFormed(fs) && Sound(fs, cells) && i < |fs| && fs[i].tag == key / 8
    ensures |cells| == |fs| && FieldOk(fs[i]) && CellOk(fs[i], cells[Home(fs, i)])
    ensures match DecodeField(fs[i], key % 8, cells[Home(fs, i)], rest)
            case None => AfterKey(fs, cells, seen, key, rest) == None
            case Some(t) =>
              && Sound(fs, cells[Home(fs, i) := t.value])
              && AfterKey(fs, cells, seen, key, rest)
                 == DecodeFields(fs, cells[Home(fs, i) := t.value], Seen(fs, i, seen), t.rest)
  {
    hide DecodeField, DecodeFields, Seen, FieldOk, CellOk, Lookup, WellFormed, Sound, Home;
    KnownCell(fs, cells, i);
    var r := DecodeField(fs[i], key % 8, cells[Home(fs, i)], rest);
    if r.Some? {
      PutKeepsSound(fs, cells, i, r.value.value);
    }
  }

  lemma KnownCell(fs: seq<Field>, cells: seq<Cell>, i: nat)
    requires WellFormed(fs) && Sound(fs, cells) && i < |fs|
    ensures |cells| == |fs| && FieldOk(fs[i]) && CellOk(fs[i], cells[Home(fs, i)]) && Lookup(fs, fs[i].tag) == Some(i)
  {
    hide WellFormed, Sound, Lookup, FieldOk, CellOk;
    SoundField(fs, cells, i);
    FieldIsFound(fs, i);
  }

  lemma FieldIsFound(fs: seq<Field>, i: nat)
    requires WellFormed(fs) && i < |fs|
    ensures Lookup(fs, fs[i].tag) == Some(i)
  {
    hide FieldOk;
    assert Finds(fs, fs[i].tag, Lookup(fs, fs[i].tag));
  }

  lemma UnknownField(fs: seq<Field>, cells: seq<Cell>, seen: set<nat>, key: nat, rest: Bytes)
    requires WellFormed(fs) && Sound(fs, cells) && forall i :: 0 <= i < |fs| ==> fs[i].tag != key / 8
    ensures match if fs == [] && key / 8 == 0 then SkipBool(rest) else Skip(key % 8, rest)
            case None => AfterKey(fs, cells, seen, key, rest) == None
            case Some(rest') => AfterKey(fs, cells, seen, key, rest) == DecodeFields(fs, cells, seen, rest')
  {
    hide DecodeField, DecodeFields, Skip, SkipBool;
    assert Finds(fs, key / 8, Lookup(fs, key / 8));
  }

  lemma DecodeStep(fs: seq<Field>, cells: seq<Cell>, seen: set<nat>, b: Bytes)
    requires WellFormed(fs) && Sound(fs, cells) && b != []
    ensures var key := DecodeVarint32(b);
            && (key.None? ==> DecodeFields(fs, cells, seen, b) == None)
            && (key.Some? && key.value.value == 0 ==>
                  DecodeFields(fs, cells, seen, b) == Finish(fs, cells, seen, b[key.value.size..]))
            && (key.Some? && key.value.value != 0 ==>
                  DecodeFields(fs, cells, seen, b) == AfterKey(fs, cells, seen, key.value.value, b[key.value.size..]))
  {
  }

  /** One field, and then the others. */
  function AfterKey(fs: seq<Field>, cells: seq<Cell>, seen: set<nat>, key: nat, rest: Bytes): Option<Taken<seq<Cell>>>
    requires WellFormed(fs) && Sound(fs, cells)
  {
    match Lookup(fs, key / 8)
    case Some(i) =>
      (match DecodeField(fs[i], key % 8, cells[Home(fs, i)], rest)
       case None => None
       case Some(t) =>
         PutKeepsSound(fs, cells, i, t.value);
         DecodeFields(fs, cells[Home(fs, i) := t.value], Seen(fs, i, seen), t.rest))
    case None =>
      match if fs == [] && key / 8 == 0 then SkipBool(rest) else Skip(key % 8, rest)
      case None => None
      case Some(rest') => DecodeFields(fs, cells, seen, rest')
  }

  /** What a read of a varint leaves, and what it returns. */
  ghost predicate Took(before: Bytes, parsed: Option<Parsed>, after: Bytes, r: Option<nat>)
    requires parsed.Some? ==> parsed.value.size <= |before|
  {
    match parsed
    case None => r == None
    case Some(p) => r == Some(p.value) && after == before[p.size..]
  }

  lemma NoBytesYet(b: Bytes)
    ensures b[0..] == b && Later(0, Varint32From(b, 0, 0)) == DecodeVarint32(b)
    ensures b == [] ==> DecodeVarint32(b) == None
    ensures forall bits: nat :: bits < 128 ==> Varint32Result(0, 0, bits) == bits
  {
  }

  lemma OutOfBytes(k: nat, result: Word)
    ensures Later(k, Varint32From([], k, result)) == None
  {
  }

  lemma Varint32Step(b: Bytes, k: nat, result: Word)
    requires k < |b|
    ensures b[k..][1..] == b[k + 1..]
    ensures var bits, r := b[k] % 128, Varint32Result(k, result, b[k] % 128);
            Later(k, Varint32From(b[k..], k, result))
            == if k >= 5 && bits != 0 && (result < 0x8000_0000 || b[k] != if k < 9 then 0xFF else 1) then None
               else if b[k] >= 128 then Later(k + 1, Varint32From(b[k + 1..], k + 1, r))
               else if k == 4 && bits >= 16 then None
               else Some(Parsed(r, k + 1))
  {
    hide Varint32Result;
    assert b[k..][1..] == b[k + 1..];
  }

  ghost predicate Skipped(rest: Option<Bytes>, after: Bytes, ok: bool) {
    (ok <==> rest.Some?) && (ok ==> after == rest.value)
  }

  ghost predicate Yields<T(!new)>(t: Option<Taken<T>>, after: Bytes, r: Option<T>) {
    match t
    case None => r == None
    case Some(x) => r == Some(x.value) && after == x.rest
  }
}
