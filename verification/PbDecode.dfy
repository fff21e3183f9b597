/** What pb_decode makes of any sequence of bytes (pb_decode.c). */
module PbDecoding {
  import opened InternalKeys
  import opened Coding
  import opened PbFields
  import opened PbWire
  import opened PbEncoding

  // ---- descriptors and structures within bounds ---------------------------------------------------------

  /** Descriptors as the generator makes them, for fields that have a count if they are repeated. */
  ghost predicate FieldOk(f: Field)
    decreases f, 0
  {
    && 0 < f.tag < 0x2000_0000 && f.dataSize <= PB_SIZE_MAX && f.arraySize <= PB_SIZE_MAX
    && (f.htype.Repeated? || f.htype.OneOf? ==> f.sizeOffset != 0)
    && (f.ltype.Varint? || f.ltype.UVarint? || f.ltype.SVarint? ==> IntSize(f.dataSize))
    && (f.ltype.ByteArray? ==> f.dataSize >= BYTES_OFFSET) && (f.ltype.String? ==> f.dataSize > 0)
    && WellFormed(f.sub)
    && (f.initial.Some? ==> !f.ltype.Submessage? && ValueOk(f, f.initial.value))
    // without a has_ member, unset means zero
    && (f.initial.Some? ==> !(f.htype.Optional? && f.sizeOffset == 0))
  }

  ghost predicate WellFormed(fs: seq<Field>)
    decreases fs, 1
  {
    DistinctTags(fs) && forall i :: 0 <= i < |fs| ==> FieldOk(fs[i])
  }

  /** A value that keeps within the memory of its field. */
  ghost predicate ValueOk(f: Field, v: Value)
    decreases f, 0
  {
    && HasType(f, v)
    && (f.ltype.Submessage? ==> Sound(f.sub, v.cells))
    && (f.ltype.ByteArray? ==> |v.b| + BYTES_OFFSET <= f.dataSize)
    && (f.ltype.String? ==> |v.b| < f.dataSize)
  }

  ghost predicate CellOk(f: Field, c: Cell)
    decreases f, 1
  {
    && CellHasType(f, c)
    && match f.htype
       case Required => ValueOk(f, c.value)
       case Optional => ValueOk(f, c.value)
       case Repeated => |c.items| <= f.arraySize && forall v :: v in c.items ==> ValueOk(f, v)
       case OneOf => c.which == f.tag ==> ValueOk(f, c.value)
  }

  ghost predicate Sound(fs: seq<Field>, cells: seq<Cell>)
    decreases fs, 2
  {
    Matches(fs, cells) && forall i :: 0 <= i < |fs| ==> CellOk(fs[i], cells[Home(fs, i)])
  }

  lemma SoundField(fs: seq<Field>, cells: seq<Cell>, i: nat)
    requires WellFormed(fs) && Sound(fs, cells) && i < |fs|
    ensures |cells| == |fs| && FieldOk(fs[i]) && CellOk(fs[i], cells[Home(fs, i)])
  {
    hide FieldOk, CellOk, CellHasType, DistinctTags;
  }

  // ---- defaults -------------------------------------------------------------------------------------------

  function InitialValue(f: Field): (v: Value)
    requires FieldOk(f)
    ensures ValueOk(f, v)
    decreases f, 0
  {
    if f.ltype.Submessage? then Message(Defaults(f.sub))
    else if f.initial.Some? then f.initial.value
    else if Packable(f.ltype) then Num(0)
    else if f.ltype.FixedLengthBytes? then Blob(Zeros(f.dataSize))
    else Blob([])
  }

  /** pb_field_set_to_default.  What a union holds while its which_ is 0 is never looked at. */
  function InitialCell(f: Field): (c: Cell)
    requires FieldOk(f)
    ensures CellOk(f, c) && (c.Union? ==> c.which == 0)
    decreases f, 1
  {
    match f.htype
    case Required => Single(InitialValue(f))
    case Optional => if f.sizeOffset == 0 then Single(InitialValue(f)) else Maybe(false, InitialValue(f))
    case Repeated => Many([])
    case OneOf => Union(0, Num(0))
  }

  function DefaultsFrom(fs: seq<Field>, i: nat): (cells: seq<Cell>)
    requires WellFormed(fs) && i <= |fs|
    ensures |cells| == |fs| - i && forall j :: i <= j < |fs| ==> cells[j - i] == InitialCell(fs[j])
    decreases fs, 2, |fs| - i
  {
    hide HasType, CellHasType, ValueOk, CellOk, FieldOk;
    if i == |fs| then [] else [InitialCell(fs[i])] + DefaultsFrom(fs, i + 1)
  }

  /** pb_message_set_to_defaults */
  function Defaults(fs: seq<Field>): (cells: seq<Cell>)
    requires WellFormed(fs)
    ensures |cells| == |fs| && forall j :: 0 <= j < |fs| ==> cells[j] == InitialCell(fs[j])
    ensures Sound(fs, cells)
    decreases fs, 3
  {
    hide HasType, CellHasType, ValueOk, FieldOk;
    DefaultsFrom(fs, 0)
  }

  // ---- decoding -------------------------------------------------------------------------------------------

  datatype Taken<T> = Taken(value: T, rest: Bytes)

  /** pb_make_string_substream: a length, and that many bytes. */
  function Substream(b: Bytes): (r: Option<Taken<Bytes>>)
    ensures r.Some? ==> |r.value.value| + |r.value.rest| < |b| && |r.value.value| <= PB_SIZE_MAX
  {
    match DecodeVarint32(b)
    case None => None
    case Some(p) =>
      var rest := b[p.size..];
      if |rest| < p.value then None else Some(Taken(rest[..p.value], rest[p.value..]))
  }

  function SkipVarint(b: Bytes): (r: Option<Bytes>)
    ensures r.Some? ==> |r.value| < |b|
  {
    if b == [] then None else if b[0] >= 128 then SkipVarint(b[1..]) else Some(b[1..])
  }

  /** pb_skip_field */
  function Skip(wireType: nat, b: Bytes): (r: Option<Bytes>)
    ensures r.Some? ==> |r.value| < |b|
  {
    if wireType == 0 then SkipVarint(b)
    else if wireType == 1 then if |b| < 8 then None else Some(b[8..])
    else if wireType == 2 then
      match Substream(b)
      case None => None
      case Some(t) => Some(t.rest)
    else if wireType == 5 then if |b| < 4 then None else Some(b[4..])
    else None
  }

  /** Bytes and strings, which must fit. */
  function DecodeBlob(f: Field, b: Bytes): (r: Option<Taken<Value>>)
    requires FieldOk(f) && !Packable(f.ltype) && !f.ltype.Submessage?
    ensures r.Some? ==> ValueOk(f, r.value.value) && |r.value.rest| < |b|
  {
    match DecodeVarint32(b)
    case None => None
    case Some(p) =>
      var rest := b[p.size..];
      if f.ltype.FixedLengthBytes? && p.value == 0 then Some(Taken(Blob(Zeros(f.dataSize)), rest))
      else if f.ltype.FixedLengthBytes? && p.value != f.dataSize then None
      else if f.ltype.ByteArray? && p.value + BYTES_OFFSET > f.dataSize then None
      else if f.ltype.String? && p.value + 1 > f.dataSize then None
      else if |rest| < p.value then None
      else Some(Taken(Blob(rest[..p.value]), rest[p.value..]))
  }

  /** The decoder that PB_DECODERS has for the type; a submessage is decoded on top of `start`. */
  function DecodeValue(f: Field, start: seq<Cell>, b: Bytes): (r: Option<Taken<Value>>)
    requires FieldOk(f) && (f.ltype.Submessage? ==> Sound(f.sub, start))
    ensures r.Some? ==> ValueOk(f, r.value.value) && |r.value.rest| < |b|
    decreases |b|, 1
  {
    if f.ltype.Submessage? then
      match Substream(b)
      case None => None
      case Some(t) =>
        match DecodeFields(f.sub, start, {}, t.value)
        case None => None
        case Some(m) => Some(Taken(Message(m.value), t.rest))
    else if Packable(f.ltype) then
      match DecodeNum(f.ltype, f.dataSize, b)
      case None => None
      case Some(n) => Some(Taken(Num(n.n), b[n.size..]))
    else DecodeBlob(f, b)
  }

  /** A packed array, added to the items there are already. */
  function DecodeItems(f: Field, items: seq<Value>, b: Bytes): (r: Option<seq<Value>>)
    requires FieldOk(f) && Packable(f.ltype) && |items| <= f.arraySize && forall v :: v in items ==> ValueOk(f, v)
    ensures r.Some? ==> |r.value| <= f.arraySize && forall v :: v in r.value ==> ValueOk(f, v)
    decreases |b|
  {
    if b == [] then Some(items)
    else if |items| == f.arraySize then None
    else
      match DecodeNum(f.ltype, f.dataSize, b)
      case None => None
      case Some(n) => DecodeItems(f, items + [Num(n.n)], b[n.size..])
  }

  /** What a submessage of the field is decoded on top of. */
  function StartOf(f: Field, c: Cell): (start: seq<Cell>)
    requires FieldOk(f) && CellOk(f, c)
    ensures f.ltype.Submessage? ==> Sound(f.sub, start)
  {
    if !f.ltype.Submessage? then []
    else if f.htype.Repeated? || f.htype.OneOf? then Defaults(f.sub)
    else assert ValueOk(f, c.value) && HasType(f, c.value); c.value.cells
  }

  /** decode_static_field */
  function DecodeField(f: Field, wireType: nat, c: Cell, b: Bytes): (r: Option<Taken<Cell>>)
    requires FieldOk(f) && CellOk(f, c)
    ensures r.Some? ==> CellOk(f, r.value.value) && |r.value.rest| < |b|
    ensures r.Some? && f.htype.OneOf? ==> r.value.value.which == f.tag
    decreases |b|, 2
  {
    if f.htype.Repeated? && wireType == WT_STRING && Packable(f.ltype) then
      match Substream(b)
      case None => None
      case Some(t) =>
        match DecodeItems(f, c.items, t.value)
        case None => None
        case Some(items) => Some(Taken(Many(items), t.rest))
    else if f.htype.Repeated? && |c.items| >= f.arraySize then None
    else
      match DecodeValue(f, StartOf(f, c), b)
      case None => None
      case Some(t) => Some(Taken(Filled(f, c, t.value), t.rest))
  }

  /** The cell with a value read into it. */
  function Filled(f: Field, c: Cell, v: Value): (r: Cell)
    requires CellHasType(f, c) && ValueOk(f, v) && (f.htype.Repeated? ==> CellOk(f, c) && |c.items| < f.arraySize)
    requires FieldOk(f)
    ensures CellOk(f, r) && (f.htype.OneOf? ==> r.which == f.tag)
  {
    match f.htype
    case Required => Single(v)
    case Optional => if f.sizeOffset == 0 then Single(v) else Maybe(true, v)
    case Repeated => Many(c.items + [v])
    case OneOf => Union(f.tag, v)
  }

  function Lookup(fs: seq<Field>, tag: nat): (r: Option<nat>)
    ensures Finds(fs, tag, r)
  {
    LookupIn(fs, tag, |fs|)
  }

  function LookupIn(fs: seq<Field>, tag: nat, n: nat): (r: Option<nat>)
    requires n <= |fs|
    ensures if r.Some? then r.value < n && fs[r.value].tag == tag else forall i :: 0 <= i < n ==> fs[i].tag != tag
  {
    if n == 0 then None else if fs[n - 1].tag == tag then Some(n - 1) else LookupIn(fs, tag, n - 1)
  }

  /** fields_seen, with the bit of field i set if it is required and there is a bit for it. */
  function Seen(fs: seq<Field>, i: nat, seen: set<nat>): set<nat>
    requires i < |fs|
  {
    var k := RequiredBefore(fs, i);
    if fs[i].htype.Required? && k < MAX_REQUIRED_FIELDS then seen + {k} else seen
  }

  /** How many required fields are tracked. */
  function Tracked(fs: seq<Field>): nat {
    var n := RequiredBefore(fs, |fs|);
    if n > MAX_REQUIRED_FIELDS then MAX_REQUIRED_FIELDS else n
  }

  predicate AllSeen(fs: seq<Field>, seen: set<nat>) {
    forall k: nat :: k < Tracked(fs) ==> k in seen
  }

  function Finish(fs: seq<Field>, cells: seq<Cell>, seen: set<nat>, rest: Bytes): Option<Taken<seq<Cell>>> {
    if AllSeen(fs, seen) then Some(Taken(cells, rest)) else None
  }

  /** The loop of pb_decode_noinit: a tag of 0 ends the message; fields that are not in the descriptor are
    * skipped.
    */
  function DecodeFields(fs: seq<Field>, cells: seq<Cell>, seen: set<nat>, b: Bytes): (r: Option<Taken<seq<Cell>>>)
    requires WellFormed(fs) && Sound(fs, cells)
    ensures r.Some? ==> Sound(fs, r.value.value)
    decreases |b|, 3
  {
    if b == [] then Finish(fs, cells, seen, [])
    else
      match DecodeVarint32(b)
      case None => None
      case Some(p) =>
        var rest := b[p.size..];
        if p.value == 0 then Finish(fs, cells, seen, rest)
        else
          match Lookup(fs, p.value / 8)
          case Some(i) =>
            (match DecodeField(fs[i], p.value % 8, cells[Home(fs, i)], rest)
             case None => None
             case Some(t) =>
               PutKeepsSound(fs, cells, i, t.value);
               DecodeFields(fs, cells[Home(fs, i) := t.value], Seen(fs, i, seen), t.rest))
          case None =>
            var after := if fs == [] && p.value / 8 == 0 then SkipBool(rest) else Skip(p.value % 8, rest);
            match after
            case None => None
            case Some(rest') => DecodeFields(fs, cells, seen, rest')
  }

  /** In an empty descriptor, field number 0 finds the terminating entry, which reads as a required bool. */
  function SkipBool(b: Bytes): (r: Option<Bytes>)
    ensures r.Some? ==> |r.value| < |b|
  {
    match DecodeVarint32(b)
    case None => None
    case Some(p) => Some(b[p.size..])
  }

  lemma PutKeepsSound(fs: seq<Field>, cells: seq<Cell>, i: nat, c: Cell)
    requires WellFormed(fs) && Sound(fs, cells) && i < |fs| && CellOk(fs[i], c)
    requires fs[i].htype.OneOf? ==> c.which == fs[i].tag
    ensures Sound(fs, cells[Home(fs, i) := c])
  {
    var cells' := cells[Home(fs, i) := c];
    forall j | 0 <= j < |fs| ensures CellHasType(fs[j], cells'[Home(fs, j)]) && CellOk(fs[j], cells'[Home(fs, j)]) {
      if j != i && Home(fs, j) == Home(fs, i) {
        assert fs[j].tag != fs[i].tag;
      }
    }
  }

  function DecodeNoInit(fs: seq<Field>, cells: seq<Cell>, b: Bytes): (r: Option<Taken<seq<Cell>>>)
    requires WellFormed(fs) && Sound(fs, cells)
    ensures r.Some? ==> Sound(fs, r.value.value)
  {
    DecodeFields(fs, cells, {}, b)
  }

  /** pb_decode */
  function Decode(fs: seq<Field>, b: Bytes): (r: Option<Taken<seq<Cell>>>)
    requires WellFormed(fs)
    ensures r.Some? ==> Sound(fs, r.value.value)
  {
    DecodeNoInit(fs, Defaults(fs), b)
  }
}
