/** pb_encode (pb_encode.c): a structure written field by field, as its descriptor says. */
module PbEncoding {
  import opened InternalKeys
  import opened Coding
  import opened PbFields
  import opened PbWire

  // ---- structures that match their descriptor -----------------------------------------------------------

  ghost predicate HasType(f: Field, v: Value)
    decreases f, 0
  {
    if f.ltype.Submessage? then v.Message? && Matches(f.sub, v.cells)
    else if Packable(f.ltype) then v.Num? && InRange(f.ltype, f.dataSize, v.n)
    else v.Blob? && |v.b| <= PB_SIZE_MAX
         && (f.ltype.String? ==> |v.b| <= f.dataSize) && (f.ltype.FixedLengthBytes? ==> |v.b| == f.dataSize)
  }

  ghost predicate CellHasType(f: Field, c: Cell)
    decreases f, 1
  {
    match f.htype
    case Required => c.Single? && HasType(f, c.value)
    case Optional => (if f.sizeOffset == 0 then c.Single? else c.Maybe?) && HasType(f, c.value)
    case Repeated => c.Many? && forall v :: v in c.items ==> HasType(f, v)
    case OneOf => c.Union? && (c.which == f.tag ==> HasType(f, c.value))
  }

  ghost predicate Matches(fs: seq<Field>, cells: seq<Cell>)
    decreases fs, 2
  {
    |cells| == |fs| && forall i :: 0 <= i < |fs| ==> CellHasType(fs[i], cells[Home(fs, i)])
  }

  // ---- what is written ------------------------------------------------------------------------------------

  function Then(a: Option<Bytes>, b: Option<Bytes>): Option<Bytes> {
    if a.Some? && b.Some? then Some(a.value + b.value) else None
  }

  const WT_STRING: nat := 2

  /** pb_encode_tag_for_field's choice. */
  function WireType(t: LType): (w: nat)
    ensures w < 8
  {
    if t.Fixed32? then 5 else if t.Fixed64? then 1 else if Packable(t) then 0 else WT_STRING
  }

  function TagBytes(f: Field, wireType: nat): Bytes
    requires wireType < 8
  {
    EncodeVarint(f.tag * 8 + wireType)
  }

  function Prefixed(b: Bytes): Bytes {
    EncodeVarint(|b|) + b
  }

  /** A C string ends with the first NUL of its array, if there is one. */
  function UpToNul(b: Bytes): (r: Bytes)
    ensures r <= b
  {
    if b == [] || b[0] == 0 then []
    else assert b == [b[0]] + b[1..]; [b[0]] + UpToNul(b[1..])
  }

  function EncodeValue(f: Field, v: Value): Option<Bytes>
    requires HasType(f, v)
    decreases f, 0
  {
    if f.ltype.Submessage? then
      match EncodeFrom(f.sub, v.cells, 0)
      case None => None
      case Some(b) => Some(Prefixed(b))
    else if Packable(f.ltype) then EncodeNum(f.ltype, f.dataSize, v.n)
    else if f.ltype.String? then Some(Prefixed(UpToNul(v.b)))
    else if f.ltype.ByteArray? && |v.b| + BYTES_OFFSET > f.dataSize then None
    else Some(Prefixed(v.b))
  }

  function EncodeItems(f: Field, items: seq<Value>): Option<Bytes>
    requires forall v :: v in items ==> HasType(f, v)
    decreases f, 1, |items|
  {
    if items == [] then Some([]) else Then(EncodeValue(f, items[0]), EncodeItems(f, items[1..]))
  }

  function EncodeRecord(f: Field, v: Value): Option<Bytes>
    requires HasType(f, v)
    decreases f, 1
  {
    Then(Some(TagBytes(f, WireType(f.ltype))), EncodeValue(f, v))
  }

  function EncodeRecords(f: Field, items: seq<Value>): Option<Bytes>
    requires forall v :: v in items ==> HasType(f, v)
    decreases f, 2, |items|
  {
    if items == [] then Some([]) else Then(EncodeRecord(f, items[0]), EncodeRecords(f, items[1..]))
  }

  /** encode_array: always packed if the type allows it. */
  function EncodeArray(f: Field, items: seq<Value>): Option<Bytes>
    requires forall v :: v in items ==> HasType(f, v)
    decreases f, 3
  {
    if items == [] then Some([])
    else if |items| > f.arraySize then None
    else if Packable(f.ltype) then
      match EncodeItems(f, items)
      case None => None
      case Some(b) => Some(TagBytes(f, WT_STRING) + Prefixed(b))
    else EncodeRecords(f, items)
  }

  /** pb_check_proto3_default_value */
  function IsDefault(f: Field, c: Cell): bool
    requires CellHasType(f, c)
    decreases f, 1
  {
    match f.htype
    case Required => false
    case Optional => if f.sizeOffset != 0 then !c.has else ValueIsDefault(f, c.value)
    case Repeated => c.items == []
    case OneOf => c.which == 0
  }

  function ValueIsDefault(f: Field, v: Value): bool
    requires HasType(f, v)
    decreases f, 0
  {
    if f.ltype.Submessage? then AllDefault(f.sub, v.cells, 0)
    else if Packable(f.ltype) then v.n == 0
    else if f.ltype.String? then UpToNul(v.b) == []
    else if f.ltype.ByteArray? then v.b == []
    else f.dataSize == 0
  }

  function AllDefault(fs: seq<Field>, cells: seq<Cell>, i: nat): bool
    requires i <= |fs| && Matches(fs, cells)
    decreases fs, 2, |fs| - i
  {
    i == |fs| || (IsDefault(fs[i], cells[Home(fs, i)]) && AllDefault(fs, cells, i + 1))
  }

  predicate Present(f: Field, c: Cell)
    requires CellHasType(f, c) && !f.htype.Repeated?
  {
    match f.htype
    case Required => true
    case Optional => if f.sizeOffset != 0 then c.has else !IsDefault(f, c)
    case OneOf => c.which == f.tag
  }

  /** encode_basic_field */
  function EncodeField(f: Field, c: Cell): Option<Bytes>
    requires CellHasType(f, c)
    decreases f, 4
  {
    if f.htype.Repeated? then EncodeArray(f, c.items)
    else if Present(f, c) then EncodeRecord(f, c.value)
    else Some([])
  }

  /** Field i and those after it. */
  function EncodeFrom(fs: seq<Field>, cells: seq<Cell>, i: nat): Option<Bytes>
    requires i <= |fs| && Matches(fs, cells)
    decreases fs, 5, |fs| - i
  {
    if i == |fs| then Some([])
    else Then(EncodeField(fs[i], cells[Home(fs, i)]), EncodeFrom(fs, cells, i + 1))
  }

  function Encoded(fs: seq<Field>, cells: seq<Cell>): Option<Bytes>
    requires Matches(fs, cells)
  {
    EncodeFrom(fs, cells, 0)
  }

  // ---- writing it -----------------------------------------------------------------------------------------

  datatype Output = Output(bytes: Bytes, written: nat)

  /** What a call did to a stream: it fails if x is no output at all or does not fit. */
  ghost predicate Effect(ok: bool, before: Output, after: Output, sizing: bool, maxSize: nat, x: Option<Bytes>) {
    && (ok <==> x.Some? && (sizing || before.written + |x.value| <= maxSize))
    && (ok ==> after.written == before.written + |x.value|
               && after.bytes == if sizing then before.bytes else before.bytes + x.value)
  }

  lemma EffectThen(s0: Output, s1: Output, s2: Output, ok: bool, sizing: bool, maxSize: nat, a: Option<Bytes>,
                   b: Option<Bytes>)
    requires Effect(true, s0, s1, sizing, maxSize, a) && Effect(ok, s1, s2, sizing, maxSize, b)
    ensures Effect(ok, s0, s2, sizing, maxSize, Then(a, b))
  {
    if ok && !sizing {
      assert (s0.bytes + a.value) + b.value == s0.bytes + (a.value + b.value);
    }
  }

  lemma EffectFails(s0: Output, s1: Output, s2: Output, sizing: bool, maxSize: nat, a: Option<Bytes>, b: Option<Bytes>)
    requires Effect(false, s0, s1, sizing, maxSize, a)
    ensures Effect(false, s0, s2, sizing, maxSize, Then(a, b))
  {
  }

  lemma ThenAssoc(a: Option<Bytes>, b: Option<Bytes>, c: Option<Bytes>)
    ensures Then(Then(a, b), c) == Then(a, Then(b, c))
    ensures Then(Some([]), a) == a && Then(a, Some([])) == a
  {
    if a.Some? && b.Some? && c.Some? {
      assert (a.value + b.value) + c.value == a.value + (b.value + c.value);
    }
    if a.Some? {
      assert [] + a.value == a.value && a.value + [] == a.value;
    }
  }
}
