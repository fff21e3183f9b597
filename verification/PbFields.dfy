/** nanopb field descriptors (pb.h, built with PB_FIELD_32BIT), the structures they describe, and the
  * circular field iterator (pb_common.c).  Only statically allocated fields; no callbacks or extensions.
  */
module PbFields {
  import opened InternalKeys

  const PB_SIZE_MAX: nat := 0xFFFF_FFFF
  const MAX_REQUIRED_FIELDS: nat := 64

  /** offsetof(pb_bytes_array_t, bytes) */
  const BYTES_OFFSET: nat := 4

  datatype LType = Bool | Varint | UVarint | SVarint | Fixed32 | Fixed64 | ByteArray | String | Submessage
                 | FixedLengthBytes

  datatype HType = Required | Optional | Repeated | OneOf

  datatype Field = Field(tag: nat, ltype: LType, htype: HType, dataOffset: nat, sizeOffset: int, dataSize: nat,
                         arraySize: nat, initial: Option<Value>, sub: seq<Field>)

  /** A C structure: one cell for each field.  The members of a union share the cell of the first. */
  datatype Cell = Single(value: Value) | Maybe(has: bool, value: Value) | Many(items: seq<Value>)
                | Union(which: nat, value: Value)

  datatype Value = Num(n: int) | Blob(b: Bytes) | Message(cells: seq<Cell>)

  /** The numbers a field can hold. */
  predicate InRange(t: LType, size: nat, n: int) {
    match t
    case Bool => 0 <= n < 2
    case Fixed32 => 0 <= n < 0x1_0000_0000
    case Fixed64 => 0 <= n < 0x1_0000_0000_0000_0000
    case UVarint => 0 <= n < 2 * SignBit(size)
    case Varint | SVarint => n < SignBit(size) && -n <= SignBit(size)
    case _ => false
  }

  function SignBit(size: nat): nat {
    if size == 1 then 0x80 else if size == 2 then 0x8000 else if size == 4 then 0x8000_0000
    else 0x8000_0000_0000_0000
  }

  predicate IntSize(size: nat) {
    size == 1 || size == 2 || size == 4 || size == 8
  }

  /** PB_LTYPE_LAST_PACKABLE: the scalars. */
  predicate Packable(t: LType) {
    !t.ByteArray? && !t.String? && !t.Submessage? && !t.FixedLengthBytes?
  }

  // ---- what the fields of a descriptor occupy ---------------------------------------------------------

  /** A union member that starts where the field before it does. */
  predicate InUnion(fs: seq<Field>, i: nat)
    requires i < |fs|
  {
    i > 0 && fs[i - 1].htype.OneOf? && fs[i].htype.OneOf? && fs[i].dataOffset == PB_SIZE_MAX
  }

  function Home(fs: seq<Field>, i: nat): (h: nat)
    requires i < |fs|
    ensures h <= i && !InUnion(fs, h)
    ensures fs[h].htype.OneOf? <==> fs[i].htype.OneOf?
    ensures h < i ==> fs[i].htype.OneOf?
  {
    if InUnion(fs, i) then Home(fs, i - 1) else i
  }

  function Extent(f: Field): nat {
    if f.htype.Repeated? then f.dataSize * f.arraySize else f.dataSize
  }

  /** The offset of a field in the structure, and that of its count, has_ or which_ member. */
  function DataAt(fs: seq<Field>, i: nat): nat
    requires i < |fs|
  {
    if i == 0 then fs[0].dataOffset
    else if InUnion(fs, i) then DataAt(fs, i - 1)
    else DataAt(fs, i - 1) + Extent(fs[i - 1]) + fs[i].dataOffset
  }

  function SizeAt(fs: seq<Field>, i: nat): int
    requires i < |fs|
  {
    DataAt(fs, i) + fs[Home(fs, i)].sizeOffset
  }

  /** Offsets tell cells apart: a field starts where another does only in the same union, and otherwise past
    * the end of the earlier one.
    */
  lemma {:induction false} OffsetsTellCellsApart(fs: seq<Field>, i: nat, j: nat)
    requires i <= j < |fs|
    ensures Home(fs, i) == Home(fs, j) ==> DataAt(fs, i) == DataAt(fs, j) && (i < j ==> InUnion(fs, i + 1))
    ensures Home(fs, i) != Home(fs, j) ==> DataAt(fs, j) >= DataAt(fs, i)
    ensures Home(fs, i) != Home(fs, j) && (fs[i].htype.OneOf? ==> !InUnion(fs, i + 1))
            ==> DataAt(fs, j) >= DataAt(fs, i) + Extent(fs[i])
  {
    if i < j {
      OffsetsTellCellsApart(fs, i, j - 1);
      assert Extent(fs[j - 1]) >= 0 by { ExtentIsNat(fs[j - 1]); }
    }
  }

  /** The two members of a union, and what comes after the second of them. */
  lemma UnionAndNext(a: Field, b: Field, c: Field)
    requires a.htype.OneOf? && b.htype.OneOf? && !c.htype.OneOf? && b.dataOffset == PB_SIZE_MAX
    ensures Home([a, b, c], 0) == Home([a, b, c], 1) == 0 && Home([a, b, c], 2) == 2
    ensures DataAt([a, b, c], 0) == DataAt([a, b, c], 1) == a.dataOffset
    ensures DataAt([a, b, c], 2) == a.dataOffset + b.dataSize + c.dataOffset
    ensures SizeAt([a, b, c], 1) == a.dataOffset + a.sizeOffset
  {
    var fs := [a, b, c];
    assert !InUnion(fs, 0) && InUnion(fs, 1) && !InUnion(fs, 2);
  }

  lemma ExtentIsNat(f: Field)
    ensures Extent(f) >= 0
  {
  }

  /** The number of required fields before field i: its index in fields_seen, if it is one. */
  function RequiredBefore(fs: seq<Field>, i: nat): (n: nat)
    requires i <= |fs|
    ensures n <= i
  {
    if i == 0 then 0 else RequiredBefore(fs, i - 1) + if fs[i - 1].htype.Required? then 1 else 0
  }

  lemma {:induction false} RequiredBeforeGrows(fs: seq<Field>, i: nat, j: nat)
    requires i <= j <= |fs|
    ensures RequiredBefore(fs, i) <= RequiredBefore(fs, j)
    ensures i < j && fs[i].htype.Required? ==> RequiredBefore(fs, i) < RequiredBefore(fs, j)
  {
    if i < j {
      RequiredBeforeGrows(fs, i, j - 1);
    }
  }

  lemma {:induction false} NthRequired(fs: seq<Field>, n: nat, k: nat) returns (j: nat)
    requires n <= |fs| && k < RequiredBefore(fs, n)
    ensures j < n && fs[j].htype.Required? && RequiredBefore(fs, j) == k
  {
    if k < RequiredBefore(fs, n - 1) {
      j := NthRequired(fs, n - 1, k);
    } else {
      j := n - 1;
    }
  }

  predicate DistinctTags(fs: seq<Field>) {
    forall i, j :: 0 <= i < j < |fs| ==> fs[i].tag != fs[j].tag
  }

  /** The field with a tag, if there is one. */
  ghost predicate Finds(fs: seq<Field>, tag: nat, r: Option<nat>) {
    match r
    case Some(i) => i < |fs| && fs[i].tag == tag
    case None => forall i :: 0 <= i < |fs| ==> fs[i].tag != tag
  }

  /** pb_field_iter_t over one structure.  The terminating entry of the descriptor is left implicit: pos is 0
    * in an empty descriptor too.
    */
  class FieldIter {
    const fields: seq<Field>
    var pos: nat
    var requiredFieldIndex: nat
    var pData: nat
    var pSize: int

    ghost predicate Valid()
      reads this
    {
      && (fields != [] ==> pos < |fields| && pData == DataAt(fields, pos) && pSize == SizeAt(fields, pos))
      && (fields == [] ==> pos == 0)
      && pos <= |fields| && requiredFieldIndex == RequiredBefore(fields, pos)
    }

    /** pb_field_iter_begin; `ok` says that there is a field. */
    constructor (fields: seq<Field>)
      ensures Valid() && this.fields == fields && pos == 0
    {
      this.fields := fields;
      pos, requiredFieldIndex := 0, 0;
      pData := if fields == [] then 0 else fields[0].dataOffset;
      pSize := if fields == [] then 0 else fields[0].dataOffset + fields[0].sizeOffset;
    }

    method Begin() returns (ok: bool)
      modifies this
      ensures Valid() && pos == 0 && ok == (fields != [])
    {
      pos, requiredFieldIndex := 0, 0;
      if fields == [] {
        return false;
      }
      pData := fields[0].dataOffset;
      pSize := pData + fields[0].sizeOffset;
      ok := true;
    }

    /** To the next field, or back to the first and false. */
    method Next() returns (more: bool)
      requires Valid()
      modifies this
      ensures Valid() && pos == if old(pos) + 1 < |fields| then old(pos) + 1 else 0
      ensures more <==> old(pos) + 1 < |fields|
    {
      if fields == [] {
        return false;
      }
      var prev := fields[pos];
      pos := pos + 1;
      if pos == |fields| {
        var _ := Begin();
        return false;
      }
      if prev.htype.OneOf? && fields[pos].htype.OneOf? && fields[pos].dataOffset == PB_SIZE_MAX {
        return true;
      }
      var prevSize := prev.dataSize;
      if prev.htype.Repeated? {
        prevSize := prevSize * prev.arraySize;
      }
      if prev.htype.Required? {
        requiredFieldIndex := requiredFieldIndex + 1;
      }
      pData := pData + prevSize + fields[pos].dataOffset;
      pSize := pData + fields[pos].sizeOffset;
      more := true;
    }

    /** Looks for a tag all the way round, starting where it stands.  In an empty descriptor it stands on the
      * terminating entry, whose tag is 0.
      */
    method Find(tag: nat) returns (found: bool)
      requires Valid()
      modifies this
      ensures Valid() && (fields != [] ==> Finds(fields, tag, if found then Some(pos) else None))
      ensures fields == [] ==> (found <==> tag == 0)
      ensures !found ==> pos == old(pos)
    {
      if fields == [] {
        return tag == 0;
      }
      var start, steps := pos, 0;
      while true
        invariant Valid() && steps < |fields| && pos == Around(start, steps, |fields|)
        invariant forall k: nat :: k < steps ==> fields[Around(start, k, |fields|)].tag != tag
        decreases |fields| - steps
      {
        if fields[pos].tag == tag {
          return true;
        }
        var more := Next();
        steps := steps + 1;
        if pos == start {
          break;
        }
      }
      forall i | 0 <= i < |fields| ensures fields[i].tag != tag {
        assert i == Around(start, if i >= start then i - start else i + |fields| - start, |fields|);
      }
      found := false;
    }
  }

  /** The place `steps` further round a circle of n. */
  function Around(start: nat, steps: nat, n: nat): (p: nat)
    requires start < n && steps < n
    ensures p < n
  {
    if start + steps < n then start + steps else start + steps - n
  }
}
