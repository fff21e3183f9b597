/** Write batches (db/write_batch.cc): an 8-byte sequence number, a 4-byte count, and the records. */
module WriteBatches {
  import opened InternalKeys
  import opened Sequences
  import opened Coding

  const HEADER: nat := 12

  datatype Op = Put(key: Bytes, value: Bytes) | Delete(key: Bytes)

  /** What the batch format can hold: string lengths are 32 bits wide. */
  predicate Encodable(op: Op) {
    |op.key| < 0x1_0000_0000 && (op.Put? ==> |op.value| < 0x1_0000_0000)
  }

  ghost predicate AllEncodable(ops: seq<Op>) {
    |ops| < 0x8000_0000 && forall op :: op in ops ==> Encodable(op)
  }

  function RecordBytes(op: Op): (r: Bytes)
    ensures r != []
  {
    match op
    case Put(key, value) => [1] + LengthPrefixed(key) + LengthPrefixed(value)
    case Delete(key) => [0] + LengthPrefixed(key)
  }

  function Records(ops: seq<Op>): Bytes {
    if ops == [] then [] else RecordBytes(ops[0]) + Records(ops[1..])
  }

  lemma FirstRecord(ops: seq<Op>)
    ensures Records([]) == []
    ensures ops != [] ==> Records(ops) == RecordBytes(ops[0]) + Records(ops[1..])
  {
  }

  lemma {:induction false} RecordsAppend(a: seq<Op>, b: seq<Op>)
    ensures Records(a + b) == Records(a) + Records(b)
  {
    hide RecordBytes, Records;
    FirstRecord(a);
    FirstRecord(a + b);
    if a == [] {
      assert a + b == b;
    } else {
      RecordsAppend(a[1..], b);
      assert (a + b)[1..] == a[1..] + b && (a + b)[0] == a[0];
      Assoc(RecordBytes(a[0]), Records(a[1..]), Records(b));
    }
  }

  // ---- reading a batch ------------------------------------------------------------------------------

  datatype Status = OK | TooSmall | BadPut | BadDelete | UnknownTag | WrongCount

  /** The operations handed to the handler, and the status in the end. */
  datatype Iterated = Iterated(ops: seq<Op>, status: Status)

  /** One record at the front of the input. */
  datatype Head = Good(op: Op, rest: Bytes) | Bad(status: Status)

  function ParseRecord(input: Bytes): (r: Head)
    requires input != []
    ensures r.Good? ==> |r.rest| < |input|
    ensures r.Bad? ==> r.status != OK
  {
    if input[0] == 1 then
      match GetLengthPrefixedSlice(input[1..])
      case None => Bad(BadPut)
      case Some(key) =>
        (match GetLengthPrefixedSlice(key.rest)
         case None => Bad(BadPut)
         case Some(value) => Good(Put(key.data, value.data), value.rest))
    else if input[0] == 0 then
      match GetLengthPrefixedSlice(input[1..])
      case None => Bad(BadDelete)
      case Some(key) => Good(Delete(key.data), key.rest)
    else Bad(UnknownTag)
  }

  function ParseRecords(input: Bytes): Iterated
    decreases |input|
  {
    if input == [] then Iterated([], OK)
    else
      match ParseRecord(input)
      case Bad(status) => Iterated([], status)
      case Good(op, rest) =>
        var r := ParseRecords(rest);
        Iterated([op] + r.ops, r.status)
  }

  /** The count is read as a signed int. */
  function Count(rep: Bytes): (n: int)
    requires |rep| >= HEADER
    ensures -0x8000_0000 <= n < 0x8000_0000
  {
    var n := DecodeFixed32(rep[8..HEADER]);
    if n < 0x8000_0000 then n else n - 0x1_0000_0000
  }

  function Sequence(rep: Bytes): DoubleWord
    requires |rep| >= HEADER
  {
    DecodeFixed64(rep[..8])
  }

  function ParseBatch(rep: Bytes): Iterated {
    if |rep| < HEADER then Iterated([], TooSmall)
    else
      var r := ParseRecords(rep[HEADER..]);
      if r.status == OK && |r.ops| != Count(rep) then Iterated(r.ops, WrongCount) else r
  }

  /** The operations so far, followed by what the rest of the input gives. */
  function Then(ops: seq<Op>, r: Iterated): Iterated {
    Iterated(ops + r.ops, r.status)
  }

  lemma ThenOneMore(ops: seq<Op>, input: Bytes)
    requires input != []
    ensures match ParseRecord(input)
            case Bad(status) => Then(ops, ParseRecords(input)) == Iterated(ops, status)
            case Good(op, rest) => Then(ops, ParseRecords(input)) == Then(ops + [op], ParseRecords(rest))
  {
    match ParseRecord(input) {
      case Bad(status) =>
        assert ops + [] == ops;
      case Good(op, rest) =>
        Assoc(ops, [op], ParseRecords(rest).ops);
    }
  }

  lemma ThenNothing(ops: seq<Op>)
    ensures Then(ops, ParseRecords([])) == Iterated(ops, OK) && Then([], Iterated(ops, OK)) == Iterated(ops, OK)
  {
  }

  /** WriteBatch::Iterate. */
  method Iterate(rep: Bytes) returns (ops: seq<Op>, status: Status)
    ensures Iterated(ops, status) == ParseBatch(rep)
  {
    hide ParseRecords, ParseRecord;
    ops := [];
    if |rep| < HEADER {
      return ops, TooSmall;
    }
    var input := rep[HEADER..];
    var found := 0;
    ghost var all := ParseRecords(input);
    while input != []
      invariant found == |ops|
      invariant all == Then(ops, ParseRecords(input))
      decreases |input|
    {
      found := found + 1;
      ThenOneMore(ops, input);
      match ParseRecord(input) {
        case Good(op, rest) =>
          ops := ops + [op];
          input := rest;
        case Bad(bad) =>
          return ops, bad;
      }
    }
    ThenNothing(ops);
    status := if found != Count(rep) then WrongCount else OK;
  }

  lemma ParseRecordBytes(op: Op, rest: Bytes)
    requires Encodable(op)
    ensures RecordBytes(op) + rest != [] && ParseRecord(RecordBytes(op) + rest) == Good(op, rest)
  {
    hide GetLengthPrefixedSlice, LengthPrefixed;
    var input := RecordBytes(op) + rest;
    match op {
      case Put(key, value) =>
        LengthPrefixedRoundTrip(key, LengthPrefixed(value) + rest);
        LengthPrefixedRoundTrip(value, rest);
        assert input[1..] == LengthPrefixed(key) + (LengthPrefixed(value) + rest);
      case Delete(key) =>
        LengthPrefixedRoundTrip(key, rest);
        assert input[1..] == LengthPrefixed(key) + rest;
    }
  }

  lemma {:induction false} ParseRecordsOf(ops: seq<Op>)
    requires forall op :: op in ops ==> Encodable(op)
    ensures ParseRecords(Records(ops)) == Iterated(ops, OK)
  {
    hide ParseRecord, RecordBytes;
    if ops != [] {
      ParseRecordBytes(ops[0], Records(ops[1..]));
      ParseRecordsOf(ops[1..]);
      assert [ops[0]] + ops[1..] == ops;
    }
  }

  /** A record takes at least two bytes, so that counts stay far below batch sizes. */
  lemma {:induction false} OpsFitBytes(ops: seq<Op>)
    ensures |ops| <= |Records(ops)|
  {
    if ops != [] {
      OpsFitBytes(ops[1..]);
    }
  }

  // ---- building a batch -----------------------------------------------------------------------------

  class WriteBatch {
    var rep: Bytes
    ghost var ops: seq<Op>

    ghost predicate Valid()
      reads this
    {
      && AllEncodable(ops) && |rep| >= HEADER
      && rep[8..HEADER] == EncodeFixed32(|ops|) && rep[HEADER..] == Records(ops)
    }

    constructor ()
      ensures Valid() && ops == []
    {
      rep := seq(HEADER, i => 0);
      ops := [];
    }

    method Clear()
      modifies this
      ensures Valid() && ops == []
    {
      rep := seq(HEADER, i => 0);
      ops := [];
    }

    method SetCount(n: Word)
      requires |rep| >= HEADER
      modifies this`rep
      ensures rep == old(rep[..8]) + EncodeFixed32(n) + old(rep[HEADER..])
    {
      rep := rep[..8] + EncodeFixed32(n) + rep[HEADER..];
    }

    method SetSequence(s: DoubleWord)
      requires Valid()
      modifies this`rep
      ensures Valid() && Sequence(rep) == s && |rep| == old(|rep|)
    {
      rep := EncodeFixed64(s) + rep[8..];
      DecodeEncodeFixed64(s);
      assert rep[..8] == EncodeFixed64(s);
      assert rep[8..HEADER] == old(rep[8..HEADER]) && rep[HEADER..] == old(rep[HEADER..]);
    }

    method Add(op: Op)
      requires Valid() && Encodable(op) && |ops| + 1 < 0x8000_0000
      modifies this
      ensures Valid() && ops == old(ops) + [op]
    {
      hide RecordBytes, EncodeFixed32, DecodeFixed32, Records, LengthPrefixed;
      DecodeEncodeFixed32(|ops|);
      SetCount(Count(rep) + 1);
      ghost var header := rep[..HEADER];
      match op {
        case Put(key, value) =>
          rep := rep + [1];
          rep := rep + LengthPrefixed(key);
          rep := rep + LengthPrefixed(value);
        case Delete(key) =>
          rep := rep + [0];
          rep := rep + LengthPrefixed(key);
      }
      ops := ops + [op];
      RecordsAppend(old(ops), [op]);
      OneRecord(op);
      assert rep == header + (Records(old(ops)) + RecordBytes(op));
    }

    method Append(source: WriteBatch)
      requires Valid() && source.Valid() && source != this && |ops| + |source.ops| < 0x8000_0000
      modifies this
      ensures Valid() && ops == old(ops) + source.ops
    {
      hide EncodeFixed32, DecodeFixed32, Encodable, Records;
      DecodeEncodeFixed32(|ops|);
      DecodeEncodeFixed32(|source.ops|);
      SetCount(Count(rep) + Count(source.rep));
      ghost var header := rep[..HEADER];
      rep := rep + source.rep[HEADER..];
      ops := ops + source.ops;
      RecordsAppend(old(ops), source.ops);
      assert rep == header + (Records(old(ops)) + Records(source.ops));
    }
  }

  lemma OneRecord(op: Op)
    ensures Records([op]) == RecordBytes(op)
    ensures match op
            case Put(key, value) => RecordBytes(op) == [1] + LengthPrefixed(key) + LengthPrefixed(value)
            case Delete(key) => RecordBytes(op) == [0] + LengthPrefixed(key)
  {
    assert [op][1..] == [];
  }

  /** A batch that was built reads back as the operations it was built from. */
  lemma BuiltBatchReadsBack(batch: WriteBatch)
    requires batch.Valid()
    ensures ParseBatch(batch.rep) == Iterated(batch.ops, OK)
  {
    ParseRecordsOf(batch.ops);
    DecodeEncodeFixed32(|batch.ops|);
  }

  // ---- batches that are damaged ---------------------------------------------------------------------------

  /** Of a batch that is read without error, the count is right. */
  lemma OkMeansCounted(rep: Bytes)
    requires ParseBatch(rep).status == OK
    ensures |rep| >= 12 && |ParseBatch(rep).ops| == Count(rep)
  {
  }

  lemma TruncatedRecord(op: Op, k: nat)
    requires Encodable(op) && 0 < k < |RecordBytes(op)|
    ensures ParseRecord(RecordBytes(op)[..k]) == Bad(if op.Put? then BadPut else BadDelete)
  {
    hide GetLengthPrefixedSlice, LengthPrefixed;
    var b := RecordBytes(op)[..k];
    var key := LengthPrefixed(op.key);
    assert b[0] == RecordBytes(op)[0];
    if k - 1 < |key| {
      TruncatedSlice(op.key, k - 1);
      assert b[1..] == key[..k - 1];
    } else {
      TruncatedValue(op, k);
    }
  }

  /** The end is lost within the value. */
  lemma TruncatedValue(op: Op, k: nat)
    requires Encodable(op) && 1 + |LengthPrefixed(op.key)| <= k < |RecordBytes(op)|
    ensures ParseRecord(RecordBytes(op)[..k]) == Bad(if op.Put? then BadPut else BadDelete)
  {
    hide GetLengthPrefixedSlice, LengthPrefixed;
    var b := RecordBytes(op)[..k];
    var key := LengthPrefixed(op.key);
    assert op.Put? && b[0] == 1;
    var value := LengthPrefixed(op.value)[..k - 1 - |key|];
    LengthPrefixedRoundTrip(op.key, value);
    TruncatedSlice(op.value, k - 1 - |key|);
    assert b[1..] == key + value;
  }

  lemma {:induction false} TruncatedRecords(ops: seq<Op>, k: nat)
    requires (forall op :: op in ops ==> Encodable(op)) && k < |Records(ops)|
    ensures var r := ParseRecords(Records(ops)[..k]); r.status == OK ==> |r.ops| < |ops|
    decreases |ops|
  {
    hide ParseRecord, RecordBytes, Encodable;
    FirstRecord(ops);
    var b, first := Records(ops)[..k], RecordBytes(ops[0]);
    if k >= |first| {
      var rest := Records(ops[1..])[..k - |first|];
      assert b == first + rest;
      ParseRecordBytes(ops[0], rest);
      TruncatedRecords(ops[1..], k - |first|);
    } else if k > 0 {
      TruncatedRecord(ops[0], k);
      assert b == first[..k];
    }
  }

  /** A batch that has lost its end is never taken for whole. */
  lemma TruncatedBatchFails(batch: WriteBatch, k: nat)
    requires batch.Valid() && k < |batch.rep|
    ensures ParseBatch(batch.rep[..k]).status != OK
  {
    hide ParseRecords;
    var b := batch.rep[..k];
    if k >= HEADER {
      TruncatedRecords(batch.ops, k - HEADER);
      assert b[HEADER..] == Records(batch.ops)[..k - HEADER];
      assert b[8..HEADER] == EncodeFixed32(|batch.ops|);
      DecodeEncodeFixed32(|batch.ops|);
    }
  }

  /** The bytes of a put and a deletion; any other first byte is refused. */
  lemma BytesOfRecords()
    ensures Records([Put([7], [8, 9]), Delete([7])]) == [1, 1, 7, 2, 8, 9, 0, 1, 7]
    ensures forall b: Bytes :: b != [] && b[0] > 1 ==> ParseRecord(b) == Bad(UnknownTag)
  {
    var a, b, c: Bytes := [7], [8, 9], [1, 7];
    assert EncodeVarint(1) == [1] && EncodeVarint(2) == [2];
    assert LengthPrefixed([7]) == [1] + a == c && LengthPrefixed([8, 9]) == [2] + b;
    var put, delete: Bytes := [1, 1, 7, 2, 8, 9], [0, 1, 7];
    assert RecordBytes(Put([7], [8, 9])) == put && RecordBytes(Delete([7])) == delete;
    var ops := [Put([7], [8, 9]), Delete([7])];
    FirstRecord(ops);
    FirstRecord(ops[1..]);
    assert ops[1..] == [Delete([7])] && ops[1..][1..] == [] && delete + [] == delete;
    assert Records(ops[1..]) == delete;
  }
}
