/** Internal keys and their order, as laid down in db/dbformat.h and db/dbformat.cc, and the
  * default user comparator of util/comparator.cc.
  *
  * LevelDB takes the order on user keys from its user.  The engine only ever compares user keys,
  * so a user key is represented by its rank: a real number that is smaller exactly when the key
  * comes first.  Every total order on byte strings has such a ranking, because there are only
  * countably many byte strings; `Bytewise.RankEmbedsOrder` gives it for the default comparator.
  */
module InternalKeys {
  /** kMaxSequenceNumber: 56 bits, so that a type byte can be packed below. */
  const MAX_SEQUENCE: nat := 0xFF_FFFF_FFFF_FFFF

  const NUM_LEVELS: nat := 7

  type SequenceNumber = s: nat | s <= MAX_SEQUENCE

  type UserKey = real

  type Byte = b: int | 0 <= b < 256

  type Bytes = seq<Byte>

  datatype Option<T> = None | Some(value: T)

  function One(b: bool): nat {
    if b then 1 else 0
  }

  datatype ValueType = Deletion | Value

  datatype InternalKey = InternalKey(user: UserKey, seqno: SequenceNumber, kind: ValueType)

  datatype Entry = Entry(key: InternalKey, value: Bytes)

  /** PackSequenceAndType: the low byte is the type (0 deletion, 1 value). */
  function Tag(k: InternalKey): nat {
    k.seqno * 256 + if k.kind.Value? then 1 else 0
  }

  /** InternalKeyComparator::Compare: user key ascending, then tag descending. */
  function Compare(a: InternalKey, b: InternalKey): (r: int)
    ensures r < 0 <==> Less(a, b)
    ensures r > 0 <==> Less(b, a)
    ensures r == 0 <==> a == b
  {
    if a.user < b.user then -1
    else if a.user > b.user then 1
    else if Tag(a) > Tag(b) then -1
    else if Tag(a) < Tag(b) then 1
    else 0
  }

  predicate Less(a: InternalKey, b: InternalKey) {
    a.user < b.user || (a.user == b.user && Tag(a) > Tag(b))
  }

  /** The key a read of (u, s) seeks to: kValueTypeForSeek is the largest type. */
  function LookupKey(u: UserKey, s: SequenceNumber): InternalKey {
    InternalKey(u, s, Value)
  }

  /** Seeking to the lookup key skips exactly the entries of u that are too new for s. */
  lemma LookupKeySplits(k: InternalKey, u: UserKey, s: SequenceNumber)
    requires k.user == u
    ensures Less(k, LookupKey(u, s)) <==> k.seqno > s
  {
  }

  ghost predicate Sorted(es: seq<Entry>) {
    forall i, j :: 0 <= i < j < |es| ==> Less(es[i].key, es[j].key)
  }
}

/** BytewiseComparator (util/comparator.cc) and its ranking in the reals. */
module Bytewise {
  import opened InternalKeys

  /** Slice::compare: memcmp on the common prefix, then the shorter string first. */
  predicate Before(a: Bytes, b: Bytes) {
    if b == [] then false
    else if a == [] then true
    else a[0] < b[0] || (a[0] == b[0] && Before(a[1..], b[1..]))
  }

  /** The string read as a fraction in base 257, its bytes being the digits 1 to 256. */
  function Rank(s: Bytes): (r: UserKey)
    ensures 0.0 <= r < 1.0
    ensures r == 0.0 <==> s == []
  {
    if s == [] then 0.0 else (s[0] as real + 1.0 + Rank(s[1..])) / 257.0
  }

  lemma {:induction false} RankEmbedsOrder(a: Bytes, b: Bytes)
    ensures Before(a, b) <==> Rank(a) < Rank(b)
    ensures a == b <==> Rank(a) == Rank(b)
  {
    if a != [] && b != [] {
      RankEmbedsOrder(a[1..], b[1..]);
      assert a == [a[0]] + a[1..] && b == [b[0]] + b[1..];
    }
  }
}
