/** The hash table of the block and table caches (util/cache.cc): buckets are chains linked through
  * the handles themselves.
  */
module HandleTables {
  import opened InternalKeys
  import opened Coding

  class LRUHandle {
    const key: Bytes
    const hash: Word
    const charge: nat
    var nextHash: LRUHandle?
    var next: LRUHandle?
    var prev: LRUHandle?
    var inCache: bool
    var refs: nat

    constructor (key: Bytes, hash: Word, charge: nat)
      ensures this.key == key && this.hash == hash && this.charge == charge
      ensures nextHash == null && next == null && prev == null && !inCache && refs == 1
    {
      this.key, this.hash, this.charge := key, hash, charge;
      nextHash, next, prev, inCache, refs := null, null, null, false, 1;
    }
  }

  predicate SameKey(a: LRUHandle, b: LRUHandle) {
    a.hash == b.hash && a.key == b.key
  }

  ghost function LinkOf(links: map<LRUHandle, LRUHandle?>, h: LRUHandle): LRUHandle? {
    if h in links then links[h] else null
  }

  /** s is what one meets from `first` on, following the links. */
  ghost predicate Chain(links: map<LRUHandle, LRUHandle?>, first: LRUHandle?, s: seq<LRUHandle>) {
    && first == (if s == [] then null else s[0])
    && forall i :: 0 <= i < |s| ==> LinkAt(links, s, i)
  }

  ghost predicate LinkAt(links: map<LRUHandle, LRUHandle?>, s: seq<LRUHandle>, i: nat)
    requires i < |s|
  {
    s[i] in links && LinkOf(links, s[i]) == if i + 1 < |s| then s[i + 1] else null
  }

  // ---- the bucket of a hash -------------------------------------------------------------------------------

  predicate PowerOf2(n: nat) {
    n == 1 || (n > 0 && n % 2 == 0 && PowerOf2(n / 2))
  }

  /** The least length, from four on, that has a bucket for each handle. */
  predicate LengthFor(length: nat, elems: nat) {
    PowerOf2(length) && elems <= length && length >= 4 && (length > 4 ==> length / 2 < elems)
  }

  /** Bitwise and. */
  function And(a: nat, b: nat): nat {
    if a == 0 || b == 0 then 0 else (if a % 2 == 1 && b % 2 == 1 then 1 else 0) + 2 * And(a / 2, b / 2)
  }

  /** Lengths are powers of two, so that the mask is a remainder. */
  lemma {:induction false} MaskIsRemainder(hash: nat, length: nat)
    requires PowerOf2(length)
    ensures And(hash, length - 1) == hash % length
  {
    hide And;
    if length > 1 {
      var half := length / 2;
      MaskIsRemainder(hash / 2, half);
      MaskHalves(hash, half);
      HalfRemainder(hash, half);
    } else {
      MaskNothing(hash);
    }
  }

  lemma MaskHalves(hash: nat, half: nat)
    requires half > 0
    ensures And(hash, 2 * half - 1) == hash % 2 + 2 * And(hash / 2, half - 1)
  {
    assert (2 * half - 1) / 2 == half - 1 && (2 * half - 1) % 2 == 1;
  }

  lemma MaskNothing(hash: nat)
    ensures And(hash, 0) == 0 == hash % 1
  {
  }

  lemma HalfRemainder(n: nat, half: nat)
    requires half > 0
    ensures n % (2 * half) == n % 2 + 2 * (n / 2 % half)
  {
    var q, r := n / 2 / half, n / 2 % half;
    assert n == 2 * half * q + (2 * r + n % 2);
    RemainderIs(n, 2 * half, q, 2 * r + n % 2);
  }

  lemma RemainderIs(n: nat, d: nat, q: nat, r: nat)
    requires r < d && n == d * q + r
    ensures n % d == r
  {
    var e := q - n / d;
    assert d * e == n % d - r;
    MultiplesAreFar(d, e);
  }

  lemma MultiplesAreFar(d: nat, e: int)
    ensures e >= 1 ==> d * e >= d
    ensures e <= -1 ==> d * e + d <= 0
  {
  }

  /** No key twice, and every handle in the bucket of its hash. */
  ghost predicate InBucket(s: seq<LRUHandle>, b: nat, length: nat)
    requires length > 0
  {
    && (forall i :: 0 <= i < |s| ==> s[i].hash % length == b)
    && (forall i, j :: 0 <= i < j < |s| ==> !SameKey(s[i], s[j]))
  }

  lemma ChainUntouched(links: map<LRUHandle, LRUHandle?>, links': map<LRUHandle, LRUHandle?>, first: LRUHandle?,
                       s: seq<LRUHandle>)
    requires Chain(links, first, s) && forall h :: h in s ==> h in links' && LinkOf(links', h) == LinkOf(links, h)
    ensures Chain(links', first, s)
  {
    forall i | 0 <= i < |s| ensures LinkAt(links', s, i) {
      assert LinkAt(links, s, i);
    }
  }

  /** Putting h where the handle at position p was, or at the end. */
  lemma ChainReplaced(links: map<LRUHandle, LRUHandle?>, first: LRUHandle?, s: seq<LRUHandle>, p: nat, h: LRUHandle,
                      links': map<LRUHandle, LRUHandle?>, first': LRUHandle?, b: nat, length: nat)
    requires Chain(links, first, s) && p <= |s| && h !in s && length > 0 && InBucket(s, b, length)
    requires first' == (if p == 0 then h else first) && h in links'
    requires LinkOf(links', h) == if p < |s| then LinkOf(links, s[p]) else null
    requires p > 0 ==> s[p - 1] in links' && LinkOf(links', s[p - 1]) == h
    requires forall i :: 0 <= i < |s| && i != p - 1 ==> s[i] in links' && LinkOf(links', s[i]) == LinkOf(links, s[i])
    ensures Chain(links', first', Replace(s, p, h))
  {
    var s' := Replace(s, p, h);
    forall i | 0 <= i < |s'| ensures LinkAt(links', s', i) {
      assert i < |s| ==> LinkAt(links, s, i);
    }
  }

  function Replace(s: seq<LRUHandle>, p: nat, h: LRUHandle): (r: seq<LRUHandle>)
    requires p <= |s|
    ensures |r| == if p < |s| then |s| else |s| + 1
    ensures forall i :: 0 <= i < |r| ==> r[i] == if i == p then h else s[i]
  {
    if p < |s| then s[p := h] else s + [h]
  }

  lemma ChainCut(links: map<LRUHandle, LRUHandle?>, first: LRUHandle?, s: seq<LRUHandle>, p: nat,
                 links': map<LRUHandle, LRUHandle?>, first': LRUHandle?, b: nat, length: nat)
    requires Chain(links, first, s) && p < |s| && length > 0 && InBucket(s, b, length)
    requires first' == (if p == 0 then LinkOf(links, s[0]) else first)
    requires p > 0 ==> s[p - 1] in links' && LinkOf(links', s[p - 1]) == LinkOf(links, s[p])
    requires forall i :: 0 <= i < |s| && i != p - 1 && i != p ==> s[i] in links' && LinkOf(links', s[i]) == LinkOf(links, s[i])
    ensures Chain(links', first', s[..p] + s[p + 1..])
  {
    var s' := s[..p] + s[p + 1..];
    assert LinkAt(links, s, p);
    forall i | 0 <= i < |s'| ensures LinkAt(links', s', i) {
      var j := if i < p then i else i + 1;
      assert s'[i] == s[j] && LinkAt(links, s, j);
    }
  }

  ghost function ItemsOf(chains: seq<seq<LRUHandle>>): set<LRUHandle> {
    set b, i | 0 <= b < |chains| && 0 <= i < |chains[b]| :: chains[b][i]
  }

  ghost predicate Buckets(links: map<LRUHandle, LRUHandle?>, heads: seq<LRUHandle?>, chains: seq<seq<LRUHandle>>,
                          length: nat)
  {
    && length > 0 && |heads| == length == |chains|
    && forall b :: 0 <= b < length ==> Chain(links, heads[b], chains[b]) && InBucket(chains[b], b, length)
  }

  ghost predicate Lacks(chains: seq<seq<LRUHandle>>, key: Bytes, hash: Word) {
    forall h :: h in ItemsOf(chains) ==> !(h.key == key && h.hash == hash)
  }

  lemma LacksMeansNone(chains: seq<seq<LRUHandle>>, key: Bytes, hash: Word)
    ensures Lacks(chains, key, hash) ==> forall h :: h in ItemsOf(chains) ==> !(h.key == key && h.hash == hash)
  {
  }

  /** A key can only be in the bucket of its hash. */
  lemma OnlyInItsBucket(links: map<LRUHandle, LRUHandle?>, heads: seq<LRUHandle?>, chains: seq<seq<LRUHandle>>,
                        length: nat, key: Bytes, hash: Word)
    requires Buckets(links, heads, chains, length)
    requires forall i :: 0 <= i < |chains[hash % length]|
               ==> !(chains[hash % length][i].hash == hash && chains[hash % length][i].key == key)
    ensures Lacks(chains, key, hash)
  {
  }

  /** Changing one bucket. */
  lemma OneBucketChanged(links: map<LRUHandle, LRUHandle?>, heads: seq<LRUHandle?>, chains: seq<seq<LRUHandle>>,
                         length: nat, links': map<LRUHandle, LRUHandle?>, heads': seq<LRUHandle?>, b: nat,
                         s: seq<LRUHandle>)
    requires Buckets(links, heads, chains, length) && b < length
    requires |heads'| == length && forall c :: 0 <= c < length && c != b ==> heads'[c] == heads[c]
    requires Chain(links', heads'[b], s) && InBucket(s, b, length)
    requires forall h :: h in ItemsOf(chains) && h.hash % length != b
               ==> h in links' && LinkOf(links', h) == LinkOf(links, h)
    ensures Buckets(links', heads', chains[b := s], length)
  {
    var chains' := chains[b := s];
    forall c | 0 <= c < length ensures Chain(links', heads'[c], chains'[c]) && InBucket(chains'[c], c, length) {
      if c != b {
        forall h | h in chains[c] ensures h in ItemsOf(chains) && h.hash % length != b {
        }
        ChainUntouched(links, links', heads[c], chains[c]);
      }
    }
  }

  lemma ReplacedItems(chains: seq<seq<LRUHandle>>, b: nat, p: nat, h: LRUHandle)
    requires b < |chains| && p <= |chains[b]| && h !in ItemsOf(chains)
    requires forall c, i :: 0 <= c < |chains| && 0 <= i < |chains[c]| && !(c == b && i == p)
               ==> p < |chains[b]| ==> chains[c][i] != chains[b][p]
    ensures ItemsOf(chains[b := Replace(chains[b], p, h)])
            == ItemsOf(chains) - (if p < |chains[b]| then {chains[b][p]} else {}) + {h}
  {
    var chains' := chains[b := Replace(chains[b], p, h)];
    var gone := if p < |chains[b]| then {chains[b][p]} else {};
    assert chains'[b][p] == h;
    forall x | x in ItemsOf(chains) - gone ensures x in ItemsOf(chains') {
      var c, i :| 0 <= c < |chains| && 0 <= i < |chains[c]| && chains[c][i] == x;
      assert chains'[c][i] == x;
    }
    forall x | x in ItemsOf(chains') && x != h ensures x in ItemsOf(chains) - gone {
      var c, i :| 0 <= c < |chains'| && 0 <= i < |chains'[c]| && chains'[c][i] == x;
      assert chains[c][i] == x;
    }
  }

  lemma CutItems(chains: seq<seq<LRUHandle>>, b: nat, p: nat)
    requires b < |chains| && p < |chains[b]|
    requires forall c, i :: 0 <= c < |chains| && 0 <= i < |chains[c]| && !(c == b && i == p)
               ==> chains[c][i] != chains[b][p]
    ensures ItemsOf(chains[b := chains[b][..p] + chains[b][p + 1..]]) == ItemsOf(chains) - {chains[b][p]}
  {
    var s := chains[b][..p] + chains[b][p + 1..];
    var chains' := chains[b := s];
    forall x | x in ItemsOf(chains) - {chains[b][p]} ensures x in ItemsOf(chains') {
      var c, i :| 0 <= c < |chains| && 0 <= i < |chains[c]| && chains[c][i] == x;
      assert chains'[c][if c == b && i > p then i - 1 else i] == x;
    }
    forall x | x in ItemsOf(chains') ensures x in ItemsOf(chains) - {chains[b][p]} {
      var c, i :| 0 <= c < |chains'| && 0 <= i < |chains'[c]| && chains'[c][i] == x;
      assert chains[c][if c == b && i >= p then i + 1 else i] == x;
    }
  }

  /** No handle is in two places. */
  lemma OncePlaced(links: map<LRUHandle, LRUHandle?>, heads: seq<LRUHandle?>, chains: seq<seq<LRUHandle>>,
                   length: nat, b: nat, p: nat)
    requires Buckets(links, heads, chains, length) && b < length && p < |chains[b]|
    ensures forall c, i :: 0 <= c < length && 0 <= i < |chains[c]| && !(c == b && i == p)
                           ==> chains[c][i] != chains[b][p]
  {
    forall c, i | 0 <= c < length && 0 <= i < |chains[c]| && chains[c][i] == chains[b][p] ensures c == b && i == p {
      assert SameKey(chains[c][i], chains[b][p]);
      assert chains[c][i].hash % length == c && chains[b][p].hash % length == b;
    }
  }

  /** Unlinking the handle at place p of bucket b. */
  lemma CutKeeps(links: map<LRUHandle, LRUHandle?>, heads: seq<LRUHandle?>, chains: seq<seq<LRUHandle>>,
                 length: nat, b: nat, p: nat, links': map<LRUHandle, LRUHandle?>, heads': seq<LRUHandle?>)
    requires Buckets(links, heads, chains, length) && b < length && p < |chains[b]|
    requires var result := chains[b][p];
             && heads' == (if p == 0 then heads[b := LinkOf(links, result)] else heads)
             && forall h :: h in ItemsOf(chains) && h != result ==>
                  h in links' && LinkOf(links', h) == LinkOf(links, if p > 0 && h == chains[b][p - 1] then result else h)
    ensures var chains' := chains[b := chains[b][..p] + chains[b][p + 1..]];
            Buckets(links', heads', chains', length) && ItemsOf(chains') == ItemsOf(chains) - {chains[b][p]}
    ensures chains[b][p] in ItemsOf(chains)
  {
    hide Chain, LinkAt;
    OncePlaced(links, heads, chains, length, b, p);
    CutItems(chains, b, p);
    var s := chains[b];
    assert forall i :: 0 <= i < |s| ==> s[i] in ItemsOf(chains);
    if p > 0 {
      OncePlaced(links, heads, chains, length, b, p - 1);
    }
    ChainCut(links, heads[b], s, p, links', heads'[b], b, length);
    assert forall h :: h in ItemsOf(chains) && h.hash % length != b ==> h != s[p] && (p > 0 ==> h != s[p - 1]);
    OneBucketChanged(links, heads, chains, length, links', heads', b, s[..p] + s[p + 1..]);
  }

  /** Putting h in place p of bucket b, over the handle that is there, if there is one. */
  lemma PutKeeps(links: map<LRUHandle, LRUHandle?>, heads: seq<LRUHandle?>, chains: seq<seq<LRUHandle>>,
                 length: nat, b: nat, p: nat, h: LRUHandle, links': map<LRUHandle, LRUHandle?>,
                 heads': seq<LRUHandle?>)
    requires Buckets(links, heads, chains, length) && p <= |chains[h.hash % length]| && h !in ItemsOf(chains)
    requires b == h.hash % length
    requires forall i :: 0 <= i < |chains[b]| && i != p ==> !SameKey(chains[b][i], h)
    requires heads' == if p == 0 then heads[b := h] else heads
    requires h in links' && LinkOf(links', h) == if p < |chains[b]| then LinkOf(links, chains[b][p]) else null
    requires forall x :: x in ItemsOf(chains) ==>
               x in links' && LinkOf(links', x) == if p > 0 && x == chains[b][p - 1] then h else LinkOf(links, x)
    ensures var chains' := chains[b := Replace(chains[b], p, h)];
            && Buckets(links', heads', chains', length)
            && ItemsOf(chains') == ItemsOf(chains) - (if p < |chains[b]| then {chains[b][p]} else {}) + {h}
  {
    hide Chain, LinkAt;
    var s := chains[b];
    assert forall i :: 0 <= i < |s| ==> s[i] in ItemsOf(chains);
    if p < |s| {
      OncePlaced(links, heads, chains, length, b, p);
    }
    if p > 0 {
      OncePlaced(links, heads, chains, length, b, p - 1);
    }
    ReplacedItems(chains, b, p, h);
    ChainReplaced(links, heads[b], s, p, h, links', heads'[b], b, length);
    assert forall x :: x in ItemsOf(chains) && x.hash % length != b ==> (p > 0 ==> x != s[p - 1]);
    OneBucketChanged(links, heads, chains, length, links', heads', b, Replace(s, p, h));
  }

  /** Links of handles that are not in the table do not matter. */
  lemma FewerLinks(links: map<LRUHandle, LRUHandle?>, links': map<LRUHandle, LRUHandle?>, heads: seq<LRUHandle?>,
                   chains: seq<seq<LRUHandle>>, length: nat)
    requires Buckets(links, heads, chains, length)
    requires forall h :: h in ItemsOf(chains) ==> h in links' && LinkOf(links', h) == LinkOf(links, h)
    ensures Buckets(links', heads, chains, length)
  {
    forall b | 0 <= b < length ensures Chain(links', heads[b], chains[b]) {
      forall h | h in chains[b] ensures h in ItemsOf(chains) {
      }
      ChainUntouched(links, links', heads[b], chains[b]);
    }
  }

  lemma OneIn(S: set<LRUHandle>, h: LRUHandle, gone: LRUHandle?)
    requires h !in S && (gone != null ==> gone in S)
    ensures |S - (if gone == null then {} else {gone}) + {h}| == |S| + if gone == null then 1 else 0
  {
    if gone != null {
      assert |S - {gone}| == |S| - 1;
    } else {
      assert S - {} + {h} == S + {h};
    }
  }

  class HandleTable {
    var length: nat
    var elems: nat
    var list: array<LRUHandle?>

    /** The handles of each bucket, in chain order. */
    ghost var chains: seq<seq<LRUHandle>>

    /** An empty table starts with four buckets. */
    constructor ()
      ensures Valid() && Items() == {} && fresh(list)
    {
      length, elems := 4, 0;
      list := new LRUHandle?[4](i => null);
      chains := [[], [], [], []];
    }

    ghost function Items(): set<LRUHandle>
      reads this
    {
      ItemsOf(chains)
    }

    ghost function Links(S: set<LRUHandle>): map<LRUHandle, LRUHandle?>
      reads S`nextHash
    {
      map h | h in S :: h.nextHash
    }

    ghost predicate Valid()
      reads this, list, Items()`nextHash
    {
      && list.Length == length && PowerOf2(length) && elems == |Items()| <= length
      && Buckets(Links(Items()), list[..], chains, length)
    }

    /** The handle at a place of a chain is one of the items. */
    lemma AtPlace(b: nat, p: nat)
      requires Valid() && b < length && p <= |chains[b]|
      ensures p < |chains[b]| ==> chains[b][p] in Items()
      ensures p > 0 ==> chains[b][p - 1] in Items() && (p < |chains[b]| ==> chains[b][p] != chains[b][p - 1])
    {
      if 0 < p < |chains[b]| {
        OncePlaced(Links(Items()), list[..], chains, length, b, p);
      }
    }

    /** The slot that FindPointer returns: a bucket, or the link of the handle before. */
    function Slot(b: nat, before: LRUHandle?): LRUHandle?
      requires b < list.Length
      reads this, list, before
    {
      if before == null then list[b] else before.nextHash
    }

    method SetSlot(b: nat, before: LRUHandle?, h: LRUHandle?)
      requires b < list.Length
      modifies list, (if before == null then {} else {before})`nextHash
      ensures if before == null then list[..] == old(list[..])[b := h]
              else before.nextHash == h && list[..] == old(list[..])
    {
      if before == null {
        list[b] := h;
      } else {
        before.nextHash := h;
      }
    }

    /** FindPointer: p is the place in the chain, its end if there is no such key. */
    method FindPointer(key: Bytes, hash: Word) returns (b: nat, before: LRUHandle?, ghost p: nat)
      requires Valid()
      ensures b == hash % length && p <= |chains[b]| && before == (if p == 0 then null else chains[b][p - 1])
      ensures Slot(b, before) == (if p < |chains[b]| then chains[b][p] else null)
      ensures p < |chains[b]| ==> chains[b][p].hash == hash && chains[b][p].key == key
      ensures p == |chains[b]| ==> Lacks(chains, key, hash)
      ensures Valid()
    {
      MaskIsRemainder(hash, length);
      b := And(hash, length - 1);
      before := null;
      p := 0;
      assert Chain(Links(Items()), list[..][b], chains[b]);
      while Slot(b, before) != null && (Slot(b, before).hash != hash || key != Slot(b, before).key)
        invariant p <= |chains[b]| && before == (if p == 0 then null else chains[b][p - 1])
        invariant Slot(b, before) == (if p < |chains[b]| then chains[b][p] else null)
        invariant forall i :: 0 <= i < p ==> !(chains[b][i].hash == hash && chains[b][i].key == key)
        decreases |chains[b]| - p
      {
        before := Slot(b, before);
        p := p + 1;
        assert before in Items() && LinkAt(Links(Items()), chains[b], p - 1);
      }
      if p == |chains[b]| {
        OnlyInItsBucket(Links(Items()), list[..], chains, length, key, hash);
      }
    }

    method Lookup(key: Bytes, hash: Word) returns (h: LRUHandle?)
      requires Valid()
      ensures h == null ==> forall x :: x in Items() ==> !(x.key == key && x.hash == hash)
      ensures h != null ==> h in Items() && h.key == key && h.hash == hash
    {
      var b, before, p := FindPointer(key, hash);
      h := Slot(b, before);
    }

    method Remove(key: Bytes, hash: Word) returns (result: LRUHandle?)
      requires Valid()
      modifies this, list, Items()`nextHash
      ensures Valid() && list == old(list)
      ensures forall h :: h in Items() ==> !(h.key == key && h.hash == hash)
      ensures result == null ==> Items() == old(Items())
      ensures result != null ==> result in old(Items()) && result.key == key && result.hash == hash
                                 && Items() == old(Items()) - {result}
    {
      hide Buckets, ItemsOf, Lacks;
      LengthIsRight();
      var b, before, p := FindPointer(key, hash);
      result := Slot(b, before);
      LacksMeansNone(chains, key, hash);
      if result != null {
        AtPlace(b, p);
        OnlyOne(result);
        Unlink(b, before, p);
      }
    }

    /** The table has a key once only. */
    lemma OnlyOne(h: LRUHandle)
      requires Valid() && h in Items()
      ensures forall x :: x in Items() && SameKey(x, h) ==> x == h
    {
      forall x | x in Items() && SameKey(x, h) ensures x == h {
        var b, i :| 0 <= b < |chains| && 0 <= i < |chains[b]| && chains[b][i] == x;
        var c, j :| 0 <= c < |chains| && 0 <= j < |chains[c]| && chains[c][j] == h;
        assert InBucket(chains[b], b, length) && InBucket(chains[c], c, length);
      }
    }

    lemma LengthIsRight()
      requires Valid()
      ensures list.Length == length == |chains| && length > 0
    {
    }

    method Unlink(b: nat, before: LRUHandle?, ghost p: nat)
      requires Valid() && b < length && p < |chains[b]| && before == (if p == 0 then null else chains[b][p - 1])
      requires Slot(b, before) == chains[b][p]
      modifies this, list, Items()`nextHash
      ensures Valid() && list == old(list) && Items() == old(Items()) - {old(chains[b][p])}
      ensures old(chains[b][p]) in old(Items())
    {
      hide Buckets, ItemsOf, Chain, InBucket, LinkAt;
      LengthIsRight();
      ghost var links, heads, all := Links(Items()), list[..], chains;
      AtPlace(b, p);
      var result := Slot(b, before);
      SetSlot(b, before, result.nextHash);
      elems := elems - 1;
      ghost var links' := Links(old(Items()));
      assert forall h :: h in ItemsOf(all) && h != result ==>
        LinkOf(links', h) == LinkOf(links, if p > 0 && h == all[b][p - 1] then result else h);
      CutKeeps(links, heads, all, length, b, p, links', list[..]);
      chains := chains[b := all[b][..p] + all[b][p + 1..]];
      FewerLinks(links', Links(Items()), list[..], chains, length);
    }

    /** Insert: the handle takes the place of one with the same key, or goes to the end of its chain. */
    method Insert(h: LRUHandle) returns (replaced: LRUHandle?)
      requires Valid() && h !in Items()
      modifies this, list, (Items() + {h})`nextHash
      ensures Valid() && (list == old(list) || fresh(list))
      ensures if elems > old(length) then fresh(list) && LengthFor(length, elems)
              else list == old(list) && length == old(length)
      ensures forall x :: x in Items() && SameKey(x, h) ==> x == h
      ensures replaced == null ==> Items() == old(Items()) + {h}
      ensures replaced != null ==> replaced in old(Items()) && SameKey(replaced, h)
                                   && Items() == old(Items()) - {replaced} + {h}
    {
      hide Buckets, ItemsOf, Lacks;
      LengthIsRight();
      var b, before, p := FindPointer(h.key, h.hash);
      replaced := Slot(b, before);
      LacksMeansNone(chains, h.key, h.hash);
      Link(b, before, p, h);
      OneIn(old(Items()), h, replaced);
      if replaced == null {
        CountOneMore();
      }
      OnlyOne(h);
    }

    method CountOneMore()
      requires Linked() && elems + 1 == |Items()| && elems <= length
      modifies this, Items()`nextHash
      ensures Valid() && Items() == old(Items())
      ensures if elems > old(length) then fresh(list) && LengthFor(length, elems)
              else list == old(list) && length == old(length)
    {
      hide Buckets, ItemsOf, PowerOf2;
      elems := elems + 1;
      if elems > length {
        Resize();
      }
    }

    /** The table but for its count, which Insert raises a little later. */
    ghost predicate Linked()
      reads this, list, Items()`nextHash
    {
      list.Length == length && PowerOf2(length) && Buckets(Links(Items()), list[..], chains, length)
    }

    method Link(b: nat, before: LRUHandle?, ghost p: nat, h: LRUHandle)
      requires Valid() && h !in Items() && b == h.hash % length && p <= |chains[b]|
      requires before == (if p == 0 then null else chains[b][p - 1])
      requires Slot(b, before) == (if p < |chains[b]| then chains[b][p] else null)
      requires if p < |chains[b]| then SameKey(chains[b][p], h) else Lacks(chains, h.key, h.hash)
      modifies this`chains, list, (Items() + {h})`nextHash
      ensures Linked() && Items() == old(Items()) - (if old(p < |chains[b]|) then {old(chains[b][p])} else {}) + {h}
      ensures old(p < |chains[b]|) ==> old(chains[b][p]) in old(Items())
    {
      hide Buckets, ItemsOf, Chain, InBucket, LinkAt, Lacks;
      LengthIsRight();
      NoOther(b, p, h);
      AtPlace(b, p);
      ghost var all, items := chains, Items();
      ghost var links, heads := Links(items), list[..];
      StoreLinks(b, before, h, items);
      PutKeeps(links, heads, all, length, b, p, h, Links(items + {h}), list[..]);
      chains := chains[b := Replace(all[b], p, h)];
      FewerLinks(Links(items + {h}), Links(Items()), list[..], chains, length);
    }

    /** The two stores: the handle leads on to what its slot led on to, and the slot leads to it. */
    method StoreLinks(b: nat, before: LRUHandle?, h: LRUHandle, ghost S: set<LRUHandle>)
      requires b < list.Length && h !in S && (before != null ==> before in S)
      requires Slot(b, before) != null ==> Slot(b, before) in S && Slot(b, before) != before
      modifies list, (S + {h})`nextHash
      ensures h.nextHash == var there := old(Slot(b, before)); if there == null then null else old(LinkOf(Links(S), there))
      ensures forall x :: x in S ==> LinkOf(Links(S + {h}), x) == if x == before then h else old(LinkOf(Links(S), x))
      ensures list[..] == if before == null then old(list[..])[b := h] else old(list[..])
    {
      var there := Slot(b, before);
      h.nextHash := if there == null then null else there.nextHash;
      SetSlot(b, before, h);
    }

    /** No other handle of the bucket has the key. */
    lemma NoOther(b: nat, p: nat, h: LRUHandle)
      requires Valid() && b < length && p <= |chains[b]|
      requires if p < |chains[b]| then SameKey(chains[b][p], h) else Lacks(chains, h.key, h.hash)
      ensures forall i :: 0 <= i < |chains[b]| && i != p ==> !SameKey(chains[b][i], h)
    {
      assert InBucket(chains[b], b, length);
      forall i | 0 <= i < |chains[b]| && i != p ensures !SameKey(chains[b][i], h) {
        assert chains[b][i] in ItemsOf(chains);
        assert p < |chains[b]| ==> !SameKey(chains[b][if i < p then i else p], chains[b][if i < p then p else i]);
      }
    }

    /** Resize: every handle moves to the front of its bucket in a longer list. */
    method Resize()
      requires Linked() && elems == |Items()|
      modifies this, Items()`nextHash
      ensures Valid() && fresh(list) && Items() == old(Items()) && LengthFor(length, elems) && elems == old(elems)
    {
      hide Buckets, ItemsOf, Chain, InBucket, LinkAt, Lacks;
      var newLength := 4;
      while newLength < elems
        invariant newLength >= 4 && PowerOf2(newLength) && (newLength > 4 ==> newLength / 2 < elems)
        decreases elems - newLength
      {
        newLength := newLength * 2;
      }
      ghost var items := Items();
      StillFacts(items);
      var newList := new LRUHandle?[newLength](i => null);
      ghost var newChains: seq<seq<LRUHandle>> := seq(newLength, i => []);
      EmptyBuckets(Links(items), newList[..], newChains, newLength);
      NothingBefore(chains);
      ghost var oldChains := chains;
      for i := 0 to length
        invariant chains == oldChains && elems == |items| && list.Length == length == |chains|
        invariant Items() == items && fresh(newList) && newList != list
        invariant newList.Length == newLength == |newChains| && Buckets(Links(items), newList[..], newChains, newLength)
        invariant ItemsOf(newChains) == ItemsOf(chains[..i])
        invariant Unmoved(Links(items), list[..], chains, i)
      {
        newChains := MoveBucket(i, newList, newLength, newChains);
      }
      assert chains[..length] == chains;
      list := newList;
      length := newLength;
      chains := newChains;
    }

    lemma StillFacts(items: set<LRUHandle>)
      requires Linked() && items == Items()
      ensures list.Length == length == |chains| && length > 0
      ensures Unmoved(Links(items), list[..], chains, 0)
    {
      forall c, k, d, l | 0 <= c < |chains| && 0 <= k < |chains[c]| && 0 <= d < |chains| && 0 <= l < |chains[d]|
                          && SameKey(chains[c][k], chains[d][l])
        ensures c == d && k == l
      {
        assert InBucket(chains[c], c, length) && InBucket(chains[d], d, length);
        assert chains[c][k].hash % length == c && chains[d][l].hash % length == d;
      }
    }

    /** Emptying one bucket of the old list into the new one. */
    method MoveBucket(i: nat, newList: array<LRUHandle?>, newLength: nat, ghost newChains: seq<seq<LRUHandle>>)
      returns (ghost newChains': seq<seq<LRUHandle>>)
      requires list.Length == length == |chains| && i < length && newList != list
      requires newList.Length == newLength == |newChains| && PowerOf2(newLength)
      requires Buckets(Links(Items()), newList[..], newChains, newLength)
      requires ItemsOf(newChains) == ItemsOf(chains[..i]) && Unmoved(Links(Items()), list[..], chains, i)
      modifies newList, Items()`nextHash
      ensures |newChains'| == newLength && Buckets(Links(Items()), newList[..], newChains', newLength)
      ensures ItemsOf(newChains') == ItemsOf(chains[..i + 1]) && Unmoved(Links(Items()), list[..], chains, i + 1)
    {
      hide Buckets, ItemsOf, Chain, InBucket, LinkAt, Lacks, Unmoved;
      ghost var items := Items();
      newChains' := newChains;
      var h := list[i];
      ghost var q := 0;
      assert chains[i][0..] == chains[i];
      BucketStarts(Links(items), list[..], chains, i);
      while h != null
        invariant q <= |chains[i]| && newList.Length == newLength == |newChains'|
        invariant Buckets(Links(items), newList[..], newChains', newLength)
        invariant ItemsOf(newChains') == ItemsOf(chains[..i]) + Elements(chains[i][..q])
        invariant Chain(Links(items), h, chains[i][q..]) && Unmoved(Links(items), list[..], chains, i + 1)
        decreases |chains[i]| - q
      {
        ChainFront(Links(items), h, q, chains, i);
        ghost var links, heads := Links(items), newList[..];
        var next := h.nextHash;
        MaskIsRemainder(h.hash, newLength);
        var b := And(h.hash, newLength - 1);
        h.nextHash := newList[b];
        newList[b] := h;
        OneMoved(links, Links(items), heads, newList[..], list[..], chains, newChains', newLength, i, q, h);
        newChains' := newChains'[b := [h] + newChains'[b]];
        h := next;
        q := q + 1;
      }
      BucketEnds(Links(items), chains, i, q);
    }
  }

  ghost function Elements(s: seq<LRUHandle>): set<LRUHandle> {
    set h | h in s
  }

  /** The buckets from i on are as they were, and no key occurs twice. */
  ghost predicate Unmoved(links: map<LRUHandle, LRUHandle?>, heads: seq<LRUHandle?>, chains: seq<seq<LRUHandle>>,
                          i: nat)
  {
    && |heads| == |chains| && (forall c :: i <= c < |chains| ==> Chain(links, heads[c], chains[c]))
    && OnePlaceEach(chains)
  }

  ghost predicate OnePlaceEach(chains: seq<seq<LRUHandle>>) {
    forall c, k, d, l | 0 <= c < |chains| && 0 <= k < |chains[c]| && 0 <= d < |chains| && 0 <= l < |chains[d]| ::
      SameKey(chains[c][k], chains[d][l]) ==> c == d && k == l
  }

  lemma EmptyBuckets(links: map<LRUHandle, LRUHandle?>, heads: seq<LRUHandle?>, chains: seq<seq<LRUHandle>>,
                     length: nat)
    requires length > 0 && |heads| == length == |chains|
    requires forall b :: 0 <= b < length ==> heads[b] == null && chains[b] == []
    ensures Buckets(links, heads, chains, length) && ItemsOf(chains) == {}
  {
  }

  lemma NothingBefore(chains: seq<seq<LRUHandle>>)
    ensures ItemsOf(chains[..0]) == {}
  {
  }

  lemma BucketStarts(links: map<LRUHandle, LRUHandle?>, heads: seq<LRUHandle?>, chains: seq<seq<LRUHandle>>, i: nat)
    requires Unmoved(links, heads, chains, i) && i < |chains|
    ensures |heads| == |chains| && Chain(links, heads[i], chains[i]) && Elements(chains[i][..0]) == {}
    ensures Unmoved(links, heads, chains, i + 1)
  {
  }

  lemma ChainFront(links: map<LRUHandle, LRUHandle?>, h: LRUHandle, q: nat, chains: seq<seq<LRUHandle>>, i: nat)
    requires i < |chains| && q <= |chains[i]| && Chain(links, h, chains[i][q..])
    ensures q < |chains[i]| && h == chains[i][q] && h in ItemsOf(chains) && h in links
  {
    assert LinkAt(links, chains[i][q..], 0);
  }

  lemma BucketEnds(links: map<LRUHandle, LRUHandle?>, chains: seq<seq<LRUHandle>>, i: nat, q: nat)
    requires i < |chains| && q <= |chains[i]| && Chain(links, null, chains[i][q..])
    ensures q == |chains[i]| && ItemsOf(chains[..i + 1]) == ItemsOf(chains[..i]) + Elements(chains[i][..q])
  {
    assert chains[i][..q] == chains[i];
    forall h | h in ItemsOf(chains[..i]) + Elements(chains[i]) ensures h in ItemsOf(chains[..i + 1]) {
      if h in chains[i] {
        var k :| 0 <= k < |chains[i]| && chains[i][k] == h;
        assert chains[..i + 1][i][k] == h;
      } else {
        var c, k :| 0 <= c < i && 0 <= k < |chains[c]| && chains[..i][c][k] == h;
        assert chains[..i + 1][c][k] == h;
      }
    }
    forall h | h in ItemsOf(chains[..i + 1]) ensures h in ItemsOf(chains[..i]) + Elements(chains[i]) {
      var c, k :| 0 <= c < i + 1 && 0 <= k < |chains[c]| && chains[..i + 1][c][k] == h;
      if c < i {
        assert chains[..i][c][k] == h;
      }
    }
  }

  /** Moving the handle at place q of the old bucket i to the front of its new bucket. */
  lemma OneMoved(links: map<LRUHandle, LRUHandle?>, links': map<LRUHandle, LRUHandle?>, heads: seq<LRUHandle?>,
                 heads': seq<LRUHandle?>, oldHeads: seq<LRUHandle?>, chains: seq<seq<LRUHandle>>,
                 newChains: seq<seq<LRUHandle>>, newLength: nat, i: nat, q: nat, h: LRUHandle)
    requires Buckets(links, heads, newChains, newLength)
    requires i < |chains| && q < |chains[i]| && h == chains[i][q] && Chain(links, h, chains[i][q..])
    requires ItemsOf(newChains) == ItemsOf(chains[..i]) + Elements(chains[i][..q])
    requires Unmoved(links, oldHeads, chains, i + 1)
    requires var b := h.hash % newLength; heads' == heads[b := h] && links' == links[h := heads[b]]
    ensures Buckets(links', heads', newChains[h.hash % newLength := [h] + newChains[h.hash % newLength]], newLength)
    ensures ItemsOf(newChains[h.hash % newLength := [h] + newChains[h.hash % newLength]])
            == ItemsOf(chains[..i]) + Elements(chains[i][..q + 1])
    ensures Chain(links', LinkOf(links, h), chains[i][q + 1..]) && Unmoved(links', oldHeads, chains, i + 1)
  {
    NotYetMoved(newChains, chains, i, q, h, links, oldHeads);
    PushFront(links, heads, newChains, newLength, h);
    assert chains[i][..q + 1] == chains[i][..q] + [h];
    assert Elements(chains[i][..q + 1]) == Elements(chains[i][..q]) + {h};
    RestStays(links, links', oldHeads, chains, i, q, h);
  }

  lemma NotYetMoved(newChains: seq<seq<LRUHandle>>, chains: seq<seq<LRUHandle>>, i: nat, q: nat, h: LRUHandle,
                    links: map<LRUHandle, LRUHandle?>, oldHeads: seq<LRUHandle?>)
    requires i < |chains| && q < |chains[i]| && h == chains[i][q] && Unmoved(links, oldHeads, chains, i + 1)
    requires ItemsOf(newChains) == ItemsOf(chains[..i]) + Elements(chains[i][..q])
    ensures forall x :: x in ItemsOf(newChains) ==> !SameKey(x, h)
  {
    forall x | x in ItemsOf(newChains) ensures !SameKey(x, h) {
      if x in ItemsOf(chains[..i]) {
        var c, k :| 0 <= c < i && 0 <= k < |chains[c]| && chains[..i][c][k] == x;
        assert chains[c][k] == x;
      } else {
        var k :| 0 <= k < q && chains[i][..q][k] == x;
        assert chains[i][k] == x;
      }
    }
  }

  lemma PushFront(links: map<LRUHandle, LRUHandle?>, heads: seq<LRUHandle?>, chains: seq<seq<LRUHandle>>,
                  length: nat, h: LRUHandle)
    requires Buckets(links, heads, chains, length) && forall x :: x in ItemsOf(chains) ==> !SameKey(x, h)
    ensures var b := h.hash % length;
            var chains' := chains[b := [h] + chains[b]];
            && Buckets(links[h := heads[b]], heads[b := h], chains', length)
            && ItemsOf(chains') == ItemsOf(chains) + {h}
  {
    var b := h.hash % length;
    var links' := links[h := heads[b]];
    var s, s' := chains[b], [h] + chains[b];
    assert forall i :: 0 <= i < |s| ==> s[i] in ItemsOf(chains);
    forall i | 0 <= i < |s'| ensures LinkAt(links', s', i) {
      assert i > 0 ==> LinkAt(links, s, i - 1) && s[i - 1] != h;
    }
    forall x | x in ItemsOf(chains) ensures x in links && x != h {
      var c, k :| 0 <= c < length && 0 <= k < |chains[c]| && chains[c][k] == x;
      assert Chain(links, heads[c], chains[c]) && LinkAt(links, chains[c], k);
      assert SameKey(h, h);
    }
    OneBucketChanged(links, heads, chains, length, links', heads[b := h], b, s');
    PushedItems(chains, b, h);
  }

  lemma PushedItems(chains: seq<seq<LRUHandle>>, b: nat, h: LRUHandle)
    requires b < |chains|
    ensures ItemsOf(chains[b := [h] + chains[b]]) == ItemsOf(chains) + {h}
  {
    var chains' := chains[b := [h] + chains[b]];
    assert chains'[b][0] == h;
    forall x | x in ItemsOf(chains) ensures x in ItemsOf(chains') {
      var c, k :| 0 <= c < |chains| && 0 <= k < |chains[c]| && chains[c][k] == x;
      assert chains'[c][if c == b then k + 1 else k] == x;
    }
    forall x | x in ItemsOf(chains') && x != h ensures x in ItemsOf(chains) {
      var c, k :| 0 <= c < |chains'| && 0 <= k < |chains'[c]| && chains'[c][k] == x;
      assert chains[c][if c == b then k - 1 else k] == x;
    }
  }

  /** What has not been moved yet is linked as before. */
  lemma RestStays(links: map<LRUHandle, LRUHandle?>, links': map<LRUHandle, LRUHandle?>, oldHeads: seq<LRUHandle?>,
                  chains: seq<seq<LRUHandle>>, i: nat, q: nat, h: LRUHandle)
    requires i < |chains| && q < |chains[i]| && h == chains[i][q] && Chain(links, h, chains[i][q..])
    requires Unmoved(links, oldHeads, chains, i + 1)
    requires forall x :: x in links && x != h ==> x in links' && LinkOf(links', x) == LinkOf(links, x)
    ensures Chain(links', LinkOf(links, h), chains[i][q + 1..]) && Unmoved(links', oldHeads, chains, i + 1)
  {
    var s, s' := chains[i][q..], chains[i][q + 1..];
    assert LinkAt(links, s, 0);
    forall k | 0 <= k < |s'| ensures LinkAt(links', s', k) {
      assert LinkAt(links, s, k + 1) && s'[k] == s[k + 1];
      assert SameKey(chains[i][q + 1 + k], chains[i][q]) ==> q + 1 + k == q;
      assert s'[k] != h;
    }
    forall c | i + 1 <= c < |chains| ensures Chain(links', oldHeads[c], chains[c]) {
      forall k | 0 <= k < |chains[c]| ensures LinkAt(links', chains[c], k) {
        assert LinkAt(links, chains[c], k);
        assert SameKey(chains[c][k], chains[i][q]) ==> c == i;
      }
    }
  }
}
