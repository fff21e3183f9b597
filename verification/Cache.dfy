/** One shard of the LRU cache (util/cache.cc): every cached entry is on one of two rings, the LRU ring
  * while only the cache refers to it, the in-use ring while clients do.
  */
module Caches {
  import opened InternalKeys
  import opened Coding
  import opened HandleTables

  // ---- rings ----------------------------------------------------------------------------------------

  type Links = map<LRUHandle, LRUHandle?>

  /** The head, then the entries from oldest to newest. */
  function Around(head: LRUHandle, s: seq<LRUHandle>): seq<LRUHandle> {
    [head] + s
  }

  function After(c: seq<LRUHandle>, i: nat): LRUHandle
    requires i < |c|
  {
    if i + 1 < |c| then c[i + 1] else c[0]
  }

  ghost predicate RingAt(next: Links, prev: Links, c: seq<LRUHandle>, i: nat)
    requires i < |c|
  {
    && c[i] in next && next[c[i]] == After(c, i)
    && After(c, i) in prev && prev[After(c, i)] == c[i]
  }

  ghost predicate Distinct(c: seq<LRUHandle>) {
    forall i, j :: 0 <= i < j < |c| ==> c[i] != c[j]
  }

  ghost predicate Ring(next: Links, prev: Links, head: LRUHandle, s: seq<LRUHandle>) {
    var c := Around(head, s);
    Distinct(c) && forall i :: 0 <= i < |c| ==> RingAt(next, prev, c, i)
  }

  function Without(s: seq<LRUHandle>, k: nat): (r: seq<LRUHandle>)
    requires k < |s|
    ensures |r| == |s| - 1 && forall i :: 0 <= i < |r| ==> r[i] == if i < k then s[i] else s[i + 1]
  {
    s[..k] + s[k + 1..]
  }

  /** LRU_Remove: its neighbours are linked to each other. */
  lemma RingRemove(next: Links, prev: Links, head: LRUHandle, s: seq<LRUHandle>, k: nat)
    requires Ring(next, prev, head, s) && k < |s|
    ensures s[k] in next && s[k] in prev && next[s[k]] != null && prev[s[k]] != null
    ensures Ring(next[prev[s[k]] := next[s[k]]], prev[next[s[k]] := prev[s[k]]], head, Without(s, k))
  {
    var c, e := Around(head, s), s[k];
    assert c[k + 1] == e && RingAt(next, prev, c, k) && RingAt(next, prev, c, k + 1);
    var next', prev' := next[prev[e] := next[e]], prev[next[e] := prev[e]];
    var c' := Around(head, Without(s, k));
    assert forall i :: 0 <= i < |c'| ==> c'[i] == c[if i <= k then i else i + 1];
    forall i | 0 <= i < |c'| ensures RingAt(next', prev', c', i) {
      var j := if i <= k then i else i + 1;
      assert c'[i] == c[j] && RingAt(next, prev, c, j);
    }
  }

  /** LRU_Append: e becomes the newest, just before the head. */
  lemma RingAppend(next: Links, prev: Links, head: LRUHandle, s: seq<LRUHandle>, e: LRUHandle)
    requires Ring(next, prev, head, s) && e !in Around(head, s)
    ensures head in prev && prev[head] != null
    ensures var last := prev[head];
            Ring(next[e := head][last := e], prev[e := last][head := e], head, s + [e])
  {
    var c := Around(head, s);
    assert RingAt(next, prev, c, |c| - 1);
    var last := prev[head];
    var next', prev' := next[e := head][last := e], prev[e := last][head := e];
    var c' := Around(head, s + [e]);
    assert c' == c + [e];
    forall i | 0 <= i < |c'| ensures RingAt(next', prev', c', i) {
      assert i < |c| ==> RingAt(next, prev, c, i);
    }
  }

  lemma RingUntouched(next: Links, prev: Links, next': Links, prev': Links, head: LRUHandle, s: seq<LRUHandle>)
    requires Ring(next, prev, head, s)
    requires forall h :: h in Around(head, s) ==>
               (h in next ==> h in next' && next'[h] == next[h]) && (h in prev ==> h in prev' && prev'[h] == prev[h])
    ensures Ring(next', prev', head, s)
  {
    var c := Around(head, s);
    forall i | 0 <= i < |c| ensures RingAt(next', prev', c, i) {
      assert RingAt(next, prev, c, i) && After(c, i) in c;
    }
  }

  lemma EmptyRing(next: Links, prev: Links, head: LRUHandle)
    requires head in next && next[head] == head && head in prev && prev[head] == head
    ensures Ring(next, prev, head, [])
  {
  }

  ghost predicate Apart(head: LRUHandle, s: seq<LRUHandle>, other: LRUHandle, t: seq<LRUHandle>) {
    forall h :: h in Around(head, s) ==> h !in Around(other, t)
  }

  lemma ApartTurned(head: LRUHandle, s: seq<LRUHandle>, other: LRUHandle, t: seq<LRUHandle>)
    requires Apart(head, s, other, t)
    ensures Apart(other, t, head, s)
  {
  }

  lemma ApartWithout(head: LRUHandle, s: seq<LRUHandle>, k: nat, other: LRUHandle, t: seq<LRUHandle>)
    requires Apart(head, s, other, t) && k < |s|
    ensures Apart(head, Without(s, k), other, t) && Apart(other, t, head, Without(s, k))
    ensures s[k] !in t && head != other
  {
    forall h | h in Around(head, Without(s, k)) ensures h in Around(head, s) {
    }
    assert s[k] in Around(head, s) && head in Around(head, s);
  }

  lemma ApartAppend(head: LRUHandle, s: seq<LRUHandle>, e: LRUHandle, other: LRUHandle, t: seq<LRUHandle>)
    requires Apart(head, s, other, t) && e !in Around(other, t)
    ensures Apart(head, s + [e], other, t) && Apart(other, t, head, s + [e])
  {
  }

  /** Removing from one of two rings leaves the other alone. */
  lemma RingsRemove(next: Links, prev: Links, head: LRUHandle, s: seq<LRUHandle>, k: nat, other: LRUHandle,
                    t: seq<LRUHandle>)
    requires Ring(next, prev, head, s) && k < |s| && Ring(next, prev, other, t) && Apart(head, s, other, t)
    ensures var e := s[k];
            && e in next && e in prev && next[e] != null && prev[e] != null
            && next[e] in Around(head, s) && prev[e] in Around(head, s) && next[e] != e && prev[e] != e
            && var next', prev' := next[prev[e] := next[e]], prev[next[e] := prev[e]];
               Ring(next', prev', head, Without(s, k)) && Ring(next', prev', other, t)
  {
    hide Ring;
    RingRemove(next, prev, head, s, k);
    Neighbours(next, prev, head, s, k);
    var e := s[k];
    RingUntouched(next, prev, next[prev[e] := next[e]], prev[next[e] := prev[e]], other, t);
  }

  lemma Neighbours(next: Links, prev: Links, head: LRUHandle, s: seq<LRUHandle>, k: nat)
    requires Ring(next, prev, head, s) && k < |s|
    ensures s[k] in next && s[k] in prev && next[s[k]] in Around(head, s) && prev[s[k]] in Around(head, s)
    ensures next[s[k]] != s[k] && prev[s[k]] != s[k]
  {
    var c := Around(head, s);
    assert c[k + 1] == s[k] && RingAt(next, prev, c, k) && RingAt(next, prev, c, k + 1);
    assert After(c, k) == c[k + 1];
    assert After(c, k + 1) in c && c[k] in c;
  }

  lemma RingsAppend(next: Links, prev: Links, head: LRUHandle, s: seq<LRUHandle>, e: LRUHandle, other: LRUHandle,
                    t: seq<LRUHandle>)
    requires Ring(next, prev, head, s) && Ring(next, prev, other, t) && Apart(head, s, other, t)
    requires e !in Around(head, s) && e !in Around(other, t)
    ensures head in prev && prev[head] != null && prev[head] in Around(head, s)
    ensures var last := prev[head];
            var next', prev' := next[e := head][last := e], prev[e := last][head := e];
            Ring(next', prev', head, s + [e]) && Ring(next', prev', other, t)
  {
    RingAppend(next, prev, head, s, e);
    var c := Around(head, s);
    assert RingAt(next, prev, c, |c| - 1) && c[|c| - 1] in c && After(c, |c| - 1) == head;
    hide Ring;
    var last := prev[head];
    RingUntouched(next, prev, next[e := head][last := e], prev[e := last][head := e], other, t);
  }

  lemma OldestIsNext(next: Links, prev: Links, head: LRUHandle, s: seq<LRUHandle>)
    requires Ring(next, prev, head, s)
    ensures head in next && next[head] == if s == [] then head else s[0]
  {
    assert RingAt(next, prev, Around(head, s), 0);
  }

  lemma RingIsDistinct(next: Links, prev: Links, head: LRUHandle, s: seq<LRUHandle>)
    requires Ring(next, prev, head, s)
    ensures Distinct(s)
  {
    var c := Around(head, s);
    forall i, j | 0 <= i < j < |s| ensures s[i] != s[j] {
      assert c[i + 1] != c[j + 1];
    }
  }

  lemma WithoutKeeps(s: seq<LRUHandle>, k: nat)
    requires k < |s| && Distinct(s)
    ensures forall h :: h in Without(s, k) <==> h in s && h != s[k]
  {
    WithoutElements(s, k);
    forall h ensures h in Without(s, k) <==> h in s && h != s[k] {
      assert h in Elements(Without(s, k)) <==> h in Elements(s) - {s[k]};
    }
  }

  lemma WithoutElements(s: seq<LRUHandle>, k: nat)
    requires k < |s| && Distinct(s)
    ensures Elements(Without(s, k)) == Elements(s) - {s[k]}
  {
    forall h | h in s && h != s[k] ensures h in Without(s, k) {
      var i :| 0 <= i < |s| && s[i] == h;
      assert Without(s, k)[if i < k then i else i - 1] == h;
    }
  }

  /** The two rings of a cache whose unfreed entries are `live`. */
  ghost predicate TwoRings(next: Links, prev: Links, live: set<LRUHandle>, lru: LRUHandle, lruList: seq<LRUHandle>,
                           inUse: LRUHandle, inUseList: seq<LRUHandle>)
  {
    && lru !in live && inUse !in live && Elements(lruList) + Elements(inUseList) <= live
    && Apart(lru, lruList, inUse, inUseList) && Ring(next, prev, lru, lruList) && Ring(next, prev, inUse, inUseList)
  }

  /** Splicing out an entry of the one ring or the other. */
  lemma TwoRingsWithout(next: Links, prev: Links, live: set<LRUHandle>, lru: LRUHandle, lruList: seq<LRUHandle>,
                        inUse: LRUHandle, inUseList: seq<LRUHandle>, k: nat)
    requires TwoRings(next, prev, live, lru, lruList, inUse, inUseList) && k < |lruList|
    ensures var e := lruList[k];
            && e in next && e in prev && next[e] != null && prev[e] != null && next[e] != e && prev[e] != e
            && next[e] in live + {lru} && prev[e] in live + {lru} && e in live && e !in inUseList
            && TwoRings(next[prev[e] := next[e]], prev[next[e] := prev[e]], live, lru, Without(lruList, k), inUse, inUseList)
            && TwoRings(next[prev[e] := next[e]], prev[next[e] := prev[e]], live, inUse, inUseList, lru, Without(lruList, k))
    ensures Elements(Without(lruList, k)) == Elements(lruList) - {lruList[k]}
  {
    hide Ring, Apart;
    RingsRemove(next, prev, lru, lruList, k, inUse, inUseList);
    ApartWithout(lru, lruList, k, inUse, inUseList);
    RingIsDistinct(next, prev, lru, lruList);
    WithoutElements(lruList, k);
    assert lruList[k] in Elements(lruList);
    assert forall h :: h in Around(lru, lruList) ==> h in live + {lru} by {
      forall h | h in Around(lru, lruList) ensures h in live + {lru} {
        assert h == lru || h in Elements(lruList);
      }
    }
  }

  lemma TwoRingsTurned(next: Links, prev: Links, live: set<LRUHandle>, lru: LRUHandle, lruList: seq<LRUHandle>,
                       inUse: LRUHandle, inUseList: seq<LRUHandle>)
    requires TwoRings(next, prev, live, lru, lruList, inUse, inUseList)
    ensures TwoRings(next, prev, live, inUse, inUseList, lru, lruList)
  {
    hide Ring;
    ApartTurned(lru, lruList, inUse, inUseList);
  }

  lemma TwoRingsWith(next: Links, prev: Links, live: set<LRUHandle>, lru: LRUHandle, lruList: seq<LRUHandle>,
                     inUse: LRUHandle, inUseList: seq<LRUHandle>, e: LRUHandle)
    requires TwoRings(next, prev, live, lru, lruList, inUse, inUseList)
    requires e in live && e !in lruList && e !in inUseList
    ensures lru in prev && prev[lru] != null && prev[lru] in live + {lru} && prev[lru] != e && lru != e
    ensures var last := prev[lru];
            && TwoRings(next[e := lru][last := e], prev[e := last][lru := e], live, lru, lruList + [e], inUse, inUseList)
            && TwoRings(next[e := lru][last := e], prev[e := last][lru := e], live, inUse, inUseList, lru, lruList + [e])
    ensures Elements(lruList + [e]) == Elements(lruList) + {e}
  {
    hide Ring, Apart;
    RingsAppend(next, prev, lru, lruList, e, inUse, inUseList);
    ApartAppend(lru, lruList, e, inUse, inUseList);
    assert prev[lru] == lru || prev[lru] in Elements(lruList);
  }

  /** An entry on neither ring makes no difference to them. */
  lemma MoreNodes(next: Links, prev: Links, next': Links, prev': Links, live: set<LRUHandle>, lru: LRUHandle,
                  lruList: seq<LRUHandle>, inUse: LRUHandle, inUseList: seq<LRUHandle>, e: LRUHandle)
    requires TwoRings(next, prev, live, lru, lruList, inUse, inUseList) && e !in live && e != lru && e != inUse
    requires forall h :: (h in next ==> h in next' && next'[h] == next[h])
    requires forall h :: (h in prev ==> h in prev' && prev'[h] == prev[h])
    ensures TwoRings(next', prev', live + {e}, lru, lruList, inUse, inUseList)
  {
    hide Ring;
    RingUntouched(next, prev, next', prev', lru, lruList);
    RingUntouched(next, prev, next', prev', inUse, inUseList);
  }

  // ---- charges --------------------------------------------------------------------------------------

  function Charges(s: seq<LRUHandle>): nat {
    if s == [] then 0 else Charges(s[..|s| - 1]) + s[|s| - 1].charge
  }

  lemma ChargesAppend(s: seq<LRUHandle>, e: LRUHandle)
    ensures Charges(s + [e]) == Charges(s) + e.charge
  {
    assert (s + [e])[..|s|] == s;
  }

  lemma {:induction false} ChargesWithout(s: seq<LRUHandle>, k: nat)
    requires k < |s|
    ensures Charges(s) == Charges(Without(s, k)) + s[k].charge
  {
    var n := |s| - 1;
    if k < n {
      ChargesWithout(s[..n], k);
      assert Without(s, k) == Without(s[..n], k) + [s[n]];
      ChargesAppend(Without(s[..n], k), s[n]);
    } else {
      assert Without(s, k) == s[..n];
    }
  }

  ghost function NextsOf(S: set<LRUHandle>): Links
    reads S`next
  {
    map h | h in S :: h.next
  }

  ghost function PrevsOf(S: set<LRUHandle>): Links
    reads S`prev
  {
    map h | h in S :: h.prev
  }

  /** The dummy head of an empty circular list. */
  method NewHead() returns (h: LRUHandle)
    ensures fresh(h) && h.next == h && h.prev == h
  {
    h := new LRUHandle([], 0, 0);
    h.next, h.prev := h, h;
  }

  /** References are outstanding handles plus the cache's own; entry e has d more than that. */
  ghost predicate CountedIn(S: set<LRUHandle>, cached: set<LRUHandle>, handles: multiset<LRUHandle>, e: LRUHandle?,
                            d: nat)
    reads S`inCache, S`refs
  {
    && (forall h :: h in S ==> (h.inCache <==> h in cached))
    && (forall h :: h in S ==> h.refs == handles[h] + One(h.inCache) + (if h == e then d else 0))
    && (forall h :: h in S ==> h.refs > 0)
    && (forall h :: h in handles ==> h in S)
  }

  method IncrementRefs(e: LRUHandle, ghost S: set<LRUHandle>, ghost cached: set<LRUHandle>,
                       ghost handles: multiset<LRUHandle>)
    requires e in S && CountedIn(S, cached, handles, null, 0)
    modifies e`refs
    ensures e.refs == old(e.refs) + 1 && CountedIn(S, cached, handles, e, 1)
  {
    e.refs := e.refs + 1;
  }

  /** The cache's own reference is no longer one that the entry ought to have. */
  method LeaveCache(e: LRUHandle, ghost S: set<LRUHandle>, ghost cached: set<LRUHandle>,
                    ghost handles: multiset<LRUHandle>)
    requires e in S && e in cached && CountedIn(S, cached, handles, null, 0)
    modifies e`inCache
    ensures !e.inCache && CountedIn(S, cached - {e}, handles, e, 1) && e.refs == handles[e] + 1
  {
    e.inCache := false;
  }

  method DecrementRefs(e: LRUHandle, ghost S: set<LRUHandle>, ghost cached: set<LRUHandle>,
                       ghost handles: multiset<LRUHandle>)
    requires e in S && CountedIn(S, cached, handles, e, 1)
    modifies e`refs
    ensures e.refs == old(e.refs) - 1 && (e.inCache <==> e in cached)
    ensures e.refs == 0 ==> !e.inCache && CountedIn(S - {e}, cached, handles, null, 0)
    ensures e.refs > 0 ==> CountedIn(S, cached, handles, null, 0)
  {
    e.refs := e.refs - 1;
  }

  class LRUCache {
    var capacity: nat
    var usage: nat
    const lru: LRUHandle
    const inUse: LRUHandle
    const table: HandleTable

    /** The rings, oldest entry first. */
    ghost var lruList: seq<LRUHandle>
    ghost var inUseList: seq<LRUHandle>

    /** Handles that clients have not yet released, and the entries that are not yet freed. */
    ghost var handles: multiset<LRUHandle>
    ghost var live: set<LRUHandle>

    /** All entries ever made, and those whose deleter has run, in that order. */
    ghost var inserted: set<LRUHandle>
    ghost var deleted: seq<LRUHandle>

    /** An empty shard; SetCapacity comes later in the code, and may be called at any time. */
    constructor (capacity: nat)
      ensures Valid() && this.capacity == capacity && Cached() == {} && handles == multiset{} && inserted == {}
      ensures fresh(Nodes()) && fresh(table) && fresh(table.list)
    {
      hide Valid, Cached, HandleTable.Valid, HandleTable.Items;
      this.capacity, usage := capacity, 0;
      var h1 := NewHead();
      var h2 := NewHead();
      lru, inUse := h1, h2;
      table := new HandleTable();
      lruList, inUseList, handles, live, inserted, deleted := [], [], multiset{}, {}, {}, [];
      new;
      StartsValid();
    }

    lemma StartsValid()
      requires lru != inUse && lru.next == lru && lru.prev == lru && inUse.next == inUse && inUse.prev == inUse
      requires live == {} && lruList == [] && inUseList == [] && deleted == [] && inserted == {}
      requires handles == multiset{} && usage == 0 && table.Valid() && table.Items() == {}
      ensures Valid() && Cached() == {}
    {
      EmptyRing(Nexts(), Prevs(), lru);
      EmptyRing(Nexts(), Prevs(), inUse);
      NobodyCounts(live, Cached(), handles);
    }

    ghost function Nodes(): set<LRUHandle>
      reads `live
    {
      live + {lru, inUse}
    }

    ghost function Nexts(): Links
      reads `live, Nodes()`next
    {
      NextsOf(Nodes())
    }

    ghost function Prevs(): Links
      reads `live, Nodes()`prev
    {
      PrevsOf(Nodes())
    }

    ghost function Cached(): set<LRUHandle>
      reads `lruList, `inUseList
    {
      Elements(lruList) + Elements(inUseList)
    }

    ghost predicate Rings()
      reads `live, `lruList, `inUseList, Nodes()`next, Nodes()`prev
    {
      TwoRings(Nexts(), Prevs(), live, lru, lruList, inUse, inUseList)
    }

    ghost predicate Counted(e: LRUHandle?, d: nat)
      reads `live, `handles, `lruList, `inUseList, live`inCache, live`refs
    {
      CountedIn(live, Cached(), handles, e, d)
    }

    /** The cache is charged for what it holds, and the deleter has run once for each entry freed. */
    ghost predicate Ledger()
      reads `usage, `live, `lruList, `inUseList, `inserted, `deleted
    {
      && usage == Charges(lruList) + Charges(inUseList)
      && live !! Elements(deleted) && Distinct(deleted) && inserted == live + Elements(deleted)
    }

    /** Entries are on the LRU ring while the cache alone refers to them. */
    ghost predicate Placed()
      reads `live, `lruList, `inUseList, live`refs
    {
      && (forall h :: h in lruList ==> h in live && h.refs == 1)
      && (forall h :: h in inUseList ==> h in live && h.refs >= 2)
    }

    /** The hash table holds the cached entries, except `missing`. */
    ghost predicate InTable(missing: set<LRUHandle>)
      reads `lruList, `inUseList, table, table.list, table.Items()`nextHash
    {
      table.Valid() && table.Items() == Cached() - missing
    }

    ghost predicate Valid()
      reads this, Nodes(), table, table.list, table.Items()
    {
      Rings() && Counted(null, 0) && Ledger() && Placed() && InTable({})
    }

    method LRU_Remove(e: LRUHandle) returns (ghost k: nat)
      requires Rings() && e in Cached()
      modifies this`lruList, this`inUseList, Nodes()`next, Nodes()`prev
      ensures Rings() && Cached() == old(Cached()) - {e} && e in live
      ensures if old(e in lruList) then
                && k < |old(lruList)| && old(lruList)[k] == e
                && lruList == Without(old(lruList), k) && inUseList == old(inUseList)
              else
                && k < |old(inUseList)| && old(inUseList)[k] == e
                && inUseList == Without(old(inUseList), k) && lruList == old(lruList)
    {
      hide TwoRings;
      ghost var nodes := Nodes();
      ghost var nexts, prevs := NextsOf(nodes), PrevsOf(nodes);
      if e in lruList {
        k :| 0 <= k < |lruList| && lruList[k] == e;
        TwoRingsWithout(nexts, prevs, live, lru, lruList, inUse, inUseList, k);
      } else {
        k :| 0 <= k < |inUseList| && inUseList[k] == e;
        TwoRingsTurned(nexts, prevs, live, lru, lruList, inUse, inUseList);
        TwoRingsWithout(nexts, prevs, live, inUse, inUseList, lru, lruList, k);
      }
      Splice(e);
      if e in lruList {
        lruList := Without(lruList, k);
      } else {
        inUseList := Without(inUseList, k);
      }
    }

    /** e becomes the newest entry of a ring. */
    method LRU_Append(list: LRUHandle, e: LRUHandle)
      requires Rings() && e in live && e !in Cached() && (list == lru || list == inUse)
      modifies this`lruList, this`inUseList, Nodes()`next, Nodes()`prev
      ensures Rings() && Cached() == old(Cached()) + {e}
      ensures if list == lru then lruList == old(lruList) + [e] && inUseList == old(inUseList)
              else inUseList == old(inUseList) + [e] && lruList == old(lruList)
    {
      hide TwoRings;
      ghost var nodes := Nodes();
      ghost var nexts, prevs := NextsOf(nodes), PrevsOf(nodes);
      TwoRingsTurned(nexts, prevs, live, lru, lruList, inUse, inUseList);
      TwoRingsWith(nexts, prevs, live, lru, lruList, inUse, inUseList, e);
      TwoRingsWith(nexts, prevs, live, inUse, inUseList, lru, lruList, e);
      InsertBefore(list, e);
      if list == lru {
        lruList := lruList + [e];
      } else {
        inUseList := inUseList + [e];
      }
    }

    method InsertBefore(list: LRUHandle, e: LRUHandle)
      requires list in Nodes() && e in Nodes() && list.prev != null && list.prev in Nodes() && list != e && list.prev != e
      modifies Nodes()`next, Nodes()`prev
      ensures var last := old(list.prev);
              && NextsOf(Nodes()) == old(NextsOf(Nodes()))[e := list][last := e]
              && PrevsOf(Nodes()) == old(PrevsOf(Nodes()))[e := last][list := e]
    {
      e.next := list;
      e.prev := list.prev;
      e.prev.next := e;
      e.next.prev := e;
    }

    method Splice(e: LRUHandle)
      requires e in Nodes() && e.next != null && e.prev != null && e.next in Nodes() && e.prev in Nodes()
      requires e.next != e && e.prev != e
      modifies Nodes()`next, Nodes()`prev
      ensures NextsOf(Nodes()) == old(NextsOf(Nodes())[e.prev := e.next])
      ensures PrevsOf(Nodes()) == old(PrevsOf(Nodes())[e.next := e.prev])
    {
      e.next.prev := e.prev;
      e.prev.next := e.next;
    }

    lemma InOneRing(e: LRUHandle)
      requires Rings()
      ensures e in lruList ==> e !in inUseList
      ensures Distinct(lruList) && Distinct(inUseList) && lru != inUse
    {
      RingIsDistinct(Nexts(), Prevs(), lru, lruList);
      RingIsDistinct(Nexts(), Prevs(), inUse, inUseList);
      assert lru in Around(lru, lruList) && inUse in Around(inUse, inUseList);
      if e in lruList {
        assert e in Around(lru, lruList) && forall h :: h in inUseList ==> h in Around(inUse, inUseList);
      }
    }

    /** From the LRU ring to the in-use ring. */
    method MoveToInUse(e: LRUHandle)
      requires Rings() && Ledger() && e in lruList
      modifies this`lruList, this`inUseList, Nodes()`next, Nodes()`prev
      ensures Rings() && Ledger() && Cached() == old(Cached()) && e in live
      ensures forall h :: h in lruList <==> h in old(lruList) && h != e
      ensures forall h :: h in inUseList <==> h in old(inUseList) || h == e
      ensures TakenOut(old(lruList), lruList, e)
    {
      hide TwoRings, Distinct;
      InOneRing(e);
      ghost var k := LRU_Remove(e);
      LRU_Append(inUse, e);
      ChargesWithout(old(lruList), k);
      ChargesAppend(old(inUseList), e);
      WithoutKeeps(old(lruList), k);
    }

    /** And back. */
    method MoveToLRU(e: LRUHandle)
      requires Rings() && Ledger() && e in inUseList
      modifies this`lruList, this`inUseList, Nodes()`next, Nodes()`prev
      ensures Rings() && Ledger() && Cached() == old(Cached()) && e in live
      ensures forall h :: h in inUseList <==> h in old(inUseList) && h != e
      ensures lruList == old(lruList) + [e]
    {
      hide TwoRings, Distinct;
      InOneRing(e);
      ghost var k := LRU_Remove(e);
      LRU_Append(lru, e);
      ChargesWithout(old(inUseList), k);
      ChargesAppend(old(lruList), e);
      WithoutKeeps(old(inUseList), k);
    }

    lemma InCacheMeansCached(e: LRUHandle)
      requires Counted(null, 0) && e in live
      ensures e.inCache <==> e in Cached()
    {
    }

    /** Ref: an entry that only the cache referred to moves to the in-use ring. */
    method Ref(e: LRUHandle)
      requires Rings() && Counted(null, 0) && Ledger() && Placed() && e in live
      modifies this`lruList, this`inUseList, Nodes()`next, Nodes()`prev, e`refs
      ensures Rings() && Counted(e, 1) && Ledger() && Placed() && Cached() == old(Cached())
      ensures lruList == old(lruList) || TakenOut(old(lruList), lruList, e)
    {
      hide Rings, Ledger, CountedIn;
      InCacheMeansCached(e);
      if e.refs == 1 && e.inCache {
        MoveToInUse(e);
      }
      IncrementRefs(e, live, Cached(), handles);
    }

    /** Unref of an entry that counts one reference too many: the last one frees it. */
    method Unref(e: LRUHandle)
      requires Rings() && Counted(e, 1) && Ledger() && Placed() && e in live
      modifies this`lruList, this`inUseList, this`live, this`deleted, Nodes()`next, Nodes()`prev, e`refs
      ensures Rings() && Counted(null, 0) && Ledger() && Placed() && Cached() == old(Cached())
      ensures if old(e.refs) == 1 then live == old(live) - {e} && deleted == old(deleted) + [e] && lruList == old(lruList)
              else live == old(live) && deleted == old(deleted)
      ensures lruList == if old(e.refs) == 2 && e.inCache then old(lruList) + [e] else old(lruList)
    {
      hide Rings, Ledger, CountedIn;
      DecrementRefs(e, live, Cached(), handles);
      if e.refs == 0 {
        Free(e);
      } else if e.inCache && e.refs == 1 {
        MoveToLRU(e);
      }
    }

    /** The deleter runs, and the entry is gone. */
    method Free(e: LRUHandle)
      requires Rings() && CountedIn(live - {e}, Cached(), handles, null, 0) && Ledger() && e in live && e !in Cached()
      modifies this`live, this`deleted
      ensures Rings() && Counted(null, 0) && Ledger()
      ensures live == old(live) - {e} && deleted == old(deleted) + [e]
    {
      hide TwoRings, CountedIn;
      FreeingKeepsRings(e);
      ghost var nodes := Nodes() - {e};
      live := live - {e};
      deleted := deleted + [e];
      assert Nodes() == nodes;
    }

    lemma FreeingKeepsRings(e: LRUHandle)
      requires Rings() && e in live && e !in Cached()
      ensures TwoRings(NextsOf(Nodes() - {e}), PrevsOf(Nodes() - {e}), live - {e}, lru, lruList, inUse, inUseList)
      ensures lru !in live && inUse !in live
    {
      hide Ring;
      var S := Nodes() - {e};
      assert forall h :: h in Around(lru, lruList) ==> h == lru || h in Elements(lruList);
      assert forall h :: h in Around(inUse, inUseList) ==> h == inUse || h in Elements(inUseList);
      RingUntouched(Nexts(), Prevs(), NextsOf(S), PrevsOf(S), lru, lruList);
      RingUntouched(Nexts(), Prevs(), NextsOf(S), PrevsOf(S), inUse, inUseList);
    }

    /** FinishErase: the entry has left the hash table, and now leaves the cache. */
    method FinishErase(e: LRUHandle)
      requires Rings() && Counted(null, 0) && Ledger() && Placed() && InTable({e}) && e in Cached()
      modifies this, Nodes()`next, Nodes()`prev, e`refs, e`inCache
      ensures Valid() && Cached() == old(Cached()) - {e} && usage == old(usage) - e.charge
      ensures handles == old(handles) && inserted == old(inserted) && capacity == old(capacity)
      ensures if e in handles then live == old(live) && deleted == old(deleted)
              else live == old(live) - {e} && deleted == old(deleted) + [e]
      ensures lruList == old(lruList) || TakenOut(old(lruList), lruList, e)
    {
      hide TwoRings, CountedIn, Ledger, HandleTable.Valid, TakenOut;
      Leave(e);
      Unref(e);
    }

    /** Off its ring, out of the cache, and no longer charged for. */
    method Leave(e: LRUHandle)
      requires Rings() && Counted(null, 0) && Ledger() && Placed() && e in Cached()
      modifies this`usage, this`lruList, this`inUseList, Nodes()`next, Nodes()`prev, e`inCache
      ensures Rings() && Counted(e, 1) && Ledger() && Placed() && e in live && !e.inCache
      ensures Cached() == old(Cached()) - {e} && usage == old(usage) - e.charge && e.refs == handles[e] + 1
      ensures lruList == old(lruList) || TakenOut(old(lruList), lruList, e)
    {
      hide Rings, CountedIn, Ledger, Placed;
      RemoveCharged(e);
      LeaveCache(e, live, old(Cached()), handles);
    }

    method RemoveCharged(e: LRUHandle)
      requires Rings() && Ledger() && Placed() && e in Cached()
      modifies this`usage, this`lruList, this`inUseList, Nodes()`next, Nodes()`prev
      ensures Rings() && Ledger() && Placed() && e in live
      ensures Cached() == old(Cached()) - {e} && usage == old(usage) - e.charge
      ensures lruList == old(lruList) || TakenOut(old(lruList), lruList, e)
    {
      hide TwoRings, Distinct;
      InOneRing(e);
      ghost var k := LRU_Remove(e);
      if e in old(lruList) {
        ChargesWithout(old(lruList), k);
        WithoutKeeps(old(lruList), k);
      } else {
        ChargesWithout(old(inUseList), k);
        WithoutKeeps(old(inUseList), k);
      }
      usage := usage - e.charge;
    }

    /** A handle on the entry with the key, if it is cached. */
    method Lookup(key: Bytes, hash: Word) returns (e: LRUHandle?)
      requires Valid()
      modifies this, Nodes()`next, Nodes()`prev, live`refs
      ensures Valid() && Cached() == old(Cached()) && usage == old(usage) && capacity == old(capacity)
      ensures live == old(live) && inserted == old(inserted) && deleted == old(deleted)
      ensures e == null ==> handles == old(handles)
                            && forall h :: h in Cached() ==> !(h.key == key && h.hash == hash)
      ensures e != null ==> e in Cached() && e.key == key && e.hash == hash && handles == old(handles) + multiset{e}
      ensures lruList == old(lruList) || (e != null && TakenOut(old(lruList), lruList, e))
    {
      hide Rings, Counted, Ledger, Placed, HandleTable.Valid, HandleTable.Items, TakenOut;
      e := table.Lookup(key, hash);
      if e != null {
        CachedIsLive(e);
        Ref(e);
        GiveHandle(e);
      }
    }

    method GiveHandle(e: LRUHandle)
      requires Counted(e, 1) && e in live
      modifies this`handles
      ensures Counted(null, 0) && handles == old(handles) + multiset{e}
    {
      hide CountedIn;
      HandOut(e, live, Cached(), handles);
      handles := handles + multiset{e};
    }

    lemma CachedIsLive(e: LRUHandle)
      requires Rings() && e in Cached()
      ensures e in live
    {
    }

    method Release(e: LRUHandle)
      requires Valid() && e in handles
      modifies this, Nodes()`next, Nodes()`prev, e`refs
      ensures Valid() && Cached() == old(Cached()) && usage == old(usage) && capacity == old(capacity)
      ensures handles == old(handles) - multiset{e} && inserted == old(inserted)
      ensures if e in Cached() && e !in handles then lruList == old(lruList) + [e] else lruList == old(lruList)
      ensures if e !in handles && e !in Cached() then live == old(live) - {e} && deleted == old(deleted) + [e]
              else live == old(live) && deleted == old(deleted)
    {
      hide Rings, CountedIn, Ledger, Placed, HandleTable.Valid;
      TakeBack(e, live, Cached(), handles);
      handles := handles - multiset{e};
      Unref(e);
    }

    method Erase(key: Bytes, hash: Word)
      requires Valid()
      modifies this, Nodes()`next, Nodes()`prev, live`refs, live`inCache, live`nextHash, table, table.list
      ensures Valid() && handles == old(handles) && inserted == old(inserted) && capacity == old(capacity)
      ensures forall h :: h in Cached() <==> h in old(Cached()) && !(h.key == key && h.hash == hash)
      ensures forall h :: h in old(live) && h !in live ==> h in old(Cached()) && h !in Cached() && h !in handles
      ensures deleted == old(deleted) || exists e :: e in old(live) && e !in live && deleted == old(deleted) + [e]
    {
      hide Rings, CountedIn, Ledger, Placed, HandleTable.Valid;
      ItemsAreLive();
      var e := table.Remove(key, hash);
      if e != null {
        FinishErase(e);
      }
    }

    lemma ItemsAreLive()
      requires Rings() && InTable({})
      ensures table.Items() == Cached() <= live
    {
    }

    /** Prune: everything that only the cache refers to goes. */
    method Prune()
      requires Valid()
      modifies this, Nodes()`next, Nodes()`prev, live`refs, live`inCache, live`nextHash, table, table.list
      ensures Valid() && lruList == [] && handles == old(handles) && inserted == old(inserted)
      ensures capacity == old(capacity) && live <= old(live)
      ensures forall h :: h in Cached() <==> h in old(Cached()) && h in handles
    {
      hide Rings, CountedIn, Ledger, Placed, HandleTable.Valid;
      while OldestOnLRU() != lru
        invariant Valid() && handles == old(handles) && inserted == old(inserted) && capacity == old(capacity)
        invariant live <= old(live) && table.list == old(table.list)
        invariant Cached() <= old(Cached()) && forall h :: h in old(Cached()) && h in handles ==> h in Cached()
        decreases |lruList|
      {
        var evicted := EvictOldest();
      }
      InUseAreHeld();
    }

    /** lru_.next: the oldest entry of the ring, or the ring's head. */
    function OldestOnLRU(): (h: LRUHandle)
      requires Rings()
      reads this, Nodes()
      ensures if lruList == [] then h == lru else h == lruList[0] != lru
    {
      OldestIsNext(Nexts(), Prevs(), lru, lruList);
      assert lruList != [] ==> lruList[0] in Elements(lruList);
      lru.next
    }

    lemma InUseAreHeld()
      requires Rings() && Counted(null, 0) && Placed()
      ensures forall h :: h in inUseList ==> h in handles
    {
      forall h | h in inUseList ensures h in handles {
        assert h in Cached();
      }
    }

    lemma OldestIsUnused()
      requires Rings() && Counted(null, 0) && Placed() && lruList != []
      ensures lruList[0] in Cached() && lruList[0] in live && lruList[0] !in handles
      ensures forall k :: 0 < k < |lruList| ==> lruList[k] != lruList[0]
    {
      InOneRing(lruList[0]);
    }

    method EvictOldest() returns (e: LRUHandle)
      requires Valid() && lruList != []
      modifies this, Nodes()`next, Nodes()`prev, live`refs, live`inCache, live`nextHash, table, table.list
      ensures Valid() && e == old(lruList)[0] && lruList == old(lruList)[1..] && Cached() == old(Cached()) - {e}
      ensures usage == old(usage) - e.charge && handles == old(handles) && inserted == old(inserted)
      ensures capacity == old(capacity) && live == old(live) - {e} && table.list == old(table.list)
      ensures deleted == old(deleted) + [e] && e !in handles
    {
      hide Rings, CountedIn, Ledger, Placed, HandleTable.Valid;
      e := OldestOnLRU();
      ItemsAreLive();
      OldestIsUnused();
      ghost var list := lruList;
      var removed := table.Remove(e.key, e.hash);
      assert removed == e;
      FinishErase(removed);
      assert lruList == list[1..] by {
        assert e !in Cached() && list[0] == e;
        ghost var k :| 0 <= k < |list| && list[k] == e && lruList == Without(list, k);
        assert k == 0;
      }
    }

    /** The entry behind the handle that Insert returns, not yet in the cache. */
    method NewEntry(key: Bytes, hash: Word, charge: nat) returns (e: LRUHandle)
      requires Valid()
      modifies this`live, this`handles, this`inserted
      ensures Valid() && fresh(e) && e.key == key && e.hash == hash && e.charge == charge && e.refs == 1 && !e.inCache
      ensures live == old(live) + {e} && handles == old(handles) + multiset{e} && inserted == old(inserted) + {e}
    {
      hide TwoRings, Ledger, Placed, CountedIn, HandleTable.Valid, HandleTable.Items;
      EntriesAreLive();
      e := new LRUHandle(key, hash, charge);
      AddEntry(e);
    }

    method AddEntry(e: LRUHandle)
      requires Rings() && Counted(null, 0) && Ledger() && Placed()
      requires e !in live && e !in inserted && e != lru && e != inUse && e.refs == 1 && !e.inCache
      modifies this`live, this`handles, this`inserted
      ensures Rings() && Counted(null, 0) && Ledger() && Placed()
      ensures live == old(live) + {e} && handles == old(handles) + multiset{e} && inserted == old(inserted) + {e}
    {
      hide TwoRings, CountedIn, Ledger, Placed, Distinct, Charges, NextsOf, PrevsOf, Elements;
      EntriesAreLive();
      ghost var nodes := Nodes();
      RingsWith(e);
      NewEntryCounts(e, live, Cached(), handles);
      live := live + {e};
      handles := handles + multiset{e};
      inserted := inserted + {e};
      assert Nodes() == nodes + {e};
      NewEntryAddsNothing(e, old(live));
    }

    lemma RingsWith(e: LRUHandle)
      requires Rings() && e !in live && e != lru && e != inUse
      ensures TwoRings(NextsOf(Nodes() + {e}), PrevsOf(Nodes() + {e}), live + {e}, lru, lruList, inUse, inUseList)
    {
      hide TwoRings;
      var nodes := Nodes();
      MoreNodes(NextsOf(nodes), PrevsOf(nodes), NextsOf(nodes + {e}), PrevsOf(nodes + {e}), live, lru, lruList, inUse,
                inUseList, e);
    }

    lemma EntriesAreLive()
      requires Rings() && Ledger() && Placed()
      ensures Cached() <= live && inserted == live + Elements(deleted) && live !! Elements(deleted) && Distinct(deleted)
      ensures usage == Charges(lruList) + Charges(inUseList)
      ensures forall h :: h in lruList ==> h in live && h.refs == 1
      ensures forall h :: h in inUseList ==> h in live && h.refs >= 2
    {
    }

    lemma NewEntryAddsNothing(e: LRUHandle, before: set<LRUHandle>)
      requires live == before + {e} && inserted == before + Elements(deleted) + {e} && live !! Elements(deleted)
      requires Distinct(deleted) && usage == Charges(lruList) + Charges(inUseList)
      requires forall h :: h in lruList ==> h in before && h.refs == 1
      requires forall h :: h in inUseList ==> h in before && h.refs >= 2
      ensures Ledger() && Placed()
    {
    }

    /** Into the cache, with a second reference, and charged for; but not yet in the hash table. */
    method Enter(e: LRUHandle)
      requires Valid() && e in live && e.refs == 1 && !e.inCache
      modifies this`usage, this`lruList, this`inUseList, Nodes()`next, Nodes()`prev, e`refs, e`inCache
      ensures Rings() && Counted(null, 0) && Ledger() && Placed() && InTable({e})
      ensures Cached() == old(Cached()) + {e} && e !in old(Cached()) && usage == old(usage) + e.charge
      ensures lruList == old(lruList)
    {
      hide Rings, CountedIn, HandleTable.Valid, HandleTable.Items, Ledger;
      InCacheMeansCached(e);
      JoinCache(e, live, Cached(), handles);
      AppendCharged(e);
    }

    method AppendCharged(e: LRUHandle)
      requires Rings() && Ledger() && e in live && e !in Cached()
      modifies this`usage, this`lruList, this`inUseList, Nodes()`next, Nodes()`prev
      ensures Rings() && Ledger() && Cached() == old(Cached()) + {e} && usage == old(usage) + e.charge
      ensures lruList == old(lruList) && inUseList == old(inUseList) + [e]
    {
      hide Rings, Distinct;
      HeadsDiffer();
      LRU_Append(inUse, e);
      ChargesAppend(old(inUseList), e);
      usage := usage + e.charge;
    }

    lemma HeadsDiffer()
      requires Rings()
      ensures lru != inUse
    {
      InOneRing(lru);
    }

    method Insert(key: Bytes, hash: Word, charge: nat) returns (e: LRUHandle)
      requires Valid()
      modifies this, Nodes()`next, Nodes()`prev, live`refs, live`inCache, live`nextHash, table, table.list
      ensures Valid() && fresh(e) && e.key == key && e.hash == hash && e.charge == charge
      ensures handles == old(handles) + multiset{e} && inserted == old(inserted) + {e} && capacity == old(capacity)
      ensures usage <= capacity || lruList == []
      ensures e in Cached() <==> capacity > 0
      ensures forall h :: h in Cached() && h != e ==> h in old(Cached()) && (capacity > 0 ==> !SameKey(h, e))
      ensures forall h :: h in old(Cached()) && h in old(handles) && !SameKey(h, e) ==> h in Cached()
      ensures EvictedOldestFirst(old(lruList), lruList, e, usage, capacity)
    {
      hide Rings, CountedIn, Ledger, Placed, HandleTable.Valid;
      e := NewEntry(key, hash, charge);
      if capacity > 0 {
        PutInCache(e);
      }
      EvictSurplus();
    }

    /** The oldest entries go until there is room, or nothing is left that can go. */
    method EvictSurplus()
      requires Valid()
      modifies this, Nodes()`next, Nodes()`prev, live`refs, live`inCache, live`nextHash, table, table.list
      ensures Valid() && handles == old(handles) && inserted == old(inserted) && capacity == old(capacity)
      ensures usage <= capacity || lruList == []
      ensures Cached() <= old(Cached()) && forall h :: h in old(Cached()) && h in handles ==> h in Cached()
      ensures Evicted(old(lruList), lruList, usage, capacity)
    {
      hide Rings, CountedIn, Ledger, Placed, HandleTable.Valid;
      ghost var base, n := lruList, 0;
      while usage > capacity && OldestOnLRU() != lru
        invariant Valid() && handles == old(handles) && inserted == old(inserted) && capacity == old(capacity)
        invariant live <= old(live) && table.list == old(table.list)
        invariant Cached() <= old(Cached()) && forall h :: h in old(Cached()) && h in handles ==> h in Cached()
        invariant n <= |base| && lruList == base[n..] && (n > 0 ==> usage + base[n - 1].charge > capacity)
        decreases |lruList|
      {
        var evicted := EvictOldest();
        n := n + 1;
      }
    }

    method PutInCache(e: LRUHandle)
      requires Valid() && e in live && e.refs == 1 && !e.inCache
      modifies this, Nodes()`next, Nodes()`prev, live`refs, live`inCache, live`nextHash, table, table.list
      ensures Valid() && handles == old(handles) && inserted == old(inserted) && capacity == old(capacity)
      ensures e in Cached() && forall h :: h in Cached() && h != e ==> h in old(Cached()) && !SameKey(h, e)
      ensures forall h :: h in old(Cached()) && !SameKey(h, e) ==> h in Cached()
      ensures lruList == old(lruList) || DroppedOne(old(lruList), lruList, e)
      ensures live <= old(live) && (table.list == old(table.list) || fresh(table.list))
    {
      hide Rings, CountedIn, Ledger, Placed, HandleTable.Valid, HandleTable.Items, LengthFor;
      ItemsAreLive();
      Enter(e);
      var replaced := table.Insert(e);
      if replaced != null {
        FinishErase(replaced);
      }
    }
  }

  /** The list has lost e, and is otherwise as before. */
  ghost predicate TakenOut(before: seq<LRUHandle>, after: seq<LRUHandle>, e: LRUHandle) {
    exists k :: 0 <= k < |before| && before[k] == e && after == Without(before, k)
  }

  /** The list has lost an entry, which had the key of e. */
  ghost predicate DroppedOne(before: seq<LRUHandle>, after: seq<LRUHandle>, e: LRUHandle) {
    exists k :: 0 <= k < |before| && SameKey(before[k], e) && after == Without(before, k)
  }

  /** Apart from an entry replaced by e, the oldest entries are gone, and none that there was room for. */
  ghost predicate EvictedOldestFirst(before: seq<LRUHandle>, after: seq<LRUHandle>, e: LRUHandle, usage: nat,
                                     capacity: nat)
  {
    || Evicted(before, after, usage, capacity)
    || exists k :: 0 <= k < |before| && SameKey(before[k], e) && Evicted(Without(before, k), after, usage, capacity)
  }

  ghost predicate Evicted(base: seq<LRUHandle>, after: seq<LRUHandle>, usage: nat, capacity: nat) {
    exists n: nat :: n <= |base| && after == base[n..] && (n > 0 ==> usage + base[n - 1].charge > capacity)
  }

  method JoinCache(e: LRUHandle, ghost S: set<LRUHandle>, ghost cached: set<LRUHandle>,
                   ghost handles: multiset<LRUHandle>)
    requires e in S && CountedIn(S, cached, handles, null, 0) && !e.inCache
    modifies e`refs, e`inCache
    ensures e.refs == old(e.refs) + 1 && e.inCache && CountedIn(S, cached + {e}, handles, null, 0)
  {
    e.refs := e.refs + 1;
    e.inCache := true;
  }

  lemma NewEntryCounts(e: LRUHandle, S: set<LRUHandle>, cached: set<LRUHandle>, handles: multiset<LRUHandle>)
    requires CountedIn(S, cached, handles, null, 0) && e !in S && cached <= S && e.refs == 1 && !e.inCache
    ensures CountedIn(S + {e}, cached, handles + multiset{e}, null, 0)
  {
  }

  lemma NobodyCounts(S: set<LRUHandle>, cached: set<LRUHandle>, handles: multiset<LRUHandle>)
    requires S == {} && handles == multiset{}
    ensures CountedIn(S, cached, handles, null, 0)
  {
  }

  lemma HandOut(e: LRUHandle, S: set<LRUHandle>, cached: set<LRUHandle>, handles: multiset<LRUHandle>)
    requires e in S && CountedIn(S, cached, handles, e, 1)
    ensures CountedIn(S, cached, handles + multiset{e}, null, 0)
  {
  }

  lemma TakeBack(e: LRUHandle, S: set<LRUHandle>, cached: set<LRUHandle>, handles: multiset<LRUHandle>)
    requires e in handles && CountedIn(S, cached, handles, null, 0)
    ensures e in S && CountedIn(S, cached, handles - multiset{e}, e, 1)
    ensures e.refs == handles[e] + One(e in cached)
  {
  }
}
