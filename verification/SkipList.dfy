/** The memtable's skip list (db/skiplist.h).  One writer links a node level by level while readers
  * run without a lock; a link store and a link load are atomic.
  */
module SkipLists {
  import opened InternalKeys

  const MAX_HEIGHT: nat := 12

  class Node {
    const key: InternalKey
    var next: seq<Node?>

    constructor (key: InternalKey, height: nat)
      ensures this.key == key && |next| == height && forall l :: 0 <= l < height ==> next[l] == null
    {
      this.key := key;
      next := seq(height, l => null);
    }
  }

  class SkipList {
    const head: Node
    var maxHeight: nat

    /** The nodes of each level in list order, the head first. */
    ghost var levels: seq<seq<Node>>
    ghost var nodes: set<Node>

    ghost predicate Valid()
      reads this, nodes
    {
      && |levels| == MAX_HEIGHT && 1 <= maxHeight <= MAX_HEIGHT
      && (forall l :: 0 <= l < MAX_HEIGHT ==> ValidLevel(l))
      && (forall l :: maxHeight <= l < MAX_HEIGHT ==> levels[l] == [head])
    }

    /** The links of all nodes, as a value. */
    ghost function Next(): map<Node, seq<Node?>>
      reads this, nodes
    {
      map n | n in nodes :: n.next
    }

    /** A level is a linked, strictly sorted list, and a sublist of the level below. */
    ghost predicate ValidLevel(l: nat)
      requires l < |levels|
      reads this, nodes
    {
      && Ascending(levels[l]) && Links(Next(), levels[l], l)
      && (l > 0 ==> forall n :: n in levels[l] ==> n in levels[l - 1])
    }

    ghost predicate Ascending(ns: seq<Node>) {
      && ns != [] && ns[0] == head
      && (forall i, j :: 0 < i < j < |ns| ==> Less(ns[i].key, ns[j].key))
      && (forall i :: 0 < i < |ns| ==> ns[i] != head)
    }

    ghost predicate Links(next: map<Node, seq<Node?>>, ns: seq<Node>, l: nat) {
      forall i :: 0 <= i < |ns| ==> LinkedAt(next, ns, l, i)
    }

    ghost predicate LinkedAt(next: map<Node, seq<Node?>>, ns: seq<Node>, l: nat, i: nat)
      requires i < |ns|
    {
      && ns[i] in next && l < |next[ns[i]]|
      && next[ns[i]][l] == if i + 1 < |ns| then ns[i + 1] else null
    }

    /** The set that the list stands for. */
    ghost function Keys(): iset<InternalKey>
      reads this
    {
      iset k | InList(k)
    }

    ghost predicate InList(k: InternalKey)
      reads this
    {
      |levels| > 0 && exists i :: 0 < i < |levels[0]| && levels[0][i].key == k
    }

    constructor ()
      ensures Valid() && fresh(nodes) && Keys() == iset{} && maxHeight == 1
    {
      head := new Node(InternalKey(0.0, 0, Deletion), MAX_HEIGHT);
      maxHeight := 1;
      new;
      levels := seq(MAX_HEIGHT, l => [head]);
      nodes := {head};
    }

    /** n stands before key, at the head or at a smaller key. */
    ghost predicate Before(n: Node, key: InternalKey) {
      n == head || Less(n.key, key)
    }

    predicate KeyIsAfterNode(key: InternalKey, n: Node?) {
      n != null && Compare(n.key, key) < 0
    }

    /** n is the last node of level l that stands before key. */
    ghost predicate IsPrev(l: nat, n: Node, key: InternalKey)
      reads this, nodes
    {
      l < |levels| && IsPrevIn(Next(), levels[l], l, n, key)
    }

    ghost predicate IsPrevIn(next: map<Node, seq<Node?>>, ns: seq<Node>, l: nat, n: Node, key: InternalKey) {
      n in ns && n in next && l < |next[n]| && Before(n, key) && !KeyIsAfterNode(key, next[n][l])
    }

    ghost predicate IsFirstAtOrAfter(n: Node?, key: InternalKey)
      reads this
    {
      && |levels| > 0
      && (n != null ==> n in levels[0] && n != head && !Less(n.key, key))
      && forall i :: 0 < i < |levels[0]| && !Less(levels[0][i].key, key)
                     ==> n != null && !Less(levels[0][i].key, n.key)
    }

    method FindGreaterOrEqual(key: InternalKey) returns (r: Node?, prev: seq<Node>)
      requires Valid()
      ensures |prev| == MAX_HEIGHT && forall l :: 0 <= l < maxHeight ==> IsPrev(l, prev[l], key)
      ensures IsFirstAtOrAfter(r, key)
    {
      prev := seq(MAX_HEIGHT, l => head);
      var x := head;
      var level := maxHeight - 1;
      ghost var i := 0;
      assert ValidLevel(level);
      while true
        invariant 0 <= level < maxHeight && i < |levels[level]| && levels[level][i] == x && Before(x, key)
        invariant |prev| == MAX_HEIGHT && forall l :: level < l < maxHeight ==> IsPrev(l, prev[l], key)
        decreases level, |levels[level]| - i
      {
        assert ValidLevel(level) && LinkedAt(Next(), levels[level], level, i);
        var next := x.next[level];
        if KeyIsAfterNode(key, next) {
          x := next;
          i := i + 1;
        } else {
          prev := prev[level := x];
          if level == 0 {
            SuccessorIsFirst(i, key);
            return next, prev;
          } else {
            assert x in levels[level] && x in levels[level - 1];
            level := level - 1;
            i :| 0 <= i < |levels[level]| && levels[level][i] == x;
          }
        }
      }
    }

    /** In level 0, the successor of a node before key is the first node at or after it, unless it
      * is still before.
      */
    lemma SuccessorIsFirst(i: nat, key: InternalKey)
      requires Valid() && i < |levels[0]| && Before(levels[0][i], key)
      requires levels[0][i] in nodes && |levels[0][i].next| > 0 && !KeyIsAfterNode(key, levels[0][i].next[0])
      ensures IsFirstAtOrAfter(levels[0][i].next[0], key)
    {
      assert ValidLevel(0) && LinkedAt(Next(), levels[0], 0, i);
    }

    /** The last node of level 0 before key; the head if there is none. */
    method FindLessThan(key: InternalKey) returns (r: Node)
      requires Valid()
      ensures r in levels[0] && Before(r, key)
      ensures forall i :: 0 < i < |levels[0]| && Less(levels[0][i].key, key)
                          ==> r != head && !Less(r.key, levels[0][i].key)
    {
      var x := head;
      var level := maxHeight - 1;
      ghost var i := 0;
      assert ValidLevel(level);
      while true
        invariant 0 <= level < maxHeight && i < |levels[level]| && levels[level][i] == x && Before(x, key)
        decreases level, |levels[level]| - i
      {
        assert ValidLevel(level) && LinkedAt(Next(), levels[level], level, i);
        var next := x.next[level];
        if next == null || Compare(next.key, key) >= 0 {
          if level == 0 {
            return x;
          } else {
            assert x in levels[level] && x in levels[level - 1];
            level := level - 1;
            i :| 0 <= i < |levels[level]| && levels[level][i] == x;
          }
        } else {
          x := next;
          i := i + 1;
        }
      }
    }

    /** The last node of the list; the head of an empty one. */
    method FindLast() returns (r: Node)
      requires Valid()
      ensures r in levels[0] && forall i :: 0 < i < |levels[0]| ==> r != head && !Less(r.key, levels[0][i].key)
    {
      var x := head;
      var level := maxHeight - 1;
      ghost var i := 0;
      assert ValidLevel(level);
      while true
        invariant 0 <= level < maxHeight && i < |levels[level]| && levels[level][i] == x
        decreases level, |levels[level]| - i
      {
        assert ValidLevel(level) && LinkedAt(Next(), levels[level], level, i);
        var next := x.next[level];
        if next == null {
          if level == 0 {
            return x;
          } else {
            assert x in levels[level] && x in levels[level - 1];
            level := level - 1;
            i :| 0 <= i < |levels[level]| && levels[level][i] == x;
          }
        } else {
          x := next;
          i := i + 1;
        }
      }
    }

    method Contains(key: InternalKey) returns (found: bool)
      requires Valid()
      ensures found <==> key in Keys()
    {
      var x, _ := FindGreaterOrEqual(key);
      found := x != null && Compare(key, x.key) == 0;
      assert ValidLevel(0);
      if found {
        ghost var i :| 0 <= i < |levels[0]| && levels[0][i] == x;
        assert InList(key);
      }
    }

    // ---- inserting ----------------------------------------------------------------------------------

    /** The new node is linked in the levels below l and in no other. */
    ghost predicate LinkedBelow(x: Node, l: nat)
      reads this
    {
      && |levels| == MAX_HEIGHT
      && (forall m :: 0 <= m < l && m < MAX_HEIGHT ==> x in levels[m])
      && (forall m :: l <= m < MAX_HEIGHT ==> x !in levels[m])
    }

    /** A level whose links are not touched stays linked. */
    lemma OtherLevelStays(next: map<Node, seq<Node?>>, ns: seq<Node>, m: nat, n: Node, l: nat, to: Node?)
      requires Links(next, ns, m) && n in next && l < |next[n]| && m != l
      ensures Links(next[n := next[n][l := to]], ns, m)
    {
      var next' := next[n := next[n][l := to]];
      forall i | 0 <= i < |ns| ensures LinkedAt(next', ns, m, i) {
        assert LinkedAt(next, ns, m, i);
      }
    }

    /** Preparing the new node's link does not touch a list without it. */
    lemma UnlinkedNodeIsFree(next: map<Node, seq<Node?>>, ns: seq<Node>, x: Node, l: nat, to: Node?)
      requires Links(next, ns, l) && x in next && l < |next[x]| && x !in ns
      ensures Links(next[x := next[x][l := to]], ns, l)
    {
      var next' := next[x := next[x][l := to]];
      forall i | 0 <= i < |ns| ensures LinkedAt(next', ns, l, i) {
        assert LinkedAt(next, ns, l, i);
      }
    }

    /** Publishing: prev now leads to x, which already leads to where prev led. */
    lemma PublishedIsLinked(next: map<Node, seq<Node?>>, ns: seq<Node>, p: nat, x: Node, l: nat)
      requires Links(next, ns, l) && Ascending(ns) && p < |ns| && x !in ns && x in next && l < |next[x]|
      requires LinkedAt(next, ns, l, p) && next[x][l] == next[ns[p]][l]
      ensures Links(next[ns[p] := next[ns[p]][l := x]], ns[..p + 1] + [x] + ns[p + 1..], l)
    {
      var next', ns' := next[ns[p] := next[ns[p]][l := x]], ns[..p + 1] + [x] + ns[p + 1..];
      forall i | 0 <= i < |ns'| ensures LinkedAt(next', ns', l, i) {
        if i <= p {
          assert LinkedAt(next, ns, l, i);
          assert i < p ==> ns[i] != ns[p];
        } else if i > p + 1 {
          assert LinkedAt(next, ns, l, i - 1);
          assert ns[i - 1] != ns[p];
        }
      }
    }

    /** First store of a round of Insert: the new node's own link, which no list leads to yet. */
    method PrepareLink(l: nat, x: Node, prev: Node)
      requires Valid() && LinkedBelow(x, l) && l < MAX_HEIGHT && x in nodes && l < |x.next|
      requires prev in nodes && l < |prev.next|
      modifies x
      ensures Valid() && |x.next| == |old(x.next)|
      ensures Next() == old(Next()[x := Next()[x][l := Next()[prev][l]]])
    {
      hide Ascending, Links, Before, LinkedAt;
      ghost var before := Next();
      x.next := x.next[l := prev.next[l]];
      assert Next() == before[x := before[x][l := before[prev][l]]];
      forall m | 0 <= m < MAX_HEIGHT ensures ValidLevel(m) {
        assert old(ValidLevel(m));
        if m != l {
          OtherLevelStays(before, levels[m], m, x, l, before[prev][l]);
        } else {
          UnlinkedNodeIsFree(before, levels[m], x, l, before[prev][l]);
        }
      }
    }

    /** Second store of a round of Insert: the list of level l now leads to the new node. */
    method PublishLink(l: nat, x: Node, prev: Node)
      requires Valid() && LinkedBelow(x, l) && l < maxHeight && x in nodes && l < |x.next| && x != head
      requires IsPrev(l, prev, x.key) && x.next[l] == prev.next[l]
      requires Lacks(levels[l], x.key)
      modifies this`levels, prev
      ensures Valid() && LinkedBelow(x, l + 1)
      ensures Next() == old(Next()[prev := Next()[prev][l := x]])
      ensures |levels| == MAX_HEIGHT
      ensures forall m :: 0 <= m < MAX_HEIGHT && m != l ==> levels[m] == old(levels[m])
      ensures forall n :: n in levels[l] <==> n in old(levels[l]) || n == x
      ensures Keys() == old(Keys()) + if l == 0 then iset{x.key} else iset{}
    {
      hide Ascending, Links, Before, LinkedAt;
      ghost var before, ns := Next(), levels[l];
      assert ValidLevel(l);
      ghost var p := PlaceInLevel(l, prev, x);
      prev.next := prev.next[l := x];
      levels := levels[l := ns[..p + 1] + [x] + ns[p + 1..]];
      assert Next() == before[prev := before[prev][l := x]];
      PublishedIsLinked(before, ns, p, x, l);
      assert forall n :: n in levels[l] <==> n in ns || n == x;
      if l == 0 {
        OneMoreKey(ns, p, x);
      }
      forall m | 0 <= m < MAX_HEIGHT ensures ValidLevel(m) {
        assert old(ValidLevel(m));
        if m != l {
          OtherLevelStays(before, levels[m], m, prev, l, x);
        }
      }
    }

    lemma PlaceInLevel(l: nat, prev: Node, x: Node) returns (p: nat)
      requires l < |levels| && ValidLevel(l) && IsPrev(l, prev, x.key) && x != head
      requires Lacks(levels[l], x.key)
      ensures p < |levels[l]| && levels[l][p] == prev && LinkedAt(Next(), levels[l], l, p)
      ensures Ascending(levels[l][..p + 1] + [x] + levels[l][p + 1..])
    {
      p :| 0 <= p < |levels[l]| && levels[l][p] == prev;
      assert LinkedAt(Next(), levels[l], l, p);
      if p + 1 < |levels[l]| {
        assert Compare(levels[l][p + 1].key, x.key) != 0;
      }
      InsertedAscends(levels[l], p, x);
    }

    lemma OneMoreKey(ns: seq<Node>, p: nat, x: Node)
      requires |levels| > 0 && p < |ns| && levels[0] == ns[..p + 1] + [x] + ns[p + 1..]
      ensures forall k :: InList(k) <==> k == x.key || exists i :: 0 < i < |ns| && ns[i].key == k
    {
      forall i | 0 < i < |ns| ensures InList(ns[i].key) {
        assert levels[0][if i <= p then i else i + 1] == ns[i];
      }
      assert levels[0][p + 1] == x;
    }

    lemma InsertedAscends(ns: seq<Node>, p: nat, x: Node)
      requires Ascending(ns) && p < |ns| && x != head && Before(ns[p], x.key)
      requires p + 1 < |ns| ==> Less(x.key, ns[p + 1].key)
      ensures Ascending(ns[..p + 1] + [x] + ns[p + 1..])
    {
    }

    lemma {:induction false} InBottom(l: nat, n: Node)
      requires Valid() && l < MAX_HEIGHT && n in levels[l]
      ensures n in levels[0]
    {
      if l > 0 {
        assert ValidLevel(l);
        InBottom(l - 1, n);
      }
    }

    /** Allocating a node touches no list. */
    method NewNode(key: InternalKey, height: nat) returns (x: Node)
      requires Valid() && 1 <= height <= MAX_HEIGHT
      modifies this`nodes
      ensures fresh(x) && x.key == key && |x.next| == height && nodes == old(nodes) + {x}
      ensures Valid() && LinkedBelow(x, 0) && Next() == old(Next())[x := x.next]
    {
      hide Ascending, Before;
      ghost var before := Next();
      x := new Node(key, height);
      nodes := nodes + {x};
      assert Next() == before[x := x.next];
      forall m | 0 <= m < MAX_HEIGHT ensures ValidLevel(m) && x !in levels[m] {
        assert old(ValidLevel(m));
        forall i | 0 <= i < |levels[m]| ensures LinkedAt(Next(), levels[m], m, i) && levels[m][i] != x {
          assert LinkedAt(before, levels[m], m, i);
        }
      }
    }

    /** What Insert still has to do, from level i on. */
    ghost predicate Pending(x: Node, i: nat, height: nat, prev: seq<Node>)
      reads this, nodes, x
    {
      && x in nodes && x != head && |x.next| == height <= maxHeight <= MAX_HEIGHT
      && |prev| == |levels| == MAX_HEIGHT && LinkedBelow(x, i)
      && PendingIn(Next(), levels, x, i, height, prev)
    }

    ghost predicate PendingIn(next: map<Node, seq<Node?>>, levels: seq<seq<Node>>, x: Node, i: nat, height: nat,
                              prev: seq<Node>)
      requires height <= |levels| == |prev|
    {
      forall l :: i <= l < height ==> x !in levels[l] && IsPrevIn(next, levels[l], l, prev[l], x.key)
                                      && Lacks(levels[l], x.key)
    }

    lemma StartsPending(next: map<Node, seq<Node?>>, x: Node, height: nat, prev: seq<Node>)
      requires |prev| == |levels| == MAX_HEIGHT && height <= MAX_HEIGHT && x !in next && x in nodes
      requires LinkedBelow(x, 0) && Next() == next[x := x.next]
      requires forall l :: 0 <= l < height ==> IsPrevIn(next, levels[l], l, prev[l], x.key)
      requires forall l :: 0 <= l < height ==> Lacks(levels[l], x.key)
      ensures PendingIn(Next(), levels, x, 0, height, prev)
    {
    }

    lemma PrevIsApart(x: Node, i: nat, height: nat, prev: seq<Node>)
      requires Pending(x, i, height, prev) && i < height
      ensures prev[i] in nodes && i < |prev[i].next| && prev[i] != x
    {
      assert IsPrevIn(Next(), levels[i], i, prev[i], x.key);
    }

    lemma PreparedIsPending(next: map<Node, seq<Node?>>, levels: seq<seq<Node>>, x: Node, i: nat, height: nat,
                            prev: seq<Node>, to: Node?)
      requires height <= |levels| == |prev| && PendingIn(next, levels, x, i, height, prev)
      requires x in next && i < |next[x]|
      ensures PendingIn(next[x := next[x][i := to]], levels, x, i, height, prev)
    {
    }

    lemma PublishedIsPending(next: map<Node, seq<Node?>>, levels: seq<seq<Node>>, levels': seq<seq<Node>>, x: Node,
                             i: nat, height: nat, prev: seq<Node>)
      requires height <= |levels| == |levels'| == |prev| && PendingIn(next, levels, x, i, height, prev)
      requires i < height && forall l :: i < l < height ==> levels'[l] == levels[l]
      ensures prev[i] in next && i < |next[prev[i]]|
      ensures PendingIn(next[prev[i] := next[prev[i]][i := x]], levels', x, i + 1, height, prev)
    {
    }

    ghost predicate Lacks(ns: seq<Node>, key: InternalKey) {
      forall n :: n in ns && n != head ==> n.key != key
    }

    lemma KeyIsNew(l: nat, key: InternalKey)
      requires Valid() && l < MAX_HEIGHT && key !in Keys()
      ensures Lacks(levels[l], key)
    {
      forall n | n in levels[l] && n != head ensures n.key != key {
        InBottom(l, n);
        assert ValidLevel(0) && !InList(key);
        var i :| 0 <= i < |levels[0]| && levels[0][i] == n;
      }
    }

    method RaiseHeight(key: InternalKey, height: nat, prev: seq<Node>) returns (prev': seq<Node>)
      requires Valid() && height <= MAX_HEIGHT
      requires |prev| == MAX_HEIGHT && forall l :: 0 <= l < maxHeight ==> IsPrev(l, prev[l], key)
      modifies this`maxHeight
      ensures Valid() && maxHeight == if height > old(maxHeight) then height else old(maxHeight)
      ensures |prev'| == MAX_HEIGHT && forall l :: 0 <= l < maxHeight ==> IsPrev(l, prev'[l], key)
    {
      prev' := prev;
      if height > maxHeight {
        for i := maxHeight to height
          invariant |prev'| == MAX_HEIGHT && forall l :: 0 <= l < i ==> IsPrev(l, prev'[l], key)
        {
          assert ValidLevel(i) && LinkedAt(Next(), levels[i], i, 0);
          prev' := prev'[i := head];
        }
        maxHeight := height;
        assert Next() == old(Next());
        forall l | 0 <= l < MAX_HEIGHT ensures ValidLevel(l) {
          assert old(ValidLevel(l));
        }
      }
    }

    ghost predicate IsReader(r: Search?)
      reads this, r
    {
      r != null ==> r.list == this && r.Valid()
    }

    /** What a reader does before a store: one under way goes on for some link loads, or a new one begins. */
    method Read(reader: Search?, begins: bool, target: InternalKey, steps: nat) returns (r: Search?)
      requires Valid() && IsReader(reader)
      modifies reader
      ensures Valid() && IsReader(r)
      ensures reader != null ==> r == reader
      ensures reader == null ==> (r != null <==> begins)
      ensures reader == null && begins ==> fresh(r) && r.target == target && r.started == Keys()
    {
      hide Valid, Search.Found, Before, InList;
      r := reader;
      if r == null && begins {
        r := new Search(this, target);
      }
      if r != null {
        r.Run(steps);
      }
    }

    /** The first store of a round of Insert, after a reader. */
    method PrepareLevel(i: nat, x: Node, height: nat, prev: seq<Node>, reader: Search?, begins: bool,
                        target: InternalKey, steps: nat) returns (r: Search?)
      requires Valid() && i < height && Pending(x, i, height, prev) && IsReader(reader)
      modifies x, reader
      ensures Valid() && Pending(x, i, height, prev) && IsReader(r)
      ensures prev[i] != x && i < |x.next| && i < |prev[i].next| && x.next[i] == prev[i].next[i]
      ensures reader != null ==> r == reader
      ensures reader == null ==> (r != null <==> begins)
      ensures reader == null && r != null ==> fresh(r) && r.target == target && r.started == Keys()
    {
      hide Valid, ValidLevel, Lacks, IsPrevIn, Search.Found, Before, InList;
      PrevIsApart(x, i, height, prev);
      r := Read(reader, begins, target, steps);
      ghost var before := Next();
      PrepareLink(i, x, prev[i]);
      assert Next()[x][i] == before[prev[i]][i] == Next()[prev[i]][i];
      PreparedIsPending(before, levels, x, i, height, prev, before[prev[i]][i]);
    }

    /** The second store, after a reader. */
    method PublishLevel(i: nat, x: Node, height: nat, prev: seq<Node>, reader: Search?, begins: bool,
                        target: InternalKey, steps: nat) returns (r: Search?)
      requires Valid() && i < height && Pending(x, i, height, prev) && IsReader(reader)
      requires prev[i] != x && i < |x.next| && i < |prev[i].next| && x.next[i] == prev[i].next[i]
      modifies this`levels, prev[i], reader
      ensures Valid() && Pending(x, i + 1, height, prev) && IsReader(r)
      ensures Keys() == old(Keys()) + if i == 0 then iset{x.key} else iset{}
      ensures reader != null ==> r == reader
      ensures reader == null ==> (r != null <==> begins)
      ensures reader == null && r != null ==> fresh(r) && r.target == target && r.started == old(Keys())
    {
      hide Valid, ValidLevel, Lacks, IsPrevIn, Search.Found, Before, InList;
      PrevIsApart(x, i, height, prev);
      r := Read(reader, begins, target, steps);
      ghost var before, ls, keys := Next(), levels, Keys();
      PublishLink(i, x, prev[i]);
      PublishedIsPending(before, ls, levels, x, i, height, prev);
      if r != null {
        r.Survives(ls, keys);
      }
    }

    /** One round of Insert, with a reader running before each of its two stores. */
    method LinkLevel(i: nat, x: Node, height: nat, prev: seq<Node>, reader: Search?, begins: (bool, bool),
                     target: InternalKey, steps: (nat, nat)) returns (r: Search?)
      requires Valid() && i < height && Pending(x, i, height, prev) && IsReader(reader)
      modifies this`levels, x, prev[i], reader
      ensures Valid() && Pending(x, i + 1, height, prev) && IsReader(r)
      ensures Keys() == old(Keys()) + if i == 0 then iset{x.key} else iset{}
      ensures reader != null ==> r == reader
      ensures reader == null ==> (r != null <==> begins.0 || begins.1)
      ensures reader == null && r != null ==> fresh(r) && r.target == target && r.started == old(Keys())
    {
      hide Valid, Pending, Search.Valid;
      r := PrepareLevel(i, x, height, prev, reader, begins.0, target, steps.0);
      r := PublishLevel(i, x, height, prev, r, begins.1, target, steps.1);
    }

    /** Insert up to its loop: the predecessors, the height of the list and the unlinked node. */
    method StartInsert(key: InternalKey, height: nat) returns (x: Node, prev: seq<Node>)
      requires Valid() && key !in Keys() && 1 <= height <= MAX_HEIGHT
      modifies this`nodes, this`maxHeight
      ensures Valid() && Pending(x, 0, height, prev) && fresh(x) && x.key == key && nodes == old(nodes) + {x}
      ensures maxHeight == if height > old(maxHeight) then height else old(maxHeight)
      ensures Keys() == old(Keys())
    {
      hide ValidLevel, IsPrevIn, PendingIn, Before;
      var r;
      r, prev := FindGreaterOrEqual(key);
      prev := RaiseHeight(key, height, prev);
      forall l | 0 <= l < MAX_HEIGHT ensures Lacks(levels[l], key) {
        KeyIsNew(l, key);
      }
      ghost var next := Next();
      x := NewNode(key, height);
      StartsPending(next, x, height, prev);
    }

    /** The height is the outcome of RandomHeight.  A reader runs before each store, for as many link loads as the
      * schedule says; if none is under way, one begins as soon as the schedule says so.
      */
    method Insert(key: InternalKey, height: nat, reader: Search?, begins: nat -> (bool, bool), target: InternalKey,
                  schedule: nat -> (nat, nat)) returns (r: Search?)
      requires Valid() && key !in Keys() && 1 <= height <= MAX_HEIGHT && IsReader(reader)
      modifies this, nodes, reader
      ensures Valid() && Keys() == old(Keys()) + iset{key}
      ensures nodes >= old(nodes) && fresh(nodes - old(nodes))
      ensures maxHeight == if height > old(maxHeight) then height else old(maxHeight)
      ensures IsReader(r) && (reader != null ==> r == reader)
      ensures reader == null ==> (r != null <==> exists i :: 0 <= i < height && (begins(i).0 || begins(i).1))
      ensures reader == null && r != null ==> r.target == target && old(Keys()) <= r.started
    {
      hide Valid, PendingIn, LinkedBelow, Search.Found, Before;
      var x, prev := StartInsert(key, height);
      r := reader;
      if r != null {
        r.Survives(old(levels), old(Keys()));
      }
      for i := 0 to height
        invariant Valid() && Pending(x, i, height, prev) && IsReader(r)
        invariant nodes == old(nodes) + {x}
        invariant maxHeight == if height > old(maxHeight) then height else old(maxHeight)
        invariant Keys() == old(Keys()) + if i > 0 then iset{key} else iset{}
        invariant reader != null ==> r == reader
        invariant reader == null ==> (r != null <==> exists j :: 0 <= j < i && (begins(j).0 || begins(j).1))
        invariant reader == null && r != null ==> fresh(r) && r.target == target && old(Keys()) <= r.started
      {
        PrevIsApart(x, i, height, prev);
        r := LinkLevel(i, x, height, prev, r, begins(i), target, schedule(i));
      }
    }
  }

  /** A reader's FindGreaterOrEqual, one link load at a time, while the writer may be storing links. */
  class Search {
    const list: SkipList
    const target: InternalKey
    var x: Node
    var level: nat
    var done: bool
    var result: Node?

    /** What the list held when the search began, and how many links it has loaded since. */
    ghost const started: iset<InternalKey>
    ghost var loads: nat

    ghost predicate Valid()
      reads this, list
    {
      At(list.levels, list.Keys())
    }

    ghost predicate At(levels: seq<seq<Node>>, keys: iset<InternalKey>)
      reads this
    {
      && |levels| == MAX_HEIGHT && level < MAX_HEIGHT
      && x in levels[level] && list.Before(x, target)
      && started <= keys && (done ==> Found(keys))
    }

    /** The result is in the list at or after the target, and no key that was there when the search
      * began lies between the target and the result.
      */
    ghost predicate Found(keys: iset<InternalKey>)
      reads this
    {
      && (result != null ==> result.key in keys && !Less(result.key, target))
      && forall k :: k in started && !Less(k, target) ==> result != null && !Less(k, result.key)
    }

    /** Lists only grow, so a search in progress, or its result, stays right. */
    lemma Survives(levels: seq<seq<Node>>, keys: iset<InternalKey>)
      requires At(levels, keys) && |list.levels| == MAX_HEIGHT && keys <= list.Keys()
      requires forall n :: n in levels[level] ==> n in list.levels[level]
      ensures Valid()
    {
    }

    constructor (list: SkipList, target: InternalKey)
      requires list.Valid()
      ensures this.list == list && this.target == target && started == list.Keys() && Valid() && !done && loads == 0
    {
      this.list := list;
      this.target := target;
      x := list.head;
      level := list.maxHeight - 1;
      done := false;
      result := null;
      started, loads := list.Keys(), 0;
      new;
      assert list.ValidLevel(level);
    }

    method Step()
      requires list.Valid() && Valid() && !done
      modifies this
      ensures Valid() && loads == old(loads) + 1
      ensures done || level < old(level)
              || (level == old(level) && x != list.head && (old(x) == list.head || Less(old(x).key, x.key)))
    {
      assert list.ValidLevel(level);
      ghost var i :| 0 <= i < |list.levels[level]| && list.levels[level][i] == x;
      assert list.LinkedAt(list.Next(), list.levels[level], level, i);
      var next := x.next[level];
      if list.KeyIsAfterNode(target, next) {
        x := next;
      } else if level == 0 {
        list.SuccessorIsFirst(i, target);
        result := next;
        done := true;
      } else {
        level := level - 1;
      }
      loads := loads + 1;
    }

    method Run(steps: nat)
      requires list.Valid() && Valid()
      modifies this
      ensures Valid() && old(loads) <= loads <= old(loads) + steps && (done || loads == old(loads) + steps)
    {
      for s := 0 to steps
        invariant Valid() && loads == old(loads) + s
      {
        if done {
          return;
        }
        Step();
      }
    }
  }
}
