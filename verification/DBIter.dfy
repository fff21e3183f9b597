/** The user-facing iterator (db/db_iter.cc): a bidirectional cursor over the visible map, made
  * from a cursor over internal keys.
  */
module Cursors {
  import opened InternalKeys
  import opened Versions

  /** An internal iterator (include/leveldb/iterator.h) over sorted entries.  All positions outside
    * the entries are one state, "not valid".
    */
  class Cursor {
    const entries: seq<Entry>
    var index: nat

    constructor (entries: seq<Entry>)
      requires Sorted(entries)
      ensures this.entries == entries && index == |entries|
    {
      this.entries := entries;
      index := |entries|;
    }

    predicate Valid()
      reads this
    {
      index < |entries|
    }

    function Current(): Entry
      requires Valid()
      reads this
    {
      entries[index]
    }

    method SeekToFirst()
      modifies this
      ensures index == 0
    {
      index := 0;
    }

    method SeekToLast()
      modifies this
      ensures index == if entries == [] then 0 else |entries| - 1
    {
      index := if entries == [] then 0 else |entries| - 1;
    }

    method Seek(target: InternalKey)
      modifies this
      ensures index == SeekIndex(entries, target)
    {
      index := SeekIndex(entries, target);
    }

    method Next()
      requires Valid()
      modifies this
      ensures index == old(index) + 1
    {
      index := index + 1;
    }

    method Prev()
      requires Valid()
      modifies this
      ensures index == if old(index) == 0 then |entries| else old(index) - 1
    {
      index := if index == 0 then |entries| else index - 1;
    }
  }
}

module DBIterators {
  import opened InternalKeys
  import opened History
  import opened Versions
  import opened Cursors

  datatype Direction = Forward | Reverse

  predicate Seen(es: seq<Entry>, s: SequenceNumber, i: nat)
    requires i < |es|
  {
    es[i].key.seqno <= s
  }

  /** Entry i is what snapshot s shows for its user key: a value, with no visible entry before it. */
  predicate Shown(es: seq<Entry>, s: SequenceNumber, i: nat)
    requires i < |es|
  {
    && Seen(es, s, i) && es[i].key.kind.Value?
    && forall j :: 0 <= j < i && es[j].key.user == es[i].key.user ==> !Seen(es, s, j)
  }

  /** The visible map in key order, as far as the first n entries show it. */
  function View(es: seq<Entry>, s: SequenceNumber, n: nat): seq<Entry>
    requires n <= |es|
  {
    if n == 0 then []
    else if Shown(es, s, n - 1) then View(es, s, n - 1) + [es[n - 1]]
    else View(es, s, n - 1)
  }

  lemma {:induction false} ViewGap(es: seq<Entry>, s: SequenceNumber, i: nat, j: nat)
    requires i <= j <= |es| && forall m :: i <= m < j ==> !Shown(es, s, m)
    ensures View(es, s, j) == View(es, s, i)
    decreases j
  {
    if i < j { ViewGap(es, s, i, j - 1); }
  }

  lemma {:induction false} ViewPrefix(es: seq<Entry>, s: SequenceNumber, i: nat, j: nat)
    requires i <= j <= |es|
    ensures View(es, s, i) <= View(es, s, j)
    decreases j
  {
    if i < j { ViewPrefix(es, s, i, j - 1); }
  }

  class DBIter {
    const iter: Cursor
    const sequence: SequenceNumber
    var direction: Direction
    var valid: bool
    var savedKey: Option<UserKey>
    var savedValue: Bytes

    /** Where the cursor stands in the visible map; its length when not valid. */
    ghost var position: nat

    constructor (iter: Cursor, sequence: SequenceNumber)
      requires Sorted(iter.entries)
      ensures this.iter == iter && this.sequence == sequence && Inv() && !valid
    {
      this.iter := iter;
      this.sequence := sequence;
      direction, valid, savedKey, savedValue := Forward, false, None, [];
      position := |View(iter.entries, sequence, |iter.entries|)|;
    }

    ghost function TheView(): seq<Entry>
    {
      View(iter.entries, sequence, |iter.entries|)
    }

    /** Index of the shown entry that the iterator stands for. */
    ghost predicate At(cur: nat)
      reads this, iter
    {
      && cur < |iter.entries| && Shown(iter.entries, sequence, cur)
      && position == |View(iter.entries, sequence, cur)|
      && (direction.Forward? ==> iter.index == cur)
      && (direction.Reverse? ==> Behind(cur) && savedKey == Some(iter.entries[cur].key.user)
                                 && savedValue == iter.entries[cur].value)
    }

    /** Moving backwards, iter_ has passed all the entries of the current key, and possibly
      * invisible entries of smaller keys.
      */
    ghost predicate Behind(cur: nat)
      requires cur < |iter.entries|
      reads this, iter
    {
      var t := if iter.Valid() then iter.index else -1;
      && t < cur
      && (forall j :: t < j < cur ==> !Seen(iter.entries, sequence, j))
      && (t >= 0 ==> iter.entries[t].key.user < iter.entries[cur].key.user)
    }

    ghost predicate Inv()
      reads this, iter
    {
      && Sorted(iter.entries)
      && (if valid then exists cur: nat :: At(cur) else position == |TheView()|)
    }

    function Key(): (u: UserKey)
      requires Inv() && valid
      reads this, iter
      ensures position < |TheView()| && u == TheView()[position].key.user
    {
      KeyIsCurrent();
      if direction.Forward? then iter.Current().key.user else savedKey.value
    }

    function Value(): (v: Bytes)
      requires Inv() && valid
      reads this, iter
      ensures position < |TheView()| && v == TheView()[position].value
    {
      KeyIsCurrent();
      if direction.Forward? then iter.Current().value else savedValue
    }

    lemma KeyIsCurrent()
      requires Inv() && valid
      ensures position < |TheView()|
      ensures direction.Forward? ==> iter.Valid() && iter.Current() == TheView()[position]
      ensures direction.Reverse? ==> savedKey == Some(TheView()[position].key.user)
                                     && savedValue == TheView()[position].value
    {
      var cur: nat :| At(cur);
      ViewPrefix(iter.entries, sequence, cur + 1, |iter.entries|);
    }
  
    // ---- moving forward ---------------------------------------------------------------------------

    /** Shown, and past the key to be skipped. */
    ghost predicate Wanted(floor: Option<UserKey>, i: nat)
      requires i < |iter.entries|
    {
      Shown(iter.entries, sequence, i) && (floor.Some? ==> floor.value < iter.entries[i].key.user)
    }

    ghost predicate NoneWanted(floor: Option<UserKey>, i: nat, j: nat) {
      forall m :: i <= m < j && m < |iter.entries| ==> !Wanted(floor, m)
    }

    /** What the forward scan knows at index i: an entry hidden by an earlier one is being skipped,
      * and skipping loses nothing that is wanted.
      */
    ghost predicate Skips(floor: Option<UserKey>, skipping: bool, skip: Option<UserKey>, i: nat) {
      var es := iter.entries;
      && (skipping ==> skip.Some?)
      && (floor.Some? ==> skipping && floor.value <= skip.value)
      && (forall j :: 0 <= j < i < |es| && es[j].key.user == es[i].key.user && Seen(es, sequence, j)
            ==> skipping && es[i].key.user <= skip.value)
      && (skipping ==> forall j :: i <= j < |es| && Seen(es, sequence, j) ==> skip.value <= es[j].key.user)
      && (skipping ==> forall j :: i <= j < |es| && es[j].key.user == skip.value ==> !Wanted(floor, j))
    }

    method FindNextUserEntry(skip0: bool, ghost floor: Option<UserKey>)
      requires Sorted(iter.entries) && iter.Valid() && direction.Forward?
      requires Skips(floor, skip0, savedKey, iter.index)
      modifies this, iter
      ensures direction.Forward? && position == old(position)
      ensures valid ==> iter.Valid() && old(iter.index) <= iter.index
                        && Wanted(floor, iter.index) && NoneWanted(floor, old(iter.index), iter.index)
      ensures !valid ==> NoneWanted(floor, old(iter.index), |iter.entries|)
    {
      hide View;
      ghost var start := iter.index;
      var skipping := skip0;
      while true
        invariant iter.Valid() && start <= iter.index && direction.Forward? && position == old(position)
        invariant Skips(floor, skipping, savedKey, iter.index)
        invariant NoneWanted(floor, start, iter.index)
        decreases |iter.entries| - iter.index
      {
        var e := iter.Current();
        if e.key.seqno <= sequence {
          match e.key.kind {
            case Deletion =>
              savedKey := Some(e.key.user);
              skipping := true;
            case Value =>
              if skipping && e.key.user <= savedKey.value {
              } else {
                valid := true;
                savedKey := None;
                return;
              }
          }
        }
        iter.Next();
        if !iter.Valid() {
          break;
        }
      }
      savedKey := None;
      valid := false;
    }
  
    ghost predicate NoneShown(i: nat, j: nat) {
      forall m :: i <= m < j && m < |iter.entries| ==> !Shown(iter.entries, sequence, m)
    }

    lemma NextIsNext(cur: nat, start: nat, next: nat)
      requires Sorted(iter.entries) && cur < |iter.entries| && Shown(iter.entries, sequence, cur)
      requires start <= cur + 1 && next <= |iter.entries|
      requires NoneWanted(Some(iter.entries[cur].key.user), start, next)
      requires next < |iter.entries| ==> Wanted(Some(iter.entries[cur].key.user), next)
      ensures cur < next
      ensures |View(iter.entries, sequence, next)| == |View(iter.entries, sequence, cur)| + 1
    {
      var es := iter.entries;
      assert next < |es| && next < cur ==> Less(es[next].key, es[cur].key);
      forall m | cur < m < next ensures !Shown(es, sequence, m) {
        assert Less(es[cur].key, es[m].key);
        assert !Wanted(Some(es[cur].key.user), m);
      }
      ViewGap(es, sequence, cur + 1, next);
    }

    method Next()
      requires Inv() && valid
      modifies this, iter
      ensures Inv() && position == old(position) + 1
      ensures valid <==> position < |TheView()|
    {
      hide View, NoneWanted;
      KeyIsCurrent();
      ghost var cur: nat :| At(cur);
      ghost var floor := Some(iter.entries[cur].key.user);
      if direction == Reverse {
        direction := Forward;
        if !iter.Valid() {
          iter.SeekToFirst();
        } else {
          iter.Next();
        }
        if !iter.Valid() {
          // iter_ was before the entries of the current key
          assert false;
        }
      } else {
        savedKey := Some(iter.Current().key.user);
      }
      ghost var start := iter.index;
      FindNextUserEntry(true, floor);
      ghost var next := if valid then iter.index else |iter.entries|;
      NextIsNext(cur, start, next);
      position := |View(iter.entries, sequence, next)|;
      if valid {
        assert At(next);
        KeyIsCurrent();
      }
    }

    // ---- moving backward --------------------------------------------------------------------------

    /** The lowest visible index in (i, top], or top + 1 if there is none. */
    ghost predicate Lowest(i: int, top: int, m: int) {
      && -1 <= i <= top < |iter.entries| && i < m <= top + 1
      && (m <= top ==> Seen(iter.entries, sequence, m))
      && forall j :: i < j < m ==> !Seen(iter.entries, sequence, j)
    }

    /** Another visible entry: what was the lowest one so far is not shown, being the older of two. */
    lemma NextLowest(i: nat, top: int, m: int)
      requires Lowest(i, top, m) && Seen(iter.entries, sequence, i) && NoneShown(m + 1, top + 1)
      requires m <= top ==> !Shown(iter.entries, sequence, m)
                            || iter.entries[i].key.user == iter.entries[m].key.user
      ensures NoneShown(i + 1, top + 1)
      ensures i > 0 ==> Lowest(i - 1, top, i)
    {
    }

    /** The lowest visible entry is shown once an entry of a smaller user key has been reached. */
    lemma LowestIsShown(i: int, top: int, m: nat)
      requires Sorted(iter.entries) && m <= top < |iter.entries| && Seen(iter.entries, sequence, m)
      requires iter.entries[m].key.kind.Value? && -1 <= i < m
      requires forall j :: i < j < m ==> !Seen(iter.entries, sequence, j)
      requires i >= 0 ==> iter.entries[i].key.user < iter.entries[m].key.user
      ensures Shown(iter.entries, sequence, m)
    {
      forall j | 0 <= j <= i ensures iter.entries[j].key.user < iter.entries[m].key.user {
        assert j < i ==> Less(iter.entries[j].key, iter.entries[i].key);
      }
    }

    method FindPrevUserEntry() returns (ghost cur: nat)
      requires Sorted(iter.entries) && direction.Reverse?
      requires iter.Valid() ==> forall j :: iter.index < j < |iter.entries| && Seen(iter.entries, sequence, j)
                                  ==> iter.entries[iter.index].key.user < iter.entries[j].key.user
      modifies this, iter
      ensures position == old(position)
      ensures valid ==>
        && direction.Reverse? && old(iter.Valid()) && cur <= old(iter.index)
        && cur < |iter.entries| && Shown(iter.entries, sequence, cur) && Behind(cur)
        && savedKey == Some(iter.entries[cur].key.user) && savedValue == iter.entries[cur].value
        && NoneShown(cur + 1, old(iter.index) + 1)
      ensures !valid ==> direction.Forward? && (old(iter.Valid()) ==> NoneShown(0, old(iter.index) + 1))
    {
      hide View, Shown;
      ghost var top: int := if iter.Valid() then iter.index else -1;
      ghost var m: int := top + 1;
      var valueType := Deletion;
      cur := 0;
      if iter.Valid() {
        while true
          invariant iter.Valid() && direction.Reverse? && position == old(position)
          invariant Lowest(iter.index, top, m) && NoneShown(m + 1, top + 1)
          invariant valueType.Deletion? ==> m == top + 1 || iter.entries[m].key.kind.Deletion?
          invariant valueType.Value? ==> m <= top && iter.entries[m].key.kind.Value?
                                         && savedKey == Some(iter.entries[m].key.user)
                                         && savedValue == iter.entries[m].value
          decreases iter.index
        {
          var e := iter.Current();
          if e.key.seqno <= sequence {
            if !valueType.Deletion? && e.key.user < savedKey.value {
              break;
            }
            OlderOfTwo(iter.index, top, m, valueType);
            NextLowest(iter.index, top, m);
            m := iter.index;
            valueType := e.key.kind;
            if valueType.Deletion? {
              savedKey := None;
              savedValue := [];
            } else {
              savedKey := Some(e.key.user);
              savedValue := e.value;
            }
          }
          iter.Prev();
          if !iter.Valid() {
            break;
          }
        }
      }
      if valueType.Deletion? {
        if top >= 0 {
          NothingIsShown(top, m);
        }
        valid := false;
        savedKey := None;
        savedValue := [];
        direction := Forward;
      } else {
        LowestIsShown(if iter.Valid() then iter.index else -1, top, m);
        valid := true;
        cur := m;
      }
    }

    lemma OlderOfTwo(i: nat, top: int, m: int, valueType: ValueType)
      requires Sorted(iter.entries) && Lowest(i, top, m)
      requires valueType.Deletion? ==> m == top + 1 || iter.entries[m].key.kind.Deletion?
      requires valueType.Value? ==> m <= top && iter.entries[m].key.user <= iter.entries[i].key.user
      ensures m <= top ==> !Shown(iter.entries, sequence, m)
                           || iter.entries[i].key.user == iter.entries[m].key.user
    {
      assert m <= top ==> Less(iter.entries[i].key, iter.entries[m].key);
    }

    lemma NothingIsShown(top: int, m: int)
      requires 0 <= m <= top + 1 <= |iter.entries| && NoneShown(m + 1, top + 1)
      requires m == top + 1 || iter.entries[m].key.kind.Deletion?
      requires forall j :: 0 <= j < m ==> !Seen(iter.entries, sequence, j)
      ensures NoneShown(0, top + 1)
    {
    }

    lemma PrevIsPrev(cur: nat, prev: nat, top: nat)
      requires cur < |iter.entries| && Shown(iter.entries, sequence, cur) && prev <= top < cur
      requires Shown(iter.entries, sequence, prev) && NoneShown(prev + 1, top + 1)
      requires forall j :: top < j < cur ==> !Seen(iter.entries, sequence, j)
      ensures |View(iter.entries, sequence, prev)| == |View(iter.entries, sequence, cur)| - 1
    {
      forall m | prev < m < cur ensures !Shown(iter.entries, sequence, m) {
      }
      ViewGap(iter.entries, sequence, prev + 1, cur);
    }

    /** After the move backwards from cur: at the entry before it, or at none if it was the first. */
    method StepBack(ghost cur: nat)
      requires Sorted(iter.entries) && direction.Reverse?
      requires cur < |iter.entries| && Shown(iter.entries, sequence, cur) && Behind(cur)
      requires position == |View(iter.entries, sequence, cur)|
      modifies this, iter
      ensures Inv() && (valid <==> old(position) > 0)
      ensures valid ==> position == old(position) - 1
    {
      ghost var top: int := if iter.Valid() then iter.index else -1;
      forall j | 0 <= top < j < |iter.entries| && Seen(iter.entries, sequence, j)
        ensures iter.entries[top].key.user < iter.entries[j].key.user
      {
        assert j > cur ==> Less(iter.entries[cur].key, iter.entries[j].key);
      }
      ghost var prev := FindPrevUserEntry();
      if valid {
        PrevIsPrev(cur, prev, top);
        position := |View(iter.entries, sequence, prev)|;
        assert At(prev);
      } else {
        forall m | 0 <= m < cur ensures !Shown(iter.entries, sequence, m) {
        }
        ViewGap(iter.entries, sequence, 0, cur);
        position := |TheView()|;
      }
    }

    method Prev()
      requires Inv() && valid
      modifies this, iter
      ensures Inv() && (valid <==> old(position) > 0)
      ensures position == if old(position) > 0 then old(position) - 1 else |TheView()|
    {
      ghost var cur: nat :| At(cur);
      if direction == Forward {
        var key := iter.Current().key.user;
        savedKey := Some(key);
        while true
          invariant iter.Valid() && iter.index <= cur && iter.entries[iter.index].key.user == key
          invariant valid && position == old(position) && direction.Forward? && savedKey == Some(key)
          invariant forall j :: iter.index <= j < cur ==> !Seen(iter.entries, sequence, j)
          decreases iter.index
        {
          ghost var i := iter.index;
          iter.Prev();
          if !iter.Valid() {
            valid := false;
            savedKey := None;
            savedValue := [];
            ViewGap(iter.entries, sequence, 0, cur);
            position := |TheView()|;
            return;
          }
          assert Less(iter.entries[i - 1].key, iter.entries[i].key);
          if iter.Current().key.user < savedKey.value {
            break;
          }
        }
        direction := Reverse;
      }
      StepBack(cur);
    }

    lemma AllShownWanted(i: nat, j: nat)
      requires NoneWanted(None, i, j) && j <= |iter.entries|
      ensures NoneShown(i, j)
    {
      forall m | i <= m < j ensures !Shown(iter.entries, sequence, m) {
        assert !Wanted(None, m);
      }
    }

    // ---- positioning ------------------------------------------------------------------------------

    method SeekToFirst()
      requires Inv()
      modifies this, iter
      ensures Inv() && position == 0 && (valid <==> TheView() != [])
    {
      direction := Forward;
      savedValue := [];
      iter.SeekToFirst();
      ghost var next := 0;
      if iter.Valid() {
        FindNextUserEntry(false, None);
        next := if valid then iter.index else |iter.entries|;
      } else {
        valid := false;
      }
      AllShownWanted(0, next);
      ViewGap(iter.entries, sequence, 0, next);
      position := |View(iter.entries, sequence, next)|;
      if valid {
        assert At(next);
        KeyIsCurrent();
      }
    }

    method SeekToLast()
      requires Inv()
      modifies this, iter
      ensures Inv() && (valid <==> TheView() != [])
      ensures valid ==> position == |TheView()| - 1
    {
      direction := Reverse;
      savedValue := [];
      iter.SeekToLast();
      ghost var n := |iter.entries|;
      ghost var prev := FindPrevUserEntry();
      if valid {
        ViewGap(iter.entries, sequence, prev + 1, n);
        position := |View(iter.entries, sequence, prev)|;
        assert At(prev);
      } else {
        ViewGap(iter.entries, sequence, 0, n);
        position := |TheView()|;
      }
    }

    /** Seek: at the first visible key at or after u. */
    method Seek(u: UserKey)
      requires Inv()
      modifies this, iter
      ensures Inv() && position <= |TheView()| && (valid <==> position < |TheView()|)
      ensures forall k :: 0 <= k < position ==> TheView()[k].key.user < u
      ensures valid ==> u <= TheView()[position].key.user
    {
      direction := Forward;
      savedValue := [];
      savedKey := None;
      iter.Seek(LookupKey(u, sequence));
      ghost var start := iter.index;
      ghost var next := start;
      if iter.Valid() {
        SeekSkipsUnseen(u, start);
        FindNextUserEntry(false, None);
        next := if valid then iter.index else |iter.entries|;
      } else {
        valid := false;
      }
      AllShownWanted(start, next);
      ViewGap(iter.entries, sequence, start, next);
      position := |View(iter.entries, sequence, next)|;
      SeekSkipsUnseen(u, start);
      ViewBelow(iter.entries, sequence, start, u);
      ViewPrefix(iter.entries, sequence, next, |iter.entries|);
      if valid {
        assert At(next);
        KeyIsCurrent();
        assert start < next ==> Less(iter.entries[start].key, iter.entries[next].key);
      }
    }

    lemma SeekSkipsUnseen(u: UserKey, start: nat)
      requires Sorted(iter.entries) && start == SeekIndex(iter.entries, LookupKey(u, sequence))
      ensures forall j :: 0 <= j < start && Seen(iter.entries, sequence, j) ==> iter.entries[j].key.user < u
      ensures start < |iter.entries| ==> u <= iter.entries[start].key.user
    {
    }
  }

  lemma {:induction false} ViewBelow(es: seq<Entry>, s: SequenceNumber, n: nat, u: UserKey)
    requires n <= |es| && forall j :: 0 <= j < n && Seen(es, s, j) ==> es[j].key.user < u
    ensures forall k :: 0 <= k < |View(es, s, n)| ==> View(es, s, n)[k].key.user < u
  {
    if n > 0 { ViewBelow(es, s, n - 1, u); }
  }

  // ---- the view is the map of all reads -------------------------------------------------------------

  lemma {:induction false} ViewHolds(es: seq<Entry>, s: SequenceNumber, n: nat, e: Entry)
    requires n <= |es|
    ensures e in View(es, s, n) <==> exists i :: 0 <= i < n && Shown(es, s, i) && es[i] == e
  {
    if n > 0 { ViewHolds(es, s, n - 1, e); }
  }

  lemma {:induction false} ViewAscends(es: seq<Entry>, s: SequenceNumber, n: nat)
    requires Sorted(es) && n <= |es|
    ensures forall i, j :: 0 <= i < j < |View(es, s, n)|
                           ==> View(es, s, n)[i].key.user < View(es, s, n)[j].key.user
  {
    if n > 0 {
      ViewAscends(es, s, n - 1);
      var v := View(es, s, n - 1);
      if Shown(es, s, n - 1) {
        forall i | 0 <= i < |v| ensures v[i].key.user < es[n - 1].key.user {
          ViewHolds(es, s, n - 1, v[i]);
          var j :| 0 <= j < n - 1 && Shown(es, s, j) && es[j] == v[i];
          assert Less(es[j].key, es[n - 1].key);
        }
      }
    }
  }

  lemma ShownIsNewest(es: seq<Entry>, s: SequenceNumber, i: nat)
    requires Sorted(es) && i < |es| && es[i].key.kind.Value?
    ensures Shown(es, s, i) <==> Newest(EntrySet(es), es[i].key.user, s, es[i])
  {
    forall j | 0 <= j < |es| && es[j].key.user == es[i].key.user
      ensures Tag(es[j].key) <= Tag(es[i].key) <==> i <= j
    {
      assert j < i ==> Less(es[j].key, es[i].key);
      assert i < j ==> Less(es[i].key, es[j].key);
    }
    forall x | x in EntrySet(es) ensures exists j :: 0 <= j < |es| && es[j] == x {
    }
    forall j | 0 <= j < |es| ensures es[j] in EntrySet(es) && (Visible(es[j], es[i].key.user, s)
                                     <==> es[j].key.user == es[i].key.user && Seen(es, s, j)) {
    }
  }

  lemma SortedKeysUnique(es: seq<Entry>)
    requires Sorted(es)
    ensures KeysUnique(EntrySet(es))
  {
    forall e, x | e in EntrySet(es) && x in EntrySet(es) && e.key == x.key ensures e == x {
      var i :| 0 <= i < |es| && es[i] == e;
      var j :| 0 <= j < |es| && es[j] == x;
    }
  }

  /** Walking through the view meets each user key that a point read finds, once, with its value. */
  lemma ViewIsAllReads(es: seq<Entry>, s: SequenceNumber, u: UserKey, value: Bytes)
    requires Sorted(es)
    ensures Read(EntrySet(es), u, s) == Found(value)
            <==> exists e :: e in View(es, s, |es|) && e.key.user == u && e.value == value
  {
    hide Read, Sorted;
    SortedKeysUnique(es);
    if e :| e in View(es, s, |es|) && e.key.user == u && e.value == value {
      ViewHolds(es, s, |es|, e);
      var i :| 0 <= i < |es| && Shown(es, s, i) && es[i] == e;
      ShownIsNewest(es, s, i);
      ReadIsNewest(EntrySet(es), u, s, e);
    }
    if Read(EntrySet(es), u, s) == Found(value) {
      FoundHasNewest(EntrySet(es), u, s);
      var e :| Newest(EntrySet(es), u, s, e);
      ReadIsNewest(EntrySet(es), u, s, e);
      var i :| 0 <= i < |es| && es[i] == e;
      ShownIsNewest(es, s, i);
      ViewHolds(es, s, |es|, e);
    }
  }

  lemma FoundHasNewest(S: iset<Entry>, u: UserKey, s: SequenceNumber)
    requires Read(S, u, s).Found?
    ensures exists e :: Newest(S, u, s, e)
  {
  }
}
