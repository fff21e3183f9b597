/** MergingIterator (table/merger.cc): n children behave as one cursor over their sorted merge. */
module MergingIterators {
  import opened InternalKeys
  import opened Versions
  import opened Cursors
  import opened Merging

  datatype Direction = Forward | Reverse

  /** The first c entries of a child come before position p of the merge, the others do not. */
  ghost predicate Splits(es: seq<Entry>, c: nat, merged: seq<Entry>, p: nat) {
    && c <= |es| && p <= |merged|
    && (forall j :: 0 <= j < c ==> es[j] in merged[..p])
    && (forall j :: c <= j < |es| ==> es[j] in merged[p..])
  }

  /** Seeking cuts a sorted sequence into what is before the key and what is not. */
  lemma SeekSide(es: seq<Entry>, k: InternalKey, j: nat)
    requires Sorted(es) && j < |es|
    ensures j < SeekIndex(es, k) <==> Less(es[j].key, k)
  {
    var c := SeekIndex(es, k);
    assert c < j ==> Less(es[c].key, es[j].key);
  }

  lemma SeekSplits(es: seq<Entry>, merged: seq<Entry>, k: InternalKey)
    requires Sorted(es) && Sorted(merged) && forall e :: e in es ==> e in merged
    ensures Splits(es, SeekIndex(es, k), merged, SeekIndex(merged, k))
  {
    hide Less, Sorted, SeekIndex;
    var c, p := SeekIndex(es, k), SeekIndex(merged, k);
    forall j | 0 <= j < |es| ensures if j < c then es[j] in merged[..p] else es[j] in merged[p..] {
      assert es[j] in merged;
      var m :| 0 <= m < |merged| && merged[m] == es[j];
      SeekSide(es, k, j);
      SeekSide(merged, k, m);
      assert m < p ==> merged[..p][m] == es[j];
      assert m >= p ==> merged[p..][m - p] == es[j];
    }
  }

  lemma SeekFinds(es: seq<Entry>, i: nat)
    requires Sorted(es) && i < |es|
    ensures SeekIndex(es, es[i].key) == i
  {
    SeekSide(es, es[i].key, i);
    if i > 0 { SeekSide(es, es[i].key, i - 1); }
    assert i > 0 ==> Less(es[i - 1].key, es[i].key);
  }

  /** Moving the cut over entry p of the merge: only the child that holds it is affected. */
  lemma SplitsMove(es: seq<Entry>, c: nat, merged: seq<Entry>, p: nat)
    requires p < |merged| && Sorted(merged)
    ensures Splits(es, c, merged, p) && merged[p] !in es ==> Splits(es, c, merged, p + 1)
    ensures Splits(es, c, merged, p + 1) && merged[p] !in es ==> Splits(es, c, merged, p)
    ensures Sorted(es) && c < |es| && es[c] == merged[p] ==>
              (Splits(es, c, merged, p) <==> Splits(es, c + 1, merged, p + 1))
  {
    assert merged[p..] == [merged[p]] + merged[p + 1..];
    assert merged[..p + 1] == merged[..p] + [merged[p]];
    if Sorted(es) && c < |es| && es[c] == merged[p] {
      forall j | 0 <= j < |es| && j != c ensures es[j] != merged[p] {
        assert if j < c then Less(es[j].key, es[c].key) else Less(es[c].key, es[j].key);
      }
    }
  }

  lemma AtFrontOfTail(merged: seq<Entry>, p: nat, e: Entry)
    requires Sorted(merged) && p < |merged| && e in merged[p..]
    ensures e == merged[p] || Less(merged[p].key, e.key)
  {
    var m :| 0 <= m < |merged[p..]| && merged[p..][m] == e;
    assert e == merged[p + m];
  }

  lemma AtEndOfHead(merged: seq<Entry>, p: nat, e: Entry)
    requires Sorted(merged) && 0 < p <= |merged| && e in merged[..p]
    ensures e == merged[p - 1] || Less(e.key, merged[p - 1].key)
  {
    var m :| 0 <= m < p && merged[m] == e;
  }

  class MergingIterator {
    const children: seq<Cursor>
    ghost const merged: seq<Entry>
    var current: Option<nat>
    var direction: Direction

    /** Where the cursor stands in the merge; its length when not valid. */
    ghost var position: nat

    constructor (children: seq<Cursor>)
      requires forall i, j :: 0 <= i < |children| && 0 <= j < |children| && i != j
                              ==> children[i] != children[j]
      requires forall i :: 0 <= i < |children| ==> Sorted(children[i].entries)
      requires forall i, j :: 0 <= i < |children| && 0 <= j < |children| && i != j
                              ==> NoSharedKey(children[i].entries, children[j].entries)
      ensures this.children == children && Inv() && !IsValid()
    {
      this.children := children;
      this.current, this.direction := None, Forward;
      var tables := seq(|children|, i requires 0 <= i < |children| => children[i].entries);
      this.merged := MergeTables(tables);
      this.position := |MergeTables(tables)|;
      MergeTablesSorted(tables);
      assert forall i :: 0 <= i < |children| ==> tables[i] == children[i].entries;
    }

    /** The parts of the invariant that no operation changes. */
    ghost predicate Fixed() {
      && (forall i, j :: 0 <= i < |children| && 0 <= j < |children| && i != j ==> children[i] != children[j])
      && MergeOfChildren()
    }

    ghost predicate MergeOfChildren() {
      && (forall i :: 0 <= i < |children| ==> Sorted(children[i].entries))
      && (forall i, j :: 0 <= i < |children| && 0 <= j < |children| && i != j
            ==> NoSharedKey(children[i].entries, children[j].entries))
      && Sorted(merged)
      && (forall e :: e in merged ==> exists i :: 0 <= i < |children| && e in children[i].entries)
      && (forall i, e :: 0 <= i < |children| && e in children[i].entries ==> e in merged)
    }

    /** How many of its entries a child has on the near side of the cut. */
    function Count(dir: Direction, i: nat): nat
      requires i < |children|
      reads children
    {
      if dir.Forward? then children[i].index
      else if children[i].Valid() then children[i].index + 1 else 0
    }

    ghost predicate Cut(dir: Direction, p: nat)
      reads children
    {
      forall i :: 0 <= i < |children| ==> Splits(children[i].entries, Count(dir, i), merged, p)
    }

    predicate IsValid()
      reads this
    {
      current.Some?
    }

    ghost predicate AtPosition()
      reads this, children
    {
      && current.Some? && current.value < |children| && children[current.value].Valid()
      && position < |merged| && children[current.value].Current() == merged[position]
    }

    ghost predicate Inv()
      reads this, children
    {
      && Fixed()
      && (if current.Some? then
            AtPosition() && Cut(direction, if direction.Forward? then position else position + 1)
          else position == |merged|)
    }

    function Current(): (e: Entry)
      requires Inv() && IsValid()
      reads this, children
      ensures position < |merged| && e == merged[position]
    {
      children[current.value].Current()
    }

    /** FindSmallest: the least of the children's entries is the entry just after the cut. */
    method FindSmallest(ghost p: nat)
      requires Fixed() && p <= |merged| && Cut(Forward, p)
      modifies this
      ensures direction == old(direction) && position == p
      ensures if p < |merged| then AtPosition() else current == None
    {
      var smallest: Option<nat> := None;
      for i := 0 to |children|
        invariant smallest.Some? ==> smallest.value < i && children[smallest.value].Valid()
        invariant forall j :: 0 <= j < i && children[j].Valid() ==>
          smallest.Some? && !Less(children[j].Current().key, children[smallest.value].Current().key)
      {
        if children[i].Valid() {
          if smallest.None? {
            smallest := Some(i);
          } else if Compare(children[i].Current().key, children[smallest.value].Current().key) < 0 {
            smallest := Some(i);
          }
        }
      }
      current := smallest;
      position := p;
      if p < |merged| {
        var i := HolderOf(p);
        AtFrontOfTail(merged, p, children[i].Current());
        AtFrontOfTail(merged, p, children[smallest.value].Current());
      }
    }

    /** Some child is standing on the first entry after the cut. */
    lemma HolderOf(p: nat) returns (i: nat)
      requires Fixed() && p < |merged| && Cut(Forward, p)
      ensures i < |children| && children[i].Valid() && children[i].Current() == merged[p]
    {
      assert merged[p] in merged;
      i :| 0 <= i < |children| && merged[p] in children[i].entries;
      var es := children[i].entries;
      var j :| 0 <= j < |es| && es[j] == merged[p];
      var c := children[i].index;
      assert Splits(es, c, merged, p);
      assert merged[p] !in merged[..p];
      assert c < j ==> Less(es[c].key, es[j].key);
      AtFrontOfTail(merged, p, es[c]);
    }
  
    /** FindLargest: the greatest of the children's entries is the entry just before the cut. */
    method FindLargest(ghost p: nat)
      requires Fixed() && p <= |merged| && Cut(Reverse, p)
      modifies this
      ensures direction == old(direction)
      ensures if p > 0 then position == p - 1 && AtPosition() else current == None && position == |merged|
    {
      var largest: Option<nat> := None;
      for i := |children| downto 0
        invariant largest.Some? ==> i <= largest.value < |children| && children[largest.value].Valid()
        invariant forall j :: i <= j < |children| && children[j].Valid() ==>
          largest.Some? && !Less(children[largest.value].Current().key, children[j].Current().key)
      {
        if children[i].Valid() {
          if largest.None? {
            largest := Some(i);
          } else if Compare(children[i].Current().key, children[largest.value].Current().key) > 0 {
            largest := Some(i);
          }
        }
      }
      current := largest;
      position := if p > 0 then p - 1 else |merged|;
      if p > 0 {
        var i := LastHolderOf(p);
        AtEndOfHead(merged, p, children[i].Current());
        AtEndOfHead(merged, p, children[largest.value].Current());
      }
    }

    lemma LastHolderOf(p: nat) returns (i: nat)
      requires Fixed() && 0 < p <= |merged| && Cut(Reverse, p)
      ensures i < |children| && children[i].Valid() && children[i].Current() == merged[p - 1]
    {
      assert merged[p - 1] in merged;
      i :| 0 <= i < |children| && merged[p - 1] in children[i].entries;
      assert Splits(children[i].entries, Count(Reverse, i), merged, p);
      LastOfHead(children[i].entries, Count(Reverse, i), p);
    }

    lemma LastOfHead(es: seq<Entry>, c: nat, p: nat)
      requires Sorted(merged) && Sorted(es) && 0 < p <= |merged| && merged[p - 1] in es
      requires Splits(es, c, merged, p)
      ensures c > 0 && es[c - 1] == merged[p - 1]
    {
      var j :| 0 <= j < |es| && es[j] == merged[p - 1];
      forall m | p <= m < |merged| ensures merged[m] != merged[p - 1] {
        assert Less(merged[p - 1].key, merged[m].key);
      }
      assert j < c;
      assert j < c - 1 ==> Less(es[j].key, es[c - 1].key);
      AtEndOfHead(merged, p, es[c - 1]);
    }

    // ---- positioning ------------------------------------------------------------------------------

    lemma WholeIsSplit()
      requires Fixed()
      ensures forall i :: 0 <= i < |children| ==>
                Splits(children[i].entries, |children[i].entries|, merged, |merged|)
    {
      assert merged[..|merged|] == merged;
    }

    method SeekToFirst()
      requires Inv()
      modifies this, children
      ensures Inv() && (IsValid() <==> merged != []) && position == 0
    {
      for i := 0 to |children|
        invariant Fixed() && forall j :: 0 <= j < i ==> children[j].index == 0
      {
        children[i].SeekToFirst();
      }
      FindSmallest(0);
      direction := Forward;
    }

    method SeekToLast()
      requires Inv()
      modifies this, children
      ensures Inv() && (IsValid() <==> merged != []) && (merged != [] ==> position == |merged| - 1)
    {
      for i := 0 to |children|
        invariant Fixed() && forall j :: 0 <= j < i ==> Count(Reverse, j) == |children[j].entries|
      {
        children[i].SeekToLast();
      }
      WholeIsSplit();
      FindLargest(|merged|);
      direction := Reverse;
    }

    lemma SeekCuts(target: InternalKey)
      requires Fixed()
      requires forall j :: 0 <= j < |children| ==> children[j].index == SeekIndex(children[j].entries, target)
      ensures Cut(Forward, SeekIndex(merged, target))
    {
      hide SeekIndex, Sorted, Splits;
      forall i | 0 <= i < |children|
        ensures Splits(children[i].entries, Count(Forward, i), merged, SeekIndex(merged, target))
      {
        SeekSplits(children[i].entries, merged, target);
      }
    }

    method Seek(target: InternalKey)
      requires Inv()
      modifies this, children
      ensures Inv() && position == SeekIndex(merged, target) && (IsValid() <==> position < |merged|)
    {
      hide SeekIndex, Sorted, Splits, MergeOfChildren;
      for i := 0 to |children|
        invariant Fixed()
        invariant forall j :: 0 <= j < i ==> children[j].index == SeekIndex(children[j].entries, target)
      {
        children[i].Seek(target);
      }
      SeekCuts(target);
      FindSmallest(SeekIndex(merged, target));
      direction := Forward;
    }

    // ---- moving -------------------------------------------------------------------------------------

    ghost predicate SplitAll(counts: seq<nat>, p: nat) {
      && |counts| == |children|
      && forall i :: 0 <= i < |children| ==> Splits(children[i].entries, counts[i], merged, p)
    }

    ghost function Counts(dir: Direction): (r: seq<nat>)
      reads children
      ensures |r| == |children| && forall i :: 0 <= i < |children| ==> r[i] == Count(dir, i)
    {
      seq(|children|, i requires 0 <= i < |children| reads children => Count(dir, i))
    }

    /** Moving the cut over entry p means moving just the child that holds it. */
    lemma StepCut(counts: seq<nat>, c: nat, p: nat)
      requires Fixed() && |counts| == |children| && c < |children| && p < |merged|
      requires counts[c] < |children[c].entries| && children[c].entries[counts[c]] == merged[p]
      ensures SplitAll(counts, p) <==> SplitAll(counts[c := counts[c] + 1], p + 1)
    {
      var counts' := counts[c := counts[c] + 1];
      forall i | 0 <= i < |children|
        ensures Splits(children[i].entries, counts[i], merged, p)
                <==> Splits(children[i].entries, counts'[i], merged, p + 1)
      {
        SplitsMove(children[i].entries, counts[i], merged, p);
        if i != c {
          OthersLack(c, i, merged[p]);
        }
      }
    }

    lemma OthersLack(c: nat, i: nat, e: Entry)
      requires Fixed() && c < |children| && i < |children| && i != c && e in children[c].entries
      ensures forall x :: x in children[i].entries ==> x.key != e.key
    {
      assert NoSharedKey(children[i].entries, children[c].entries);
    }

    method Next()
      requires Inv() && IsValid()
      modifies this, children
      ensures Inv() && position == old(position) + 1 && (IsValid() <==> position < |merged|)
    {
      hide Splits, MergeOfChildren;
      ghost var p := position;
      if direction != Forward {
        SwitchToForward();
      }
      StepForward();
      FindSmallest(p + 1);
    }

    /** current_->Next(): the cut moves past the current entry. */
    method StepForward()
      requires Fixed() && AtPosition() && Cut(Forward, position)
      modifies children
      ensures Cut(Forward, position + 1)
    {
      hide Splits, MergeOfChildren;
      var c := current.value;
      ghost var counts := Counts(Forward);
      StepCut(counts, c, position);
      children[c].Next();
      forall i | 0 <= i < |children| ensures Splits(children[i].entries, Count(Forward, i), merged, position + 1) {
        assert i != c ==> children[i] != children[c];
        assert Count(Forward, i) == counts[c := counts[c] + 1][i];
      }
    }

    method Prev()
      requires Inv() && IsValid()
      modifies this, children
      ensures Inv() && (IsValid() <==> old(position) > 0)
      ensures position == if old(position) > 0 then old(position) - 1 else |merged|
    {
      hide Splits, MergeOfChildren;
      ghost var p := position;
      if direction != Reverse {
        SwitchToReverse();
      }
      StepBackward();
      FindLargest(p);
    }

    /** current_->Prev(): the cut moves back before the current entry. */
    method StepBackward()
      requires Fixed() && AtPosition() && Cut(Reverse, position + 1)
      modifies children
      ensures Cut(Reverse, position)
    {
      hide Splits, MergeOfChildren;
      var c := current.value;
      ghost var counts := Counts(Reverse);
      StepCut(counts[c := counts[c] - 1], c, position);
      assert counts[c := counts[c] - 1][c := counts[c]] == counts;
      children[c].Prev();
      forall i | 0 <= i < |children| ensures Splits(children[i].entries, Count(Reverse, i), merged, position) {
        assert i != c ==> children[i] != children[c];
        assert Count(Reverse, i) == counts[c := counts[c] - 1][i];
      }
    }

    /** Turning around: place the other children just after the current key. */
    method SwitchToForward()
      requires Inv() && IsValid() && direction.Reverse?
      modifies this, children
      ensures Inv() && IsValid() && direction.Forward? && position == old(position)
    {
      ghost var p := position;
      for i := 0 to |children|
        invariant Fixed() && AtPosition() && position == p && direction.Reverse?
        invariant forall j :: 0 <= j < i && j != current.value
                    ==> children[j].index == SeekIndex(children[j].entries, merged[p].key)
      {
        if i != current.value {
          var key := children[current.value].Current().key;
          children[i].Seek(key);
          if children[i].Valid() && Compare(key, children[i].Current().key) == 0 {
            // children share no keys
            OthersLack(current.value, i, merged[p]);
            assert false;
          }
        }
      }
      direction := Forward;
      SplitAtCurrent(Seeks(merged[p].key));
      assert Counts(Forward) == Seeks(merged[p].key);
    }

    /** Turning around: place the other children just before the current key. */
    method SwitchToReverse()
      requires Inv() && IsValid() && direction.Forward?
      modifies this, children
      ensures Inv() && IsValid() && direction.Reverse? && position == old(position)
    {
      hide Splits, MergeOfChildren, SeekIndex;
      ghost var p := position;
      for i := 0 to |children|
        invariant Fixed() && AtPosition() && position == p && direction.Forward?
        invariant forall j :: 0 <= j < i && j != current.value
                    ==> Count(Reverse, j) == SeekIndex(children[j].entries, merged[p].key)
      {
        if i != current.value {
          children[i].Seek(children[current.value].Current().key);
          if children[i].Valid() {
            children[i].Prev();
          } else {
            children[i].SeekToLast();
          }
        }
      }
      direction := Reverse;
      CutAfterCurrent();
    }

    lemma CutAfterCurrent()
      requires Fixed() && AtPosition()
      requires forall j :: 0 <= j < |children| && j != current.value
                 ==> Count(Reverse, j) == SeekIndex(children[j].entries, merged[position].key)
      ensures Cut(Reverse, position + 1)
    {
      hide Splits, MergeOfChildren, SeekIndex;
      var seeks := Seeks(merged[position].key);
      SplitAtCurrent(seeks);
      StepCut(seeks, current.value, position);
      forall i | 0 <= i < |children| ensures Splits(children[i].entries, Count(Reverse, i), merged, position + 1) {
        assert Count(Reverse, i) == seeks[current.value := seeks[current.value] + 1][i];
      }
    }

    ghost function Seeks(k: InternalKey): (r: seq<nat>)
      ensures |r| == |children| && forall i :: 0 <= i < |children| ==> r[i] == SeekIndex(children[i].entries, k)
    {
      seq(|children|, i requires 0 <= i < |children| => SeekIndex(children[i].entries, k))
    }

    /** Sought to the current key, every child is cut where the merge is. */
    lemma SplitAtCurrent(seeks: seq<nat>)
      requires Fixed() && AtPosition() && seeks == Seeks(merged[position].key)
      ensures SplitAll(seeks, position) && seeks[current.value] == children[current.value].index
    {
      forall i | 0 <= i < |children| ensures Splits(children[i].entries, seeks[i], merged, position) {
        SeekSplits(children[i].entries, merged, merged[position].key);
        SeekFinds(merged, position);
      }
      SeekFinds(children[current.value].entries, children[current.value].index);
    }
  }
}
