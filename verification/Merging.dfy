/** The sorted merge of several tables: what a merging iterator walks through. */
module Merging {
  import opened InternalKeys
  import opened History
  import opened Versions

  function Merge(a: seq<Entry>, b: seq<Entry>): seq<Entry>
    decreases |a| + |b|
  {
    if a == [] then b
    else if b == [] then a
    else if Compare(a[0].key, b[0].key) < 0 then [a[0]] + Merge(a[1..], b)
    else [b[0]] + Merge(a, b[1..])
  }

  ghost predicate NoSharedKey(a: seq<Entry>, b: seq<Entry>) {
    forall e, x :: e in a && x in b ==> e.key != x.key
  }

  lemma {:induction false} MergeSorted(a: seq<Entry>, b: seq<Entry>)
    requires Sorted(a) && Sorted(b) && NoSharedKey(a, b)
    ensures Sorted(Merge(a, b))
    ensures forall e :: e in Merge(a, b) <==> e in a || e in b
    decreases |a| + |b|
  {
    if a != [] && b != [] {
      if Compare(a[0].key, b[0].key) < 0 {
        MergeSorted(a[1..], b);
        HeadFirst(a, b);
        Prepend(a[0], Merge(a[1..], b));
      } else {
        assert a[0] in a && b[0] in b && Compare(a[0].key, b[0].key) != 0;
        MergeSorted(a, b[1..]);
        HeadFirst(b, a);
        Prepend(b[0], Merge(a, b[1..]));
      }
    }
  }

  lemma Prepend(h: Entry, es: seq<Entry>)
    requires Sorted(es) && forall e :: e in es ==> Less(h.key, e.key)
    ensures Sorted([h] + es)
  {
  }

  lemma HeadFirst(a: seq<Entry>, b: seq<Entry>)
    requires a != [] && b != [] && Sorted(a) && Sorted(b) && Less(a[0].key, b[0].key)
    ensures forall e :: e in a[1..] || e in b ==> Less(a[0].key, e.key)
    ensures forall e :: e in a <==> e == a[0] || e in a[1..]
  {
    forall e | e in b ensures Less(a[0].key, e.key) {
      var i :| 0 <= i < |b| && b[i] == e;
      assert i > 0 ==> Less(b[0].key, b[i].key);
    }
  }

  function MergeTables(tables: seq<seq<Entry>>): seq<Entry> {
    if tables == [] then [] else Merge(tables[0], MergeTables(tables[1..]))
  }

  ghost predicate Mergeable(tables: seq<seq<Entry>>) {
    && (forall i :: 0 <= i < |tables| ==> Sorted(tables[i]))
    && (forall i, j :: 0 <= i < j < |tables| ==> NoSharedKey(tables[i], tables[j]))
  }

  lemma {:induction false} MergeTablesSorted(tables: seq<seq<Entry>>)
    requires Mergeable(tables)
    ensures Sorted(MergeTables(tables))
    ensures forall e :: e in MergeTables(tables) <==> exists i :: 0 <= i < |tables| && e in tables[i]
  {
    if tables != [] {
      var rest := tables[1..];
      MergeTablesSorted(rest);
      forall e, x | e in tables[0] && x in MergeTables(rest) ensures e.key != x.key {
        var i :| 0 <= i < |rest| && x in rest[i];
        assert NoSharedKey(tables[0], tables[i + 1]);
      }
      MergeSorted(tables[0], MergeTables(rest));
      forall e ensures e in MergeTables(tables) <==> exists i :: 0 <= i < |tables| && e in tables[i] {
        if i :| 0 <= i < |tables| && e in tables[i] {
          assert i > 0 ==> e in rest[i - 1];
        }
        if i :| 0 <= i < |rest| && e in rest[i] {
          assert e in tables[i + 1];
        }
      }
    }
  }

  /** There is only one sorted sequence with given entries. */
  lemma {:induction false} OneSorting(a: seq<Entry>, b: seq<Entry>)
    requires Sorted(a) && Sorted(b) && forall e :: e in a <==> e in b
    ensures a == b
  {
    if a == [] {
      HasEntry(b);
    } else {
      assert a[0] in b;
      assert b[0] in a;
      FirstIsLeast(a, b[0]);
      FirstIsLeast(b, a[0]);
      TailEntries(a);
      TailEntries(b);
      OneSorting(a[1..], b[1..]);
      assert a == [a[0]] + a[1..] && b == [b[0]] + b[1..];
    }
  }

  lemma HasEntry(b: seq<Entry>)
    ensures b == [] || exists e :: e in b
  {
    if b != [] {
      assert b[0] in b;
    }
  }

  lemma TailEntries(a: seq<Entry>)
    requires a != [] && Sorted(a)
    ensures forall e :: e in a[1..] <==> e in a && e != a[0]
  {
    assert a[0] !in a[1..];
    assert a == [a[0]] + a[1..];
  }

  lemma FirstIsLeast(a: seq<Entry>, e: Entry)
    requires Sorted(a) && e in a
    ensures e == a[0] || Less(a[0].key, e.key)
  {
    var i :| 0 <= i < |a| && a[i] == e;
  }
}
