/** Joining a sequence of sequences. */
module Sequences {
  lemma Assoc<T>(a: seq<T>, b: seq<T>, c: seq<T>)
    ensures a + (b + c) == (a + b) + c
  {
  }

  /** The first n parts, joined. */
  function Concat<T>(parts: seq<seq<T>>, n: nat): seq<T>
    requires n <= |parts|
  {
    if n == 0 then [] else Concat(parts, n - 1) + parts[n - 1]
  }

  lemma {:induction false} ConcatGrows<T>(parts: seq<seq<T>>, n: nat)
    requires n <= |parts|
    ensures |Concat(parts, n)| <= |Concat(parts, |parts|)|
  {
    ConcatSplit(parts, n, |parts|);
  }

  lemma {:induction false} ConcatPrefix<T>(a: seq<seq<T>>, b: seq<seq<T>>, n: nat)
    requires n <= |a| && n <= |b| && a[..n] == b[..n]
    ensures Concat(a, n) == Concat(b, n)
  {
    if n > 0 {
      assert a[..n][..n - 1] == a[..n - 1] && b[..n][..n - 1] == b[..n - 1];
      assert a[..n][n - 1] == b[..n][n - 1];
      ConcatPrefix(a, b, n - 1);
    }
  }

  lemma ConcatOneMore<T>(parts: seq<seq<T>>, part: seq<T>)
    ensures Concat(parts + [part], |parts| + 1) == Concat(parts, |parts|) + part
  {
    ConcatPrefix(parts, parts + [part], |parts|);
  }

  lemma {:induction false} ConcatSplit<T>(parts: seq<seq<T>>, n: nat, m: nat)
    requires n <= m <= |parts|
    ensures Concat(parts, m) == Concat(parts, n) + Concat(parts[n..], m - n)
    decreases m
  {
    if m > n {
      ConcatSplit(parts, n, m - 1);
      assert parts[n..][m - 1 - n] == parts[m - 1];
    }
  }

  /** Where an element of a part ends up. */
  lemma ConcatAt<T>(parts: seq<seq<T>>, i: nat, p: nat, n: nat)
    requires i < n <= |parts| && p < |parts[i]|
    ensures |Concat(parts, i)| + p < |Concat(parts, n)|
    ensures Concat(parts, n)[|Concat(parts, i)| + p] == parts[i][p]
  {
    ConcatSplit(parts, i, n);
    ConcatSplit(parts[i..], 1, n - i);
    var rest := Concat(parts[i..], n - i);
    assert Concat(parts[i..], 1) == parts[i] by { assert Concat(parts[i..], 0) + parts[i..][0] == parts[i]; }
    assert rest[p] == parts[i][p];
  }

  /** And where an element of the whole came from. */
  lemma {:induction false} ConcatFrom<T>(parts: seq<seq<T>>, n: nat, j: nat) returns (i: nat, p: nat)
    requires n <= |parts| && j < |Concat(parts, n)|
    ensures i < n && p < |parts[i]| && j == |Concat(parts, i)| + p && Concat(parts, n)[j] == parts[i][p]
  {
    if j < |Concat(parts, n - 1)| {
      i, p := ConcatFrom(parts, n - 1, j);
    } else {
      i, p := n - 1, j - |Concat(parts, n - 1)|;
    }
  }

  lemma EarlierPart<T>(parts: seq<seq<T>>, i: nat, p: nat, n: nat)
    requires i < n <= |parts| && p < |parts[i]|
    ensures |Concat(parts, i)| + p < |Concat(parts, n)|
  {
    ConcatAt(parts, i, p, n);
  }
}
