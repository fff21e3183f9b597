/** VersionSet::Builder: a whole sequence of edits is applied to a base version at once, without
  * the versions in between (db/version_set.cc).
  */
module Manifest {
  import opened InternalKeys
  import opened Versions

  /** The file changes of a VersionEdit: per level, numbers taken out and files put in. */
  datatype Edit = Edit(deleted: seq<set<nat>>, added: seq<seq<File>>)

  type VersionEdit = e: Edit | |e.deleted| == NUM_LEVELS && |e.added| == NUM_LEVELS
    witness Edit([{}, {}, {}, {}, {}, {}, {}], [[], [], [], [], [], [], []])

  function FileSet(files: seq<File>): set<File> {
    set f | f in files
  }

  function Numbers(files: set<File>): set<nat> {
    set f | f in files :: f.number
  }

  ghost predicate Distinct(files: set<File>) {
    forall f, g :: f in files && g in files && f.number == g.number ==> f == g
  }

  function Without(files: set<File>, deleted: set<nat>): set<File> {
    set f | f in files && f.number !in deleted
  }

  /** Installing the edits one after the other: the files of level l at the end. */
  ghost function Installed(files: set<File>, edits: seq<VersionEdit>, l: nat): set<File>
    requires l < NUM_LEVELS
  {
    if edits == [] then files
    else
      var n := |edits| - 1;
      Without(Installed(files, edits[..n], l), edits[n].deleted[l]) + FileSet(edits[n].added[l])
  }

  lemma OneEdit(files: set<File>, edit: VersionEdit, l: nat)
    requires l < NUM_LEVELS
    ensures Installed(files, [edit], l) == Without(files, edit.deleted[l]) + FileSet(edit.added[l])
    ensures Held(files, [edit], l) == files + FileSet(edit.added[l])
    ensures NeverReused(files, [edit], l)
            <==> Distinct(FileSet(edit.added[l])) && Numbers(FileSet(edit.added[l])) !! Numbers(files)
  {
    assert [edit][..0] == [];
  }

  /** Everything level l has ever held along the way. */
  ghost function Held(files: set<File>, edits: seq<VersionEdit>, l: nat): set<File>
    requires l < NUM_LEVELS
  {
    if edits == [] then files
    else Held(files, edits[..|edits| - 1], l) + FileSet(edits[|edits| - 1].added[l])
  }

  /** No edit adds a file number to a level that has held it before. */
  ghost predicate NeverReused(files: set<File>, edits: seq<VersionEdit>, l: nat)
    requires l < NUM_LEVELS
  {
    edits == [] ||
    var n := |edits| - 1;
    && NeverReused(files, edits[..n], l)
    && Distinct(FileSet(edits[n].added[l]))
    && Numbers(FileSet(edits[n].added[l])) !! Numbers(Held(files, edits[..n], l))
  }

  lemma {:induction false} HeldIsDistinct(files: set<File>, edits: seq<VersionEdit>, l: nat)
    requires l < NUM_LEVELS && Distinct(files) && NeverReused(files, edits, l)
    ensures Distinct(Held(files, edits, l))
    ensures Installed(files, edits, l) <= Held(files, edits, l)
  {
    if edits != [] {
      var n := |edits| - 1;
      HeldIsDistinct(files, edits[..n], l);
      forall f, g | f in Held(files, edits[..n], l) && g in FileSet(edits[n].added[l])
        ensures f.number != g.number
      {
        assert f.number in Numbers(Held(files, edits[..n], l));
      }
    }
  }

  /** One level of the builder: the std::set of added files and the set of deleted numbers. */
  method ApplyLevel(files: seq<File>, numbers: set<nat>, add: seq<File>)
    returns (files': seq<File>, numbers': set<nat>)
    requires SortedBySmallest(files) && Distinct(FileSet(files) + FileSet(add))
    ensures SortedBySmallest(files')
    ensures FileSet(files') == FileSet(files) + FileSet(add)
    ensures numbers' == numbers - Numbers(FileSet(add))
  {
    files', numbers' := files, numbers;
    for i := 0 to |add|
      invariant SortedBySmallest(files')
      invariant FileSet(files') == FileSet(files) + FileSet(add[..i])
      invariant numbers' == numbers - Numbers(FileSet(add[..i]))
    {
      assert FileSet(add[..i + 1]) == FileSet(add[..i]) + {add[i]};
      numbers' := numbers' - {add[i].number};
      files' := InsertFile(files', add[i]);
    }
    assert add[..|add|] == add;
  }

  /** std::set::insert under BySmallestKey: an equivalent element keeps its place. */
  method InsertFile(files: seq<File>, f: File) returns (r: seq<File>)
    requires SortedBySmallest(files) && Distinct(FileSet(files) + {f})
    ensures SortedBySmallest(r) && FileSet(r) == FileSet(files) + {f}
  {
    hide BySmallest, SortedBySmallest;
    var n := 0;
    while n < |files| && BySmallest(files[n], f)
      invariant n <= |files|
      invariant forall i :: 0 <= i < n ==> BySmallest(files[i], f)
    {
      n := n + 1;
    }
    if n < |files| && !BySmallest(f, files[n]) {
      SamePlace(files[n], f);
      r := files;
    } else {
      r := files[..n] + [f] + files[n..];
      SplicedBySmallest(files, n, f);
      assert files == files[..n] + files[n..];
    }
  }

  lemma SamePlace(f: File, g: File)
    requires !BySmallest(f, g) && !BySmallest(g, f)
    ensures f.number == g.number
  {
    if f.number != g.number {
      OneFirst(f, g);
    }
  }

  lemma SplicedBySmallest(files: seq<File>, n: nat, f: File)
    requires SortedBySmallest(files) && n <= |files|
    requires forall i :: 0 <= i < n ==> BySmallest(files[i], f)
    requires n < |files| ==> BySmallest(f, files[n])
    ensures SortedBySmallest(files[..n] + [f] + files[n..])
  {
    hide BySmallest;
    forall j | n <= j < |files| ensures BySmallest(f, files[j]) {
      BySmallestIsTransitive(f, files[n], files[j]);
    }
  }

  /** What the builder holds for one level stands for the files that the edits lead to. */
  ghost predicate ValidLevel(base: seq<File>, added: seq<File>, deleted: set<nat>,
                             edits: seq<VersionEdit>, l: nat)
    requires l < NUM_LEVELS
  {
    && SortedBySmallest(base) && SortedBySmallest(added) && FileSet(base) !! FileSet(added)
    && Distinct(FileSet(base)) && NeverReused(FileSet(base), edits, l)
    && FileSet(base) + FileSet(added) == Held(FileSet(base), edits, l)
    && Without(Held(FileSet(base), edits, l), deleted) == Installed(FileSet(base), edits, l)
  }

  class Builder {
    const base: Version
    var deleted: seq<set<nat>>
    var added: seq<seq<File>>

    constructor (base: Version)
      requires Listed(base)
      ensures this.base == base && Valid([])
    {
      this.base := base;
      deleted := [{}, {}, {}, {}, {}, {}, {}];
      added := [[], [], [], [], [], [], []];
    }

    /** The builder has taken in these edits and stands for the version they lead to. */
    ghost predicate Valid(edits: seq<VersionEdit>)
      reads this
    {
      && |deleted| == NUM_LEVELS && |added| == NUM_LEVELS
      && forall l :: 0 <= l < NUM_LEVELS ==> ValidLevel(base[l], added[l], deleted[l], edits, l)
    }

    /** Apply: the files added by an edit take their numbers off the deleted list. */
    method Apply(edit: VersionEdit, ghost edits: seq<VersionEdit>)
      requires Valid(edits)
      requires forall l :: 0 <= l < NUM_LEVELS ==> NeverReused(FileSet(base[l]), edits + [edit], l)
      modifies this
      ensures Valid(edits + [edit])
    {
      for l := 0 to NUM_LEVELS
        invariant |deleted| == NUM_LEVELS && |added| == NUM_LEVELS
        invariant forall m :: l <= m < NUM_LEVELS ==> ValidLevel(base[m], added[m], deleted[m], edits, m)
        invariant forall m :: 0 <= m < l ==> ValidLevel(base[m], added[m], deleted[m], edits + [edit], m)
      {
        hide ValidLevel;
        ApplyIsAllowed(base[l], added[l], deleted[l], edits, edit, l);
        var files, numbers := ApplyLevel(added[l], deleted[l] + edit.deleted[l], edit.added[l]);
        ApplyIsStep(base[l], added[l], deleted[l], edits, edit, l, files, numbers);
        added := added[l := files];
        deleted := deleted[l := numbers];
      }
    }

    /** SaveTo: merge the added files into the base files of each level, dropping deleted ones. */
    method SaveTo(ghost edits: seq<VersionEdit>) returns (v: Version)
      requires Valid(edits)
      ensures forall l :: 0 <= l < NUM_LEVELS ==>
        SortedBySmallest(v[l]) && FileSet(v[l]) == Installed(FileSet(base[l]), edits, l)
    {
      v := [[], [], [], [], [], [], []];
      for l := 0 to NUM_LEVELS
        invariant forall m :: 0 <= m < l ==>
          SortedBySmallest(v[m]) && FileSet(v[m]) == Installed(FileSet(base[m]), edits, m)
      {
        assert ValidLevel(base[l], added[l], deleted[l], edits, l);
        HeldIsDistinct(FileSet(base[l]), edits, l);
        var files := SaveLevel(base[l], added[l], deleted[l]);
        v := v[l := files];
      }
    }
  }

  lemma NewNumbersAreNew(files: set<File>, edits: seq<VersionEdit>, edit: VersionEdit, l: nat)
    requires l < NUM_LEVELS && NeverReused(files, edits + [edit], l)
    ensures Held(files, edits + [edit], l) == Held(files, edits, l) + FileSet(edit.added[l])
    ensures forall f, g :: f in Held(files, edits, l) && g in FileSet(edit.added[l]) ==> f.number != g.number
  {
    assert (edits + [edit])[..|edits|] == edits;
    forall f | f in Held(files, edits, l) ensures f.number !in Numbers(FileSet(edit.added[l])) {
      assert f.number in Numbers(Held(files, edits, l));
    }
  }

  lemma ApplyIsAllowed(base: seq<File>, added: seq<File>, deleted: set<nat>,
                       edits: seq<VersionEdit>, edit: VersionEdit, l: nat)
    requires l < NUM_LEVELS && ValidLevel(base, added, deleted, edits, l)
    requires NeverReused(FileSet(base), edits + [edit], l)
    ensures SortedBySmallest(added) && Distinct(FileSet(added) + FileSet(edit.added[l]))
  {
    HeldIsDistinct(FileSet(base), edits + [edit], l);
    NewNumbersAreNew(FileSet(base), edits, edit, l);
  }

  lemma ApplyIsStep(base: seq<File>, added: seq<File>, deleted: set<nat>,
                    edits: seq<VersionEdit>, edit: VersionEdit, l: nat,
                    added': seq<File>, deleted': set<nat>)
    requires l < NUM_LEVELS && ValidLevel(base, added, deleted, edits, l)
    requires NeverReused(FileSet(base), edits + [edit], l) && SortedBySmallest(added')
    requires FileSet(added') == FileSet(added) + FileSet(edit.added[l])
    requires deleted' == deleted + edit.deleted[l] - Numbers(FileSet(edit.added[l]))
    ensures ValidLevel(base, added', deleted', edits + [edit], l)
  {
    var both := edits + [edit];
    assert both[..|edits|] == edits;
    NewNumbersAreNew(FileSet(base), edits, edit, l);
    forall f | f in FileSet(edit.added[l]) ensures f.number !in deleted' {
      assert f.number in Numbers(FileSet(edit.added[l]));
    }
    forall f | f in Held(FileSet(base), edits, l) ensures f.number !in Numbers(FileSet(edit.added[l])) {
      assert forall g :: g in FileSet(edit.added[l]) ==> f.number != g.number;
    }
  }

  ghost predicate AllBefore(files: seq<File>, rest: seq<File>) {
    forall f, g :: f in files && g in rest ==> BySmallest(f, g)
  }

  function MaybeAddFile(files: seq<File>, f: File, deleted: set<nat>): seq<File> {
    if f.number in deleted then files else files + [f]
  }

  /** One level of SaveTo. */
  method SaveLevel(base: seq<File>, added: seq<File>, deleted: set<nat>) returns (r: seq<File>)
    requires SortedBySmallest(base) && SortedBySmallest(added)
    requires Distinct(FileSet(base) + FileSet(added)) && FileSet(base) !! FileSet(added)
    ensures SortedBySmallest(r)
    ensures FileSet(r) == Without(FileSet(base) + FileSet(added), deleted)
  {
    r := [];
    var b := 0;
    for a := 0 to |added|
      invariant b <= |base| && MergedSoFar(r, base, b, added, a, deleted)
    {
      while b < |base| && !BySmallest(added[a], base[b])
        invariant b <= |base| && MergedSoFar(r, base, b, added, a, deleted)
      {
        TakeNext(r, base, b, added, a, deleted);
        r := MaybeAddFile(r, base[b], deleted);
        b := b + 1;
      }
      TakeNext(r, added, a, base, b, deleted);
      r := MaybeAddFile(r, added[a], deleted);
    }
    while b < |base|
      invariant b <= |base| && MergedSoFar(r, base, b, added, |added|, deleted)
    {
      TakeNext(r, base, b, added, |added|, deleted);
      r := MaybeAddFile(r, base[b], deleted);
      b := b + 1;
    }
    assert base[..b] == base && added[..|added|] == added;
  }

  ghost predicate MergedSoFar(r: seq<File>, x: seq<File>, i: nat, y: seq<File>, j: nat, deleted: set<nat>)
    requires i <= |x| && j <= |y|
  {
    && SortedBySmallest(r) && AllBefore(r, x[i..]) && AllBefore(r, y[j..])
    && FileSet(r) == Without(FileSet(x[..i]) + FileSet(y[..j]), deleted)
  }

  lemma TakeNext(r: seq<File>, x: seq<File>, i: nat, y: seq<File>, j: nat, deleted: set<nat>)
    requires i < |x| && j <= |y| && SortedBySmallest(x) && SortedBySmallest(y)
    requires MergedSoFar(r, x, i, y, j, deleted) || MergedSoFar(r, y, j, x, i, deleted)
    requires Distinct(FileSet(x) + FileSet(y)) && FileSet(x) !! FileSet(y)
    requires j < |y| ==> !BySmallest(y[j], x[i])
    ensures MergedSoFar(MaybeAddFile(r, x[i], deleted), x, i + 1, y, j, deleted)
    ensures MergedSoFar(MaybeAddFile(r, x[i], deleted), y, j, x, i + 1, deleted)
  {
    hide BySmallest;
    NextIsLeast(x, i, y, j);
    hide SortedBySmallest, AllBefore, Distinct, FileSet;
    FileSetAppends(x[..i], x[i]);
    FileSetAppends(r, x[i]);
    assert x[..i + 1] == x[..i] + [x[i]];
    assert x[i..] == [x[i]] + x[i + 1..];
    AppendKeepsOrder(r, x[i], x[i..], x[i + 1..]);
    AppendKeepsOrder(r, x[i], x[i..], y[j..]);
    FewerAhead(r, x[i], x[i + 1..]);
  }

  lemma FileSetAppends(files: seq<File>, f: File)
    ensures FileSet(files + [f]) == FileSet(files) + {f}
  {
  }

  lemma NextIsLeast(x: seq<File>, i: nat, y: seq<File>, j: nat)
    requires i < |x| && j <= |y| && SortedBySmallest(x) && SortedBySmallest(y)
    requires Distinct(FileSet(x) + FileSet(y)) && FileSet(x) !! FileSet(y)
    requires j < |y| ==> !BySmallest(y[j], x[i])
    ensures AllBefore([x[i]], x[i + 1..]) && AllBefore([x[i]], y[j..])
  {
    if j < |y| {
      assert y[j] in FileSet(y) && x[i] in FileSet(x) && y[j] != x[i];
      OneFirst(y[j], x[i]);
      forall g | g in y[j..] ensures BySmallest(x[i], g) {
        BySmallestIsTransitive(x[i], y[j], g);
      }
    }
  }

  lemma OneFirst(f: File, g: File)
    requires f.number != g.number
    ensures BySmallest(f, g) || BySmallest(g, f)
  {
    assert Compare(f.smallest, g.smallest) == 0 ==> f.smallest == g.smallest;
  }

  lemma BySmallestIsTransitive(f: File, g: File, h: File)
    requires BySmallest(f, g) && (g == h || BySmallest(g, h))
    ensures BySmallest(f, h)
  {
  }

  lemma AppendKeepsOrder(r: seq<File>, f: File, ahead: seq<File>, rest: seq<File>)
    requires SortedBySmallest(r) && AllBefore(r, ahead) && f in ahead
    requires AllBefore(r, rest) || rest == ahead[1..]
    requires AllBefore([f], rest)
    ensures SortedBySmallest(r + [f]) && AllBefore(r + [f], rest)
  {
  }

  lemma FewerAhead(r: seq<File>, f: File, rest: seq<File>)
    requires AllBefore(r, [f] + rest)
    ensures AllBefore(r, rest)
  {
    forall g, h | g in r && h in rest ensures BySmallest(g, h) {
      assert h in [f] + rest;
    }
  }

  // ---- installing and replaying -------------------------------------------------------------------

  ghost predicate Listed(base: Version) {
    forall l :: 0 <= l < NUM_LEVELS ==> SortedBySmallest(base[l]) && UniqueNumbers(base[l])
  }

  ghost predicate Replayable(base: Version, edits: seq<VersionEdit>) {
    forall l :: 0 <= l < NUM_LEVELS ==> NeverReused(FileSet(base[l]), edits, l)
  }

  /** v lists, level by level and by smallest key, the files that the edits lead to from base. */
  ghost predicate LeadTo(base: Version, edits: seq<VersionEdit>, v: Version) {
    forall l :: 0 <= l < NUM_LEVELS ==>
      SortedBySmallest(v[l]) && FileSet(v[l]) == Installed(FileSet(base[l]), edits, l)
  }

  /** The version that LogAndApply installs. */
  method ApplyEdit(base: Version, edit: VersionEdit) returns (v: Version)
    requires Listed(base) && Replayable(base, [edit])
    ensures LeadTo(base, [edit], v)
  {
    var builder := new Builder(base);
    assert [] + [edit] == [edit];
    builder.Apply(edit, []);
    v := builder.SaveTo([edit]);
  }

  /** The version that Recover builds from all the edits of a manifest. */
  method ReplayEdits(base: Version, edits: seq<VersionEdit>) returns (v: Version)
    requires Listed(base) && Replayable(base, edits)
    ensures LeadTo(base, edits, v)
  {
    var builder := new Builder(base);
    for i := 0 to |edits|
      invariant builder.base == base && builder.Valid(edits[..i])
    {
      assert edits[..i + 1] == edits[..i] + [edits[i]];
      ReplayablePrefix(base, edits, i + 1);
      builder.Apply(edits[i], edits[..i]);
    }
    assert edits[..|edits|] == edits;
    v := builder.SaveTo(edits);
  }

  lemma {:induction false} ReplayablePrefix(base: Version, edits: seq<VersionEdit>, n: nat)
    requires Replayable(base, edits) && n <= |edits|
    ensures Replayable(base, edits[..n])
    decreases |edits|
  {
    if n < |edits| {
      var m := |edits| - 1;
      ReplayablePrefix(base, edits[..m], n);
      assert edits[..m][..n] == edits[..n];
    } else {
      assert edits[..n] == edits;
    }
  }

  /** A level is determined by its files: there is only one way to list them by smallest key. */
  lemma {:induction false} OneListing(a: seq<File>, b: seq<File>)
    requires SortedBySmallest(a) && SortedBySmallest(b) && FileSet(a) == FileSet(b)
    ensures a == b
  {
    if a == [] {
      EmptyListing(b);
    } else {
      assert a[0] in FileSet(b) && b != [];
      assert b[0] in FileSet(a);
      assert a[0] == b[0];
      assert FileSet(a[1..]) == FileSet(a) - {a[0]} by { TailFiles(a); }
      assert FileSet(b[1..]) == FileSet(b) - {b[0]} by { TailFiles(b); }
      OneListing(a[1..], b[1..]);
    }
  }

  lemma EmptyListing(b: seq<File>)
    ensures FileSet(b) == {} ==> b == []
  {
    if b != [] {
      assert b[0] in FileSet(b);
    }
  }

  lemma TailFiles(a: seq<File>)
    requires a != [] && SortedBySmallest(a)
    ensures FileSet(a[1..]) == FileSet(a) - {a[0]}
  {
    forall f | f in FileSet(a) - {a[0]} ensures f in a[1..] {
      var i :| 0 <= i < |a| && a[i] == f;
      assert a[1..][i - 1] == f;
    }
  }

  /** Replaying one more edit gives the very lists that installing it on top would give. */
  lemma ReplayIsStepwise(base: Version, edits: seq<VersionEdit>, edit: VersionEdit,
                         v: Version, next: Version, replayed: Version)
    requires LeadTo(base, edits, v) && LeadTo(v, [edit], next) && LeadTo(base, edits + [edit], replayed)
    ensures replayed == next
  {
    assert (edits + [edit])[..|edits|] == edits;
    forall l | 0 <= l < NUM_LEVELS ensures replayed[l] == next[l] {
      OneEdit(FileSet(v[l]), edit, l);
      OneListing(replayed[l], next[l]);
    }
  }
}
