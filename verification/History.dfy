/** The simple thing the whole engine must agree with: a collection of versioned writes, read at
  * a sequence number.  A read of user key u at snapshot s sees the newest entry of u whose
  * sequence number is at most s, and a deletion marker counts as absence.
  */
module History {
  import opened InternalKeys

  datatype ReadResult = NotFound | Found(value: Bytes)

  predicate Visible(e: Entry, u: UserKey, s: SequenceNumber) {
    e.key.user == u && e.key.seqno <= s
  }

  function Outcome(e: Entry): ReadResult {
    if e.key.kind.Value? then Found(e.value) else NotFound
  }

  ghost function EntrySet(es: seq<Entry>): iset<Entry> {
    iset e | e in es
  }

  ghost predicate Newest(S: iset<Entry>, u: UserKey, s: SequenceNumber, e: Entry) {
    && e in S
    && Visible(e, u, s)
    && forall x :: x in S && Visible(x, u, s) ==> Tag(x.key) <= Tag(e.key)
  }

  ghost predicate Hidden(S: iset<Entry>, u: UserKey, s: SequenceNumber) {
    forall x :: x in S ==> !Visible(x, u, s)
  }

  ghost function Read(S: iset<Entry>, u: UserKey, s: SequenceNumber): ReadResult {
    if exists e :: Newest(S, u, s, e) then
      var e :| Newest(S, u, s, e); Outcome(e)
    else
      NotFound
  }

  /** What a search that stops at its first answer must return. */
  ghost predicate IsHit(S: iset<Entry>, u: UserKey, s: SequenceNumber, r: Option<Entry>) {
    match r
    case Some(e) => Newest(S, u, s, e)
    case None => Hidden(S, u, s)
  }

  /** No two writes share an internal key. */
  ghost predicate KeysUnique(S: iset<Entry>) {
    forall e, x :: e in S && x in S && e.key == x.key ==> e == x
  }

  lemma ReadIsNewest(S: iset<Entry>, u: UserKey, s: SequenceNumber, e: Entry)
    requires KeysUnique(S) && Newest(S, u, s, e)
    ensures Read(S, u, s) == Outcome(e)
  {
    var x :| Newest(S, u, s, x) && Read(S, u, s) == Outcome(x);
    assert Newest(S, u, s, x);
    assert Tag(x.key) == Tag(e.key);
    assert x.key == e.key;
  }

  /** Whatever is visible has a newest member, finite or not: tags are bounded by the snapshot. */
  lemma NewestExists(S: iset<Entry>, u: UserKey, s: SequenceNumber) returns (e: Entry)
    requires !Hidden(S, u, s)
    ensures Newest(S, u, s, e)
  {
    e :| e in S && Visible(e, u, s);
    while !Newest(S, u, s, e)
      invariant e in S && Visible(e, u, s)
      decreases s * 256 + 1 - Tag(e.key)
    {
      var older := e;
      e :| e in S && Visible(e, u, s) && Tag(e.key) > Tag(older.key);
    }
  }

  /** The answer of a read is decided by the entries of that user key alone. */
  lemma ReadDependsOnVisible(S: iset<Entry>, T: iset<Entry>, u: UserKey, s: SequenceNumber)
    requires KeysUnique(S) && KeysUnique(T)
    requires forall x :: Visible(x, u, s) ==> (x in S <==> x in T)
    ensures Read(S, u, s) == Read(T, u, s)
  {
    if !Hidden(S, u, s) {
      var e := NewestExists(S, u, s);
      assert Newest(T, u, s, e);
      ReadIsNewest(S, u, s, e);
      ReadIsNewest(T, u, s, e);
    }
  }

  /** Under a layer of newer entries, two stores that read alike still read alike. */
  lemma UnderNewer(M: iset<Entry>, S: iset<Entry>, T: iset<Entry>, u: UserKey, s: SequenceNumber)
    requires KeysUnique(M + S) && KeysUnique(M + T)
    requires forall e, x :: e in M && (x in S || x in T) ==> x.key.seqno < e.key.seqno
    requires Read(S, u, s) == Read(T, u, s)
    ensures Read(M + S, u, s) == Read(M + T, u, s)
  {
    hide Read;
    if Hidden(M, u, s) {
      assert KeysUnique(S) && KeysUnique(T);
      ReadDependsOnVisible(S, M + S, u, s);
      ReadDependsOnVisible(T, M + T, u, s);
    } else {
      var e := NewestExists(M, u, s);
      TopLayerAnswers(M, S, u, s, e);
      TopLayerAnswers(M, T, u, s, e);
    }
  }

  lemma TopLayerAnswers(M: iset<Entry>, S: iset<Entry>, u: UserKey, s: SequenceNumber, e: Entry)
    requires KeysUnique(M + S) && Newest(M, u, s, e)
    requires forall e, x :: e in M && x in S ==> x.key.seqno < e.key.seqno
    ensures Newest(M + S, u, s, e) && Read(M + S, u, s) == Outcome(e)
  {
    hide Read;
    ReadIsNewest(M + S, u, s, e);
  }
}
