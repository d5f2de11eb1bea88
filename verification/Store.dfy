/**
 The reference meaning of the store: a set of versioned entries, read at a sequence number.
 Every read path below is proved against `Read`.
 */
module Store {
  import opened Keys

  datatype Option<T> = None | Some(value: T)

  /** No two entries share a user key and a sequence number. */
  ghost predicate DistinctVersions(es: set<Entry>) {
    forall e, f :: e in es && f in es && e.key.user == f.key.user && e.key.seqno == f.key.seqno ==> e == f
  }

  /** `e` is a version of `u` that a reader at `s` may see. */
  ghost predicate Visible(es: set<Entry>, u: UserKey, s: SeqNo, e: Entry) {
    e in es && e.Parses() && e.key.user == u && e.key.seqno <= s
  }

  ghost predicate Newest(es: set<Entry>, u: UserKey, s: SeqNo, e: Entry) {
    Visible(es, u, s, e) && forall f :: Visible(es, u, s, f) ==> f.key.seqno <= e.key.seqno
  }

  /** What a reader of `e` gets: the value, or nothing for a deletion marker. */
  function Answer(e: Entry): Option<Value> {
    if e.key.kind == TYPE_VALUE then Some(e.value) else None
  }

  /** The value of `u` at sequence number `s`. */
  ghost function Read(es: set<Entry>, u: UserKey, s: SeqNo): Option<Value> {
    if exists e :: Newest(es, u, s, e) then
      var e :| Newest(es, u, s, e);
      Answer(e)
    else None
  }

  /** Whichever newest entry is found, it decides the answer. */
  lemma ReadIs(es: set<Entry>, u: UserKey, s: SeqNo, e: Entry)
    requires DistinctVersions(es)
    requires Newest(es, u, s, e)
    ensures Read(es, u, s) == Answer(e)
  {
    forall f | Newest(es, u, s, f)
      ensures f == e
    {
      assert Visible(es, u, s, f) && Visible(es, u, s, e);
    }
  }

  /** A visible entry leads to a newest one. */
  lemma {:induction false} NewestExists(es: set<Entry>, u: UserKey, s: SeqNo, e: Entry) returns (top: Entry)
    requires Visible(es, u, s, e)
    ensures Newest(es, u, s, top)
    decreases s - e.key.seqno
  {
    if f :| Visible(es, u, s, f) && f.key.seqno > e.key.seqno {
      top := NewestExists(es, u, s, f);
    } else {
      top := e;
    }
  }
}
