/** `gcp.FirestoreStore` (package `storage/provider/gcp`): the document store reached through
    the `DocumentRefInterface` seam. It writes the record's own `ttl`; its Get, Delete and
    Update are the shared `FirestoreDocs` operations over the collection it is given. */
module GcpFirestore {
  import opened Basics
  import opened Secrets
  import opened FirestoreDocs

  /** `StoreSecret`: replaces document `s.secretId` with the seven fields, `ttl` copied
      verbatim from the record; on a backend error nothing is written. */
  function StoreSecret(db: Db, collection: string, s: Secret, fault: Option<Fault>): (r: Step<Db>)
    ensures r.Succeeded() <==> fault.None?
    ensures r.Succeeded() ==> r.state.Keys == db.Keys + {DocPath(collection, s.secretId)}
    ensures r.Succeeded() ==> r.state[DocPath(collection, s.secretId)] == ToDoc(s, s.ttl)
    ensures r.Succeeded() ==> r.state[DocPath(collection, s.secretId)][TtlField] == IntV(s.ttl)
    ensures r.Succeeded() ==> FromDoc(s.secretId, r.state[DocPath(collection, s.secretId)]) == Ok(ReadBack(s))
    ensures r.Succeeded() ==> forall p | p in db && p != DocPath(collection, s.secretId) :: r.state[p] == db[p]
    ensures !r.Succeeded() ==> r.state == db
    ensures !r.Succeeded() ==> r.err == Some(Wrapped("failed to store secret in Firestore", Backend(fault.value)))
  {
    FromDocToDoc(s, s.ttl);
    FirestoreDocs.StoreSecret(db, collection, s, s.ttl, fault)
  }

  /** Store then Get returns the record with every field but `ttl`, which reads back as 0. */
  lemma StoreThenGet(db: Db, collection: string, s: Secret)
    ensures var w := StoreSecret(db, collection, s, None);
      w.Succeeded() && GetSecret(w.state, collection, s.secretId, None) == Ok(ReadBack(s))
  {
    FirestoreDocs.StoreThenGet(db, collection, s, s.ttl);
  }

  /** A whole lifecycle of secret `abc123` with three views left: store it, read it, lower its
      view count to 2, read it again, delete it, and read it once more. */
  lemma Lifecycle(db: Db, collection: string)
    ensures var s := Secret("abc123", 3, [1, 2], false, [0xAA], [0xBB], [0xCC], 1700000000);
      var w := StoreSecret(db, collection, s, None);
      var u := UpdateSecret(w.state, collection, s.(viewCount := 2), None);
      var d := DeleteSecret(u.state, collection, s.secretId, None);
      && GetSecret(w.state, collection, s.secretId, None) == Ok(s.(ttl := 0))
      && u.Succeeded()
      && GetSecret(u.state, collection, s.secretId, None) == Ok(s.(ttl := 0, viewCount := 2))
      && d.Succeeded()
      && GetSecret(d.state, collection, s.secretId, None) == Err(SecretNotFound)
  {
    var s := Secret("abc123", 3, [1, 2], false, [0xAA], [0xBB], [0xCC], 1700000000);
    StoreThenGet(db, collection, s);
    FirestoreDocs.StoreUpdateGet(db, collection, s, s.ttl, 2);
    var w := StoreSecret(db, collection, s, None);
    var u := UpdateSecret(w.state, collection, s.(viewCount := 2), None);
    DeleteThenGet(u.state, collection, s.secretId);
  }
}
