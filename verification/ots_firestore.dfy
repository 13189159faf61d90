/** `ots_firestore.FirestoreStore`: the older document store. It addresses the collection
    named by `FIRESTORE_COLLECTION` and computes `ttl` from the clock and the configured
    retention window instead of copying the record's. */
module OtsFirestore {
  import opened Basics
  import opened Secrets
  import opened Utils
  import FirestoreDocs

  type Db = FirestoreDocs.Db

  function PathOf(cfg: Config, id: string): FirestoreDocs.DocPath {
    FirestoreDocs.DocPath(cfg.firestoreCollection, id)
  }

  /** `StoreSecret` at clock reading `now`: the seven fields, with `ttl` the expiry
      `TTLDays` days from now; the record's own `ttl` plays no part. */
  function StoreSecret(db: Db, cfg: Config, now: int64, s: Secret, fault: Option<Fault>): (r: Step<Db>)
    ensures r.Succeeded() <==> fault.None?
    ensures r.Succeeded() ==> r.state.Keys == db.Keys + {PathOf(cfg, s.secretId)}
    ensures r.Succeeded() ==> r.state[PathOf(cfg, s.secretId)] == FirestoreDocs.ToDoc(s, Expiry(now, cfg.ttlDays))
    ensures r.Succeeded() ==>
              r.state[PathOf(cfg, s.secretId)][FirestoreDocs.TtlField] == FirestoreDocs.IntV(Expiry(now, cfg.ttlDays))
    ensures r.Succeeded() ==> forall p | p in db && p != PathOf(cfg, s.secretId) :: r.state[p] == db[p]
    ensures !r.Succeeded() ==> r.state == db
    ensures !r.Succeeded() ==> r.err == Some(Wrapped("failed to store secret in Firestore", Backend(fault.value)))
  {
    FirestoreDocs.StoreSecret(db, cfg.firestoreCollection, s, Expiry(now, cfg.ttlDays), fault)
  }

  /** `GetSecret`: "secret not found" for an absent document or a NotFound status, a wrapped
      error for any other backend failure, a decode error naming the first bad binary field. */
  function GetSecret(db: Db, cfg: Config, id: string, fault: Option<Fault>): (r: Result<Secret, Error>)
    ensures fault.None? && PathOf(cfg, id) !in db ==> r == Err(SecretNotFound)
    ensures fault.Some? && fault.value.code == NotFound ==> r == Err(SecretNotFound)
    ensures fault.Some? && fault.value.code != NotFound ==>
              r == Err(Wrapped("failed to get secret from Firestore", Backend(fault.value)))
    ensures (fault.None? && PathOf(cfg, id) in db && FirestoreDocs.Corrupt(db[PathOf(cfg, id)], FirestoreDocs.DataField))
              ==> r == Err(FirestoreDocs.DecodeError(FirestoreDocs.DataField))
    ensures fault.None? && PathOf(cfg, id) in db ==> r == FirestoreDocs.FromDoc(id, db[PathOf(cfg, id)])
    ensures r.Ok? ==> r.value.secretId == id && r.value.ttl == 0
  {
    FirestoreDocs.GetSecret(db, cfg.firestoreCollection, id, fault)
  }

  /** `DeleteSecret`: removes the document; an absent one, or a NotFound status, is success. */
  function DeleteSecret(db: Db, cfg: Config, id: string, fault: Option<Fault>): (r: Step<Db>)
    ensures r.Succeeded() <==> fault.None? || fault.value.code == NotFound
    ensures fault.None? ==> PathOf(cfg, id) !in r.state && r.state.Keys == db.Keys - {PathOf(cfg, id)}
    ensures forall p | p in r.state :: p in db && r.state[p] == db[p]
    ensures fault.Some? ==> r.state == db
    ensures !r.Succeeded() ==> r.err == Some(Wrapped("failed to delete secret from Firestore", Backend(fault.value)))
  {
    FirestoreDocs.DeleteSecret(db, cfg.firestoreCollection, id, fault)
  }

  /** `UpdateSecret`: sets `view_count` of an existing document and nothing else; an absent
      document is "secret not found" and the database is left as it was. */
  function UpdateSecret(db: Db, cfg: Config, s: Secret, fault: Option<Fault>): (r: Step<Db>)
    ensures r.Succeeded() <==> fault.None? && PathOf(cfg, s.secretId) in db
    ensures fault.None? && PathOf(cfg, s.secretId) !in db ==> r.err == Some(SecretNotFound) && r.state == db
    ensures fault.Some? && fault.value.code == NotFound ==> r.err == Some(SecretNotFound)
    ensures fault.Some? && fault.value.code != NotFound ==>
              r.err == Some(Wrapped("failed to update view count for secret", Backend(fault.value)))
    ensures !r.Succeeded() ==> r.state == db
    ensures r.Succeeded() ==>
              var p := PathOf(cfg, s.secretId);
              && r.state.Keys == db.Keys
              && r.state[p].Keys == db[p].Keys + {FirestoreDocs.ViewCountField}
              && r.state[p][FirestoreDocs.ViewCountField] == FirestoreDocs.IntV(s.viewCount)
              && (forall f | f in db[p] && f != FirestoreDocs.ViewCountField :: f in r.state[p] && r.state[p][f] == db[p][f])
              && (forall q | q in db && q != p :: r.state[q] == db[q])
  {
    FirestoreDocs.UpdateSecret(db, cfg.firestoreCollection, s, fault)
  }

  /** The record's own `ttl` does not influence what is stored. */
  lemma StoreIgnoresRecordTTL(db: Db, cfg: Config, now: int64, s: Secret, ttl: int64, fault: Option<Fault>)
    ensures StoreSecret(db, cfg, now, s.(ttl := ttl), fault) == StoreSecret(db, cfg, now, s, fault)
  {
    assert FirestoreDocs.ToDoc(s.(ttl := ttl), Expiry(now, cfg.ttlDays)) == FirestoreDocs.ToDoc(s, Expiry(now, cfg.ttlDays));
  }

  /** Store then Get round-trips every field except `ttl`. */
  lemma StoreThenGet(db: Db, cfg: Config, now: int64, s: Secret)
    ensures var w := StoreSecret(db, cfg, now, s, None);
      w.Succeeded() && GetSecret(w.state, cfg, s.secretId, None) == Ok(ReadBack(s))
  {
    FirestoreDocs.StoreThenGet(db, cfg.firestoreCollection, s, Expiry(now, cfg.ttlDays));
  }

  /** Store, update the view count, Get: the new count and every other field as stored. */
  lemma StoreUpdateGet(db: Db, cfg: Config, now: int64, s: Secret, viewCount: int64)
    ensures var w := StoreSecret(db, cfg, now, s, None);
      var u := UpdateSecret(w.state, cfg, s.(viewCount := viewCount), None);
      u.Succeeded() && GetSecret(u.state, cfg, s.secretId, None) == Ok(ReadBack(s).(viewCount := viewCount))
  {
    FirestoreDocs.StoreUpdateGet(db, cfg.firestoreCollection, s, Expiry(now, cfg.ttlDays), viewCount);
  }

  /** Deleting an already deleted (or never stored) secret succeeds and changes nothing. */
  lemma DeleteIdempotent(db: Db, cfg: Config, id: string)
    ensures var d1 := DeleteSecret(db, cfg, id, None);
      var d2 := DeleteSecret(d1.state, cfg, id, None);
      d1.Succeeded() && d2.Succeeded() && d2.state == d1.state
  {
    FirestoreDocs.DeleteIdempotent(db, cfg.firestoreCollection, id);
  }
}
