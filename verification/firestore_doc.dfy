/** The document-store side shared by both Firestore stores: the typed field values, the
    narrow document-reference seam (`DocumentRefInterface`: Get, Set, Update, Delete) over an
    abstract database, the mapping between a `Secret` and its document, and the four store
    operations parameterised by collection name and by the `ttl` to write. */
module FirestoreDocs {
  import opened Basics
  import opened Base64
  import opened Secrets

  /** A document field as the Go client hands it back: `int64`, `bool` or `string`. */
  datatype Value = IntV(i: int64) | BoolV(b: bool) | StrV(s: string)

  type Doc = map<string, Value>

  /** A document is addressed by its collection and its identifier. */
  datatype DocPath = DocPath(collection: string, id: string)

  /** The backend: every stored document. */
  type Db = map<DocPath, Doc>

  const ViewCountField: string := "view_count"
  const DataField: string := "data"
  const IsFileField: string := "is_file"
  const NonceField: string := "nonce"
  const SaltField: string := "salt"
  const HeaderField: string := "header"
  const TtlField: string := "ttl"

  /** The base64-encoded fields, in the order a read decodes them. */
  const BinaryFields: seq<string> := [DataField, NonceField, SaltField, HeaderField]

  // ---------------------------------------------------------------- the seam

  /** `DocumentRef.Get`: the document, or the injected fault, or a NotFound status. */
  function DocGet(db: Db, path: DocPath, fault: Option<Fault>): (r: Result<Doc, Fault>)
    ensures fault.None? ==> (r.Ok? <==> path in db)
    ensures r.Ok? ==> path in db && r.value == db[path]
    ensures fault.None? && path !in db ==> r.Err? && r.error.code == NotFound
    ensures fault.Some? ==> r == Err(fault.value)
  {
    if fault.Some? then Err(fault.value)
    else if path in db then Ok(db[path])
    else Err(Fault(NotFound, "document not found"))
  }

  /** `DocumentRef.Set`: replaces the whole document, creating it if needed. */
  function DocSet(db: Db, path: DocPath, doc: Doc, fault: Option<Fault>): (r: Result<Db, Fault>)
    ensures fault.None? <==> r.Ok?
    ensures r.Ok? ==> r.value.Keys == db.Keys + {path} && r.value[path] == doc
    ensures r.Ok? ==> forall p | p in db && p != path :: r.value[p] == db[p]
    ensures fault.Some? ==> r == Err(fault.value)
  {
    if fault.Some? then Err(fault.value) else Ok(db[path := doc])
  }

  /** `DocumentRef.Update` of one field: NotFound when the document does not exist. */
  function DocUpdate(db: Db, path: DocPath, field: string, v: Value, fault: Option<Fault>): (r: Result<Db, Fault>)
    ensures r.Ok? <==> fault.None? && path in db
    ensures fault.None? && path !in db ==> r.Err? && r.error.code == NotFound
    ensures fault.Some? ==> r == Err(fault.value)
    ensures r.Ok? ==> r.value.Keys == db.Keys
    ensures r.Ok? ==> r.value[path].Keys == db[path].Keys + {field} && r.value[path][field] == v
    ensures r.Ok? ==> forall f | f in db[path] && f != field :: r.value[path][f] == db[path][f]
    ensures r.Ok? ==> forall p | p in db && p != path :: r.value[p] == db[p]
  {
    if fault.Some? then Err(fault.value)
    else if path !in db then Err(Fault(NotFound, "document not found"))
    else Ok(db[path := db[path][field := v]])
  }

  /** `DocumentRef.Delete` without preconditions: deleting an absent document succeeds. */
  function DocDelete(db: Db, path: DocPath, fault: Option<Fault>): (r: Result<Db, Fault>)
    ensures fault.None? <==> r.Ok?
    ensures r.Ok? ==> r.value.Keys == db.Keys - {path}
    ensures r.Ok? ==> forall p | p in r.value :: r.value[p] == db[p]
    ensures fault.Some? ==> r == Err(fault.value)
  {
    if fault.Some? then Err(fault.value) else Ok(db - {path})
  }

  // ---------------------------------------------------------------- record <-> document

  /** The document written for `s`: seven fields, the binary ones base64-encoded, and the
      given `ttl`; the identifier is the document's name, not a field. */
  function ToDoc(s: Secret, ttl: int64): (d: Doc)
    ensures d.Keys == {ViewCountField, DataField, IsFileField, NonceField, SaltField, HeaderField, TtlField}
    ensures d[ViewCountField] == IntV(s.viewCount) && d[IsFileField] == BoolV(s.isFile)
    ensures d[DataField] == StrV(B64E(s.data)) && d[NonceField] == StrV(B64E(s.nonce))
    ensures d[SaltField] == StrV(B64E(s.salt)) && d[HeaderField] == StrV(B64E(s.header))
    ensures d[TtlField] == IntV(ttl)
  {
    map[
      ViewCountField := IntV(s.viewCount),
      DataField := StrV(B64E(s.data)),
      IsFileField := BoolV(s.isFile),
      NonceField := StrV(B64E(s.nonce)),
      SaltField := StrV(B64E(s.salt)),
      HeaderField := StrV(B64E(s.header)),
      TtlField := IntV(ttl)]
  }

  /** A field the read would reject: present, a string, and not valid base64. */
  predicate Corrupt(doc: Doc, field: string) {
    field in doc && doc[field].StrV? && !B64D(doc[field].s).ok
  }

  /** The error a read reports for a field that does not decode. */
  function DecodeError(field: string): Error {
    Wrapped("failed to decode " + field, CorruptInput)
  }

  /** One binary field as the read extracts it: the decoded bytes of a string field,
      empty when the field is missing or not a string, and an error when it does not decode. */
  function DecodeField(doc: Doc, field: string): (r: Result<seq<byte>, Error>)
    ensures r.Err? <==> Corrupt(doc, field)
    ensures r.Err? ==> r.error == DecodeError(field)
    ensures r.Ok? && field in doc && doc[field].StrV? ==> B64D(doc[field].s) == Decoded(r.value, true)
    ensures r.Ok? && !(field in doc && doc[field].StrV?) ==> r.value == []
  {
    if field in doc && doc[field].StrV? then
      var d := B64D(doc[field].s);
      if d.ok then Ok(d.bytes) else Err(DecodeError(field))
    else Ok([])
  }

  /** The record a read builds from document `doc` named `id`, as the Go code does field by
      field: a missing or wrongly-typed field keeps its zero value, `ttl` is never read, and the
      first binary field (in `BinaryFields` order) that does not decode aborts the read with an
      error naming it. */
  function FromDoc(id: string, doc: Doc): (r: Result<Secret, Error>)
    ensures r.Ok? <==> forall f | f in BinaryFields :: !Corrupt(doc, f)
    ensures Corrupt(doc, DataField) ==> r == Err(DecodeError(DataField))
    ensures !Corrupt(doc, DataField) && Corrupt(doc, NonceField) ==> r == Err(DecodeError(NonceField))
    ensures (!Corrupt(doc, DataField) && !Corrupt(doc, NonceField) && Corrupt(doc, SaltField))
              ==> r == Err(DecodeError(SaltField))
    ensures (!Corrupt(doc, DataField) && !Corrupt(doc, NonceField) && !Corrupt(doc, SaltField) &&
             Corrupt(doc, HeaderField))
              ==> r == Err(DecodeError(HeaderField))
    ensures r.Ok? ==> r.value.secretId == id && r.value.ttl == 0
    ensures r.Ok? && !(ViewCountField in doc && doc[ViewCountField].IntV?) ==> r.value.viewCount == 0
    ensures r.Ok? && !(IsFileField in doc && doc[IsFileField].BoolV?) ==> !r.value.isFile
    ensures r.Ok? && ViewCountField in doc && doc[ViewCountField].IntV? ==> r.value.viewCount == doc[ViewCountField].i
    ensures r.Ok? && IsFileField in doc && doc[IsFileField].BoolV? ==> r.value.isFile == doc[IsFileField].b
    ensures r.Ok? ==> DecodeField(doc, DataField) == Ok(r.value.data) && DecodeField(doc, NonceField) == Ok(r.value.nonce)
    ensures r.Ok? ==> DecodeField(doc, SaltField) == Ok(r.value.salt) && DecodeField(doc, HeaderField) == Ok(r.value.header)
  {
    var viewCount := if ViewCountField in doc && doc[ViewCountField].IntV? then doc[ViewCountField].i else 0;
    var isFile := if IsFileField in doc && doc[IsFileField].BoolV? then doc[IsFileField].b else false;
    var data :- DecodeField(doc, DataField);
    var nonce :- DecodeField(doc, NonceField);
    var salt :- DecodeField(doc, SaltField);
    var header :- DecodeField(doc, HeaderField);
    Ok(Secret(id, viewCount, data, isFile, nonce, salt, header, 0))
  }

  /** Reading a written document gives back the record, `ttl` aside, whatever `ttl` was written. */
  lemma FromDocToDoc(s: Secret, ttl: int64)
    ensures FromDoc(s.secretId, ToDoc(s, ttl)) == Ok(ReadBack(s))
  {
    var d := ToDoc(s, ttl);
    B64DB64E(s.data);
    B64DB64E(s.nonce);
    B64DB64E(s.salt);
    B64DB64E(s.header);
  }

  // ---------------------------------------------------------------- store operations

  /** `StoreSecret`: replaces document `s.secretId` of `collection` with `ToDoc(s, ttl)`. */
  function StoreSecret(db: Db, collection: string, s: Secret, ttl: int64, fault: Option<Fault>): (r: Step<Db>)
    ensures r.Succeeded() <==> fault.None?
    ensures r.Succeeded() ==> r.state == db[DocPath(collection, s.secretId) := ToDoc(s, ttl)]
    ensures !r.Succeeded() ==> r.state == db
    ensures !r.Succeeded() ==> r.err.value == Wrapped("failed to store secret in Firestore", Backend(fault.value))
  {
    match DocSet(db, DocPath(collection, s.secretId), ToDoc(s, ttl), fault)
    case Ok(db') => Step(db', None)
    case Err(f) => Step(db, Some(Wrapped("failed to store secret in Firestore", Backend(f))))
  }

  /** `GetSecret`: a NotFound status, whether for an absent document or reported by the
      backend, becomes "secret not found"; any other backend error is wrapped; a present
      document is mapped back by `FromDoc`. */
  function GetSecret(db: Db, collection: string, id: string, fault: Option<Fault>): (r: Result<Secret, Error>)
    ensures fault.None? && DocPath(collection, id) !in db ==> r == Err(SecretNotFound)
    ensures fault.Some? ==> r.Err?
    ensures fault.Some? && fault.value.code == NotFound ==> r == Err(SecretNotFound)
    ensures fault.Some? && fault.value.code != NotFound ==>
              r == Err(Wrapped("failed to get secret from Firestore", Backend(fault.value)))
    ensures fault.None? && DocPath(collection, id) in db ==> r == FromDoc(id, db[DocPath(collection, id)])
  {
    match DocGet(db, DocPath(collection, id), fault)
    case Err(f) =>
      if f.code == NotFound then Err(SecretNotFound)
      else Err(Wrapped("failed to get secret from Firestore", Backend(f)))
    case Ok(doc) => FromDoc(id, doc)
  }

  /** `DeleteSecret`: removes the document; a NotFound status counts as success. */
  function DeleteSecret(db: Db, collection: string, id: string, fault: Option<Fault>): (r: Step<Db>)
    ensures r.Succeeded() <==> fault.None? || fault.value.code == NotFound
    ensures fault.None? ==> r.state.Keys == db.Keys - {DocPath(collection, id)}
    ensures forall p | p in r.state :: p in db && r.state[p] == db[p]
    ensures fault.Some? ==> r.state == db
    ensures !r.Succeeded() ==> r.err.value == Wrapped("failed to delete secret from Firestore", Backend(fault.value))
  {
    match DocDelete(db, DocPath(collection, id), fault)
    case Ok(db') => Step(db', None)
    case Err(f) =>
      if f.code == NotFound then Step(db, None)
      else Step(db, Some(Wrapped("failed to delete secret from Firestore", Backend(f))))
  }

  /** `UpdateSecret`: rewrites only `view_count` of an existing document; an absent one is
      "secret not found" and nothing is created. */
  function UpdateSecret(db: Db, collection: string, s: Secret, fault: Option<Fault>): (r: Step<Db>)
    ensures var p := DocPath(collection, s.secretId);
      && (r.Succeeded() <==> fault.None? && p in db)
      && (fault.None? && p !in db ==> r.err == Some(SecretNotFound) && r.state == db)
      && (fault.Some? && fault.value.code == NotFound ==> r.err == Some(SecretNotFound))
      && (fault.Some? && fault.value.code != NotFound ==>
            r.err == Some(Wrapped("failed to update view count for secret", Backend(fault.value))))
      && (!r.Succeeded() ==> r.state == db)
      && (r.Succeeded() ==>
            && r.state.Keys == db.Keys
            && r.state[p].Keys == db[p].Keys + {ViewCountField}
            && r.state[p][ViewCountField] == IntV(s.viewCount)
            && (forall f | f in db[p] && f != ViewCountField :: r.state[p][f] == db[p][f])
            && (forall q | q in db && q != p :: r.state[q] == db[q]))
  {
    match DocUpdate(db, DocPath(collection, s.secretId), ViewCountField, IntV(s.viewCount), fault)
    case Ok(db') => Step(db', None)
    case Err(f) =>
      if f.code == NotFound then Step(db, Some(SecretNotFound))
      else Step(db, Some(Wrapped("failed to update view count for secret", Backend(f))))
  }

  // ---------------------------------------------------------------- properties

  /** Writing then reading a record gives it back, `ttl` aside. */
  lemma StoreThenGet(db: Db, collection: string, s: Secret, ttl: int64)
    ensures var w := StoreSecret(db, collection, s, ttl, None);
      w.Succeeded() && GetSecret(w.state, collection, s.secretId, None) == Ok(ReadBack(s))
  {
    FromDocToDoc(s, ttl);
  }

  /** Setting `view_count` changes what a read builds from a document in the view count alone. */
  lemma FromDocSetViewCount(id: string, doc: Doc, v: int64)
    ensures FromDoc(id, doc[ViewCountField := IntV(v)]) == match FromDoc(id, doc)
      case Ok(s) => Ok(s.(viewCount := v))
      case Err(e) => Err(e)
  {
    var doc' := doc[ViewCountField := IntV(v)];
    assert |ViewCountField| == 10 && |IsFileField| == 7 && |DataField| == 4;
    assert |NonceField| == 5 && |SaltField| == 4 && |HeaderField| == 6;
    assert DecodeField(doc', DataField) == DecodeField(doc, DataField);
    assert DecodeField(doc', NonceField) == DecodeField(doc, NonceField);
    assert DecodeField(doc', SaltField) == DecodeField(doc, SaltField);
    assert DecodeField(doc', HeaderField) == DecodeField(doc, HeaderField);
  }

  /** After a successful update, a read sees the new view count and every other field as stored. */
  lemma StoreUpdateGet(db: Db, collection: string, s: Secret, ttl: int64, viewCount: int64)
    ensures var w := StoreSecret(db, collection, s, ttl, None);
      var u := UpdateSecret(w.state, collection, s.(viewCount := viewCount), None);
      u.Succeeded() && GetSecret(u.state, collection, s.secretId, None) == Ok(ReadBack(s).(viewCount := viewCount))
  {
    var p := DocPath(collection, s.secretId);
    var w := StoreSecret(db, collection, s, ttl, None);
    var u := UpdateSecret(w.state, collection, s.(viewCount := viewCount), None);
    assert u.state[p] == ToDoc(s, ttl)[ViewCountField := IntV(viewCount)];
    FromDocToDoc(s, ttl);
    FromDocSetViewCount(s.secretId, ToDoc(s, ttl), viewCount);
  }

  /** Deleting twice is the same as deleting once, and both succeed. */
  lemma DeleteIdempotent(db: Db, collection: string, id: string)
    ensures var d1 := DeleteSecret(db, collection, id, None);
      var d2 := DeleteSecret(d1.state, collection, id, None);
      d1.Succeeded() && d2.Succeeded() && d2.state == d1.state
  {
  }

  /** After a successful delete the read reports "secret not found". */
  lemma DeleteThenGet(db: Db, collection: string, id: string)
    ensures var d := DeleteSecret(db, collection, id, None);
      d.Succeeded() && GetSecret(d.state, collection, id, None) == Err(SecretNotFound)
  {
  }

  /** A stored document whose `nonce` was corrupted out of band makes the read fail naming
      `nonce`, never returning zeroed or partial bytes. */
  lemma CorruptNonceDetected(db: Db, collection: string, s: Secret, ttl: int64, bad: string)
    requires !B64D(bad).ok
    ensures var p := DocPath(collection, s.secretId);
      var w := StoreSecret(db, collection, s, ttl, None);
      var corrupted := w.state[p := w.state[p][NonceField := StrV(bad)]];
      GetSecret(corrupted, collection, s.secretId, None) == Err(DecodeError(NonceField))
  {
    B64DB64E(s.data);
  }
}
