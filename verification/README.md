# go_ots storage core in Dafny

A model of the storage contract of go_ots, a one-time-secret service. It covers the
pure helpers of package `utils`: base64url encoding and decoding, view-count
sanitisation, configuration loading and random strings. It also covers the four
stores that persist an encrypted `Secret` record:

- the GCP `FirestoreStore`, behind its document-reference interface;
- the older `ots_firestore` store;
- the DynamoDB functions of `ots_dynamo`;
- the S3 blob store of `ots_s3`.

Each backend is an immutable map, and each operation is a pure function from the map
(and its inputs) to a new map or a `Result`. A failed backend call is an injected
`fault: Option<Fault>` that carries a status code, `NotFound` or another code.

Files and modules:

| file | module | contents |
|---|---|---|
| `basics.dfy` | `Basics` | `byte`, `int64` with `Wrap64`, `Option`, `Result` (usable with `:-`) |
| `strconv.dfy` | `Strconv` | `fmt.Sprintf("%d")` as `FormatInt`, `strconv.Atoi` as `Atoi`, and their round trip |
| `base64.dfy` | `Base64` | `B64E`/`B64D`: the URL- and filename-safe alphabet of section 5 of RFC 4648, `=` padding (sections 3.2 and 4), Go's non-strict decoder |
| `secret.dfy` | `Secrets` | the `Secret` record, backend faults, the error kinds, and `Step` (new state plus optional error) |
| `utils.dfy` | `Utils` | `LoadEnv`, `SanitizeViewCount`, `RandString`, and the expiry computation `now + days*86400` |
| `firestore_doc.dfy` | `FirestoreDocs` | the document seam (Get/Set/Update/Delete), the record-to-document mapping, and the four operations shared by both Firestore stores, parameterised by collection and `ttl` |
| `gcp_firestore.dfy` | `GcpFirestore` | the provider store, which writes the record's own `ttl` |
| `ots_firestore.dfy` | `OtsFirestore` | the older store, which writes `ttl` as now plus `TTL_DAYS` |
| `ots_dynamo.dfy` | `OtsDynamo` | the item mapping and the four DynamoDB operations |
| `ots_s3.dfy` | `OtsS3` | object key derivation, body encoding and the three blob operations |

Behaviour of the code that the model follows, some of it surprising:

- No store reads `ttl` back, so a record read back has `ttl == 0`. Store-then-Get is
  therefore proved up to `ttl` (`ReadBack`).
- DynamoDB Get never reports a decode error. A bad field holds whatever the decoder
  returned before it gave up. A `view_count` that `Atoi` rejects as malformed reads as 0,
  but one whose leading digits already overflow 64 bits reads as the clamped bound, because
  the range error is reported before the rest of the text is looked at.
- DynamoDB Update is an upsert: for an absent key it creates an item holding only
  `secret_id` and `view_count`.
- DynamoDB Store and Delete pass backend errors through unchanged; only Update wraps them.
  A delete of an absent key succeeds.
- An S3 delete of an absent object succeeds too; only a later get of it fails.
- DynamoDB writes `ttl` seven days ahead whatever `TTL_DAYS` says.
- The provider Firestore store copies the record's `ttl` instead of computing one.
- `GetEncryptedFile` returns the stored base64 text as bytes; it does not decode them.
- `LoadEnv` accepts an environment that selects both the AWS and the GCP backends.
- `SanitizeViewCount` returns 0 for `0 < |v| < 1`.

## Model

| member | source | states |
|---|---|---|
| Basics.Wrap64 | pkg/ots_firestore/ots_firestore.go:43 | the `int64` value of an expiry: congruent to the exact sum modulo 2^64, and equal to it when it fits |
| Base64.B64E | pkg/utils/utils.go:83-85 | the encoding of `n` bytes has exactly `4*ceil(n/3)` characters |
| Base64.B64EShape | pkg/utils/utils.go:83-85 | every character of an encoding is from `A-Z a-z 0-9 - _`, except for exactly `(3 - n mod 3) mod 3` (at most two) trailing `=` |
| Base64.ClassifyQuantum | pkg/utils/utils.go:87-89 | how the decoder reads four characters: three bytes exactly when all four are alphabet characters; a final quantum of two alphabet characters and `==` gives one byte, and three alphabet characters and `=` give two, in both cases the leading bytes of a full quantum whose padded sextets are zero; corrupt otherwise |
| Base64.DecodeQuanta | pkg/utils/utils.go:87-89 | the decoder returns at most three bytes per complete four-character quantum |
| Base64.B64D | pkg/utils/utils.go:87-89 | the decoded output never exceeds three bytes per four input characters |
| Base64.StripNewlinesNoop | pkg/utils/utils.go:87-89 | newline removal, which the decoder applies first, leaves text without CR or LF unchanged |
| Base64.B64DB64E | pkg/utils/utils.go:83-89 | decoding an encoding gives back the original bytes with no error, for every byte sequence |
| Base64.DecodeEncode | pkg/utils/utils.go:83-89 | the quantum decoder inverts the encoder, proved by induction over the input |
| Base64.B64DOk | pkg/utils/utils.go:87-89 | decoding succeeds exactly when, once CR and LF are removed, the text is whole quanta of alphabet characters with at most a final `=` or `==` |
| Base64.DecodeQuantaOk | pkg/utils/utils.go:87-89 | the quantum decoder succeeds exactly on well-formed text, proved by induction |
| Base64.B64EWellFormed | pkg/utils/utils.go:83-89 | every encoding is well-formed text, so the decoder never rejects it |
| Base64.B64DIgnoresTrailingBits | pkg/utils/utils.go:87-89 | the decoder is not strict: `QR==` and `QQ==` both decode to the single byte 65 |
| Strconv.FormatInt | pkg/ots_dynamo/ots_dynamo.go:31 | `%d` of an integer: one or more decimal digits with no leading zero (`0` alone for zero), preceded by `-` exactly when it is negative |
| Strconv.Atoi | pkg/utils/utils.go:46 | `Atoi` with its error discarded: the empty string reads as 0 |
| Strconv.AtoiFormatInt | pkg/ots_dynamo/ots_dynamo.go:74-76 | reading back with `Atoi` what `%d` wrote (line 31) gives the original 64-bit value, so `view_count` survives a store and a read |
| Strconv.AtoiWithoutDigits | pkg/utils/utils.go:45-47 | text without a single decimal digit reads as 0 |
| Utils.LoadEnv | pkg/utils/utils.go:23-49 | the five required variables are copied verbatim, an unset one as the empty string; AWS is selected iff `S3_BUCKET` and `DYNAMO_TABLE` are non-empty, and GCP iff the three GCP variables are. The call errs iff neither is selected, and then region and retention keep their earlier values. Otherwise a present `AWS_REGION` wins (even when empty) over `us-east-1`, and a present `TTL_DAYS` is read with `Atoi` instead of the default 7 |
| Utils.LoadEnvBothBackends | pkg/utils/utils.go:32-36 | one environment can select both backends without error |
| Utils.LoadEnvUnparseableTTL | pkg/utils/utils.go:44-47 | a `TTL_DAYS` without a digit gives a retention window of 0 days |
| Utils.SanitizeViewCount | pkg/utils/utils.go:51-62 | the result is in 0..9; it is 1 for unparseable input, NaN, the infinities and every `|v|` outside (0, 10); otherwise it is the integer part of `|v|`; it is 0 exactly when `0 < |v| < 1` |
| Utils.Expiry | pkg/ots_firestore/ots_firestore.go:43 | the expiry is `now` plus `days` times 86400 seconds whenever that fits in 64 bits |
| Utils.AlphanumericsAsListed | pkg/utils/utils.go:65 | the alphabet used by the model is character for character the source's 62-character literal |
| Utils.AlphanumericsComplete | pkg/utils/utils.go:65 | every ASCII letter and digit occurs in the alphanumeric alphabet |
| Utils.Charset | pkg/utils/utils.go:65-68 | when URL-safe, 62 characters that include every letter and digit and nothing else; otherwise 75 characters that also include every one of `!#$%&*+-=?@_~` |
| Utils.RandString | pkg/utils/utils.go:64-75 | exactly `length` characters, each an alphanumeric, or one of the 13 symbols when not URL-safe |
| FirestoreDocs.DocGet | pkg/storage/provider/gcp/firestore.go:26-32 | the seam's Get: the stored document, or a NotFound status when it is absent, or the injected fault |
| FirestoreDocs.DocSet | pkg/storage/provider/gcp/firestore.go:26-32 | the seam's Set replaces or creates the one document and leaves every other document alone; an injected fault is returned as is |
| FirestoreDocs.DocUpdate | pkg/storage/provider/gcp/firestore.go:26-32 | the seam's Update sets one field of an existing document and keeps every other field and document; an absent document is a NotFound status, and an injected fault is returned as is |
| FirestoreDocs.DocDelete | pkg/storage/provider/gcp/firestore.go:26-32 | the seam's Delete removes the document if present and keeps the others; an injected fault is returned as is |
| FirestoreDocs.ToDoc | pkg/storage/provider/gcp/firestore.go:115-123 | the written document has exactly the seven fields `view_count`, `data`, `is_file`, `nonce`, `salt`, `header`, `ttl`, with the binary ones base64-encoded; `secret_id` is not a field |
| FirestoreDocs.DecodeField | pkg/storage/provider/gcp/firestore.go:162-167 | one binary field fails exactly when it is a string that does not decode, with an error naming it; a missing or non-string field gives empty bytes |
| FirestoreDocs.FromDoc | pkg/storage/provider/gcp/firestore.go:146-190 | a read fails exactly when some binary field is corrupt, naming the first in the order data, nonce, salt, header; otherwise the identifier is the document name, `ttl` is 0, `view_count` and `is_file` are the stored values when present with the right type and zero otherwise, and each binary field is exactly what `DecodeField` extracts from it |
| FirestoreDocs.FromDocToDoc | pkg/storage/provider/gcp/firestore.go:115-190 | reading a written document gives the record back, `ttl` aside, whatever `ttl` was written |
| FirestoreDocs.StoreSecret | pkg/storage/provider/gcp/firestore.go:111-132 | on success the document becomes `ToDoc` of the record and nothing else changes; a backend failure is wrapped as a store failure and changes nothing |
| FirestoreDocs.GetSecret | pkg/storage/provider/gcp/firestore.go:134-191 | an absent document or a NotFound status is "secret not found"; any other failure is wrapped as a get failure; a present document is read with `FromDoc` |
| FirestoreDocs.DeleteSecret | pkg/storage/provider/gcp/firestore.go:193-206 | succeeds exactly when there is no fault or the fault is NotFound; removes only that document; other failures are wrapped |
| FirestoreDocs.UpdateSecret | pkg/storage/provider/gcp/firestore.go:208-226 | succeeds exactly on an existing document and changes only its `view_count`; an absent document or a NotFound status is "secret not found", any other failure is wrapped as an update failure, and a failure creates and changes nothing |
| FirestoreDocs.StoreThenGet | pkg/storage/provider/gcp/firestore.go:111-191 | store then get returns every field of the record, `ttl` reading as 0 |
| FirestoreDocs.FromDocSetViewCount | pkg/storage/provider/gcp/firestore.go:211-217 | setting `view_count` changes what a read builds in the view count alone, or not at all when the read fails |
| FirestoreDocs.StoreUpdateGet | pkg/storage/provider/gcp/firestore.go:208-226 | after store and update, a read shows the new view count and every other field as stored |
| FirestoreDocs.DeleteIdempotent | pkg/storage/provider/gcp/firestore.go:193-206 | deleting twice succeeds both times and leaves the same database |
| FirestoreDocs.DeleteThenGet | pkg/storage/provider/gcp/firestore.go:193-206 | after a delete, a read is "secret not found" |
| FirestoreDocs.CorruptNonceDetected | pkg/storage/provider/gcp/firestore.go:169-174 | a `nonce` corrupted after storing makes the read fail with the nonce decode error instead of returning bytes |
| GcpFirestore.StoreSecret | pkg/storage/provider/gcp/firestore.go:111-132 | the document written holds the record's own `ttl` verbatim and reads back as the record, `ttl` aside; a failure is wrapped as a store failure and changes nothing |
| GcpFirestore.StoreThenGet | pkg/storage/provider/gcp/firestore.go:111-191 | store then get returns the record with `ttl` read as 0 |
| GcpFirestore.Lifecycle | pkg/storage/provider/gcp/firestore.go:111-226 | a whole lifecycle of secret `abc123` with three views left: it is stored, read back, its view count lowered to 2, read back with the new count, deleted, and then read as "secret not found" |
| OtsFirestore.StoreSecret | pkg/ots_firestore/ots_firestore.go:32-53 | writes the seven fields to the configured collection, with `ttl` equal to the expiry `TTL_DAYS` days after `now`; a failure is wrapped and changes nothing |
| OtsFirestore.GetSecret | pkg/ots_firestore/ots_firestore.go:55-112 | "secret not found" for an absent document or a NotFound status; other failures wrapped; a present document is read by `FirestoreDocs.FromDoc`, so a corrupt `data` field gives its decode error |
| OtsFirestore.DeleteSecret | pkg/ots_firestore/ots_firestore.go:114-127 | succeeds exactly with no fault or a NotFound status; removes only that document, and with any status, NotFound included, changes nothing; other failures are wrapped |
| OtsFirestore.UpdateSecret | pkg/ots_firestore/ots_firestore.go:129-147 | succeeds exactly on an existing document and changes only `view_count`; an absent document or a NotFound status is "secret not found", every other status is wrapped as an update failure, and a failure changes nothing |
| OtsFirestore.StoreIgnoresRecordTTL | pkg/ots_firestore/ots_firestore.go:36-44 | the record's own `ttl` has no influence on what is stored |
| OtsFirestore.StoreThenGet | pkg/ots_firestore/ots_firestore.go:32-112 | store then get returns every field but `ttl` |
| OtsFirestore.StoreUpdateGet | pkg/ots_firestore/ots_firestore.go:129-147 | after store and update, a read shows the new view count and the other fields as stored |
| OtsFirestore.DeleteIdempotent | pkg/ots_firestore/ots_firestore.go:114-127 | a second delete succeeds and changes nothing |
| OtsDynamo.WireNameInjective | pkg/ots_dynamo/ots_dynamo.go:29-38 | the eight attribute names written to the item are pairwise distinct, so an item keyed by the enumeration of attributes loses nothing |
| OtsDynamo.ToItem | pkg/ots_dynamo/ots_dynamo.go:29-38 | the item has all eight attributes: `secret_id` (S); `view_count` (N, `%d`); `is_file` (BOOL); the four binary fields as base64 strings; and `ttl` (N) seven days after `now` |
| OtsDynamo.ReadBinary | pkg/ots_dynamo/ots_dynamo.go:82-96 | a string attribute reads as the decoder's output whether or not decoding succeeded, and a missing or non-string one as empty |
| OtsDynamo.FromItem | pkg/ots_dynamo/ots_dynamo.go:70-98 | the read record: `view_count` through `Atoi` (0 when missing or not a number), `is_file` only when a BOOL true, binary fields through `ReadBinary`, `ttl` 0 |
| OtsDynamo.FromItemToItem | pkg/ots_dynamo/ots_dynamo.go:29-98 | reading a stored item gives the record back, `ttl` aside |
| OtsDynamo.StoreSecret | pkg/ots_dynamo/ots_dynamo.go:24-49 | on success the key holds `ToItem`, overwriting any earlier item, and nothing else changes; a backend error is returned unchanged and nothing is written |
| OtsDynamo.GetSecret | pkg/ots_dynamo/ots_dynamo.go:51-99 | fails exactly when there is no item ("secret not found"); otherwise always a record built by `FromItem` |
| OtsDynamo.DeleteSecret | pkg/ots_dynamo/ots_dynamo.go:101-116 | succeeds exactly without a fault and removes only that key; the backend error is passed through unchanged |
| OtsDynamo.UpdateSecret | pkg/ots_dynamo/ots_dynamo.go:118-141 | sets `view_count` to the `%d` text of the new count (which `Atoi` reads back as that count), keeps every other attribute and item, and creates a `secret_id` plus `view_count` item for an absent key; a failure is wrapped and changes nothing |
| OtsDynamo.StoreThenGet | pkg/ots_dynamo/ots_dynamo.go:24-99 | store then get returns every field but `ttl` |
| OtsDynamo.FromItemSetViewCount | pkg/ots_dynamo/ots_dynamo.go:123-135 | setting `view_count` changes what a read builds in the view count alone |
| OtsDynamo.StoreUpdateGet | pkg/ots_dynamo/ots_dynamo.go:118-141 | after store and update, a read shows the new view count and the other fields as stored |
| OtsDynamo.CorruptFieldAccepted | pkg/ots_dynamo/ots_dynamo.go:82-96 | a `data`, `nonce`, `salt` or `header` attribute that does not decode still gives a successful read, that field holding the decoder's partial output |
| OtsDynamo.FromPartialItem | pkg/ots_dynamo/ots_dynamo.go:123-135 | an item holding only `secret_id` and `view_count` reads as a record with empty binary fields and `is_file` false |
| OtsDynamo.UpdateAbsentCreatesItem | pkg/ots_dynamo/ots_dynamo.go:123-135 | updating a key never stored succeeds and makes it readable as a partial record |
| OtsDynamo.DeleteIdempotent | pkg/ots_dynamo/ots_dynamo.go:101-116 | deleting twice succeeds both times, and a read then is "secret not found" |
| OtsS3.ObjectKey | pkg/ots_s3/ots_s3.go:30 | the object key is the secret identifier followed by `.enc` |
| OtsS3.ObjectKeyInjective | pkg/ots_s3/ots_s3.go:30 | different secrets never share an object key |
| OtsS3.B64EIsAscii | pkg/ots_s3/ots_s3.go:31 | the uploaded text is ASCII, so its bytes are its characters |
| OtsS3.Body | pkg/ots_s3/ots_s3.go:31 | the uploaded body is `4*ceil(n/3)` bytes long and decodes back to the payload |
| OtsS3.StoreEncryptedFile | pkg/ots_s3/ots_s3.go:27-40 | on success the object at `<id>.enc` holds `Body(data)` and nothing else changes; a failure is wrapped as an upload failure and writes nothing |
| OtsS3.GetEncryptedFile | pkg/ots_s3/ots_s3.go:42-59 | returns the stored body verbatim exactly when the request and the read both succeed and the object exists; a missing object or a failed request is a download failure, a failed read a read failure |
| OtsS3.DeleteEncryptedFile | pkg/ots_s3/ots_s3.go:61-71 | on success the key is absent and nothing else changes; any failure, NotFound included, is wrapped as a delete failure |
| OtsS3.StoreThenGet | pkg/ots_s3/ots_s3.go:27-59 | after a store, a get returns the bytes of the base64 text, which the caller must still decode to recover the payload |
| OtsS3.GetIsNotPayload | pkg/ots_s3/ots_s3.go:52-58 | the body read back equals the payload only for the empty payload |
| OtsS3.GetAfterDeleteFails | pkg/ots_s3/ots_s3.go:61-71 | after a delete, a get fails instead of returning success |

## Left out

- Client construction and SDK configuration are I/O plumbing: `NewFirestoreStore` in both packages (including the panic of the older one), `initDynamoDBClient`, `NewS3Store`, `LoadDefaultConfig`.
- The Firestore wrapper structs (pkg/storage/provider/gcp/firestore.go:39-93) only delegate; the interfaces they implement are modelled by `DocGet`, `DocSet`, `DocUpdate` and `DocDelete`.
- Contexts, transport, and the ACL and server-side-encryption flags of the upload carry no checkable behaviour.
- The process environment is a map argument; `os.Getenv` and `os.LookupEnv` are map lookups.
- The clock is a parameter `now`. Expiry is `now + days*86400` wrapped to 64 bits, so the calendar and daylight-saving details of `AddDate` are not modelled.
- Utils.RandString: takes a `nat` length, so the panic of `make([]byte, length)` for a negative length is not modelled.
- `RandBytes` is not modelled, because it only fills a buffer from `crypto/rand`. `RandString` models the random pick as an unconstrained index into the alphabet.
- `strconv.ParseFloat` is replaced by its outcome: a parse failure, a finite real, or NaN or an infinity.
- Backend failures are injected faults, and a failed call is assumed to change nothing. Concurrency, retries and partial writes are out of scope.
- OtsDynamo.GetSecret: models only a `GetItem` call that succeeds. The source discards that call's error and would then dereference a nil result.
- Error values are modelled by kind, wrapping context and cause. Go's formatted messages and `%w` chains are not modelled as strings.
- The Firestore collection of the provider store is a parameter. The source passes `utils.FirestoreDatabase`, which, like `utils.GCPProjectID`, is not part of this model.
- The `Secret` record mirrors the fields the stores touch. Package `simple_crypt` is not part of this model, and `TTL` is taken as 64-bit epoch seconds.
- Strconv.Atoi: states only the empty-input case in its own contract. Its meaning is given by `AtoiFormatInt` and `AtoiWithoutDigits`; clamping of out-of-range values is in the body and is stated by no lemma.
- Base64.B64D: its own contract is only an output-length bound. Acceptance is stated by `B64DOk` and the round trip by `B64DB64E`.
- The orchestration of metadata and blob stores (decrement, delete at zero, file offload) lives above these stores and is not modelled.
