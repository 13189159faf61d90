/** `ots_s3.S3Store`: the blob store for file payloads. Every object lives in the bucket
    named by `S3_BUCKET` under key `<secret_id>.enc`; the body written is the base64 text of
    the payload, and the body read is returned as stored, without decoding. */
module OtsS3 {
  import opened Basics
  import opened Base64
  import opened Secrets
  import Utils

  /** An object is addressed by its bucket and its key. */
  datatype ObjectRef = ObjectRef(bucket: string, key: string)

  /** The backend: the body of every stored object. */
  type Objects = map<ObjectRef, seq<byte>>

  const KeySuffix: string := ".enc"

  /** The object key of a secret's payload. */
  function ObjectKey(secretId: string): (k: string)
    ensures |k| == |secretId| + |KeySuffix| && k[..|secretId|] == secretId && k[|secretId|..] == KeySuffix
  {
    secretId + KeySuffix
  }

  /** Different secrets never share an object. */
  lemma ObjectKeyInjective(a: string, b: string)
    requires ObjectKey(a) == ObjectKey(b)
    ensures a == b
  {
    assert a == ObjectKey(a)[..|a|];
    assert b == ObjectKey(b)[..|b|];
  }

  function RefOf(cfg: Utils.Config, secretId: string): ObjectRef {
    ObjectRef(cfg.s3Bucket, ObjectKey(secretId))
  }

  predicate IsAscii(s: string) {
    forall i | 0 <= i < |s| :: s[i] as int < 128
  }

  /** The bytes of an ASCII string (its UTF-8 encoding). */
  function AsciiBytes(s: string): (b: seq<byte>)
    requires IsAscii(s)
    ensures |b| == |s| && forall i | 0 <= i < |s| :: b[i] == s[i] as int
  {
    seq(|s|, i requires 0 <= i < |s| => s[i] as int)
  }

  /** The text of a byte sequence read as ASCII. */
  function AsciiText(b: seq<byte>): (s: string)
    ensures |s| == |b| && forall i | 0 <= i < |b| :: s[i] as int == b[i]
  {
    seq(|b|, i requires 0 <= i < |b| => b[i] as char)
  }

  lemma B64EIsAscii(data: seq<byte>)
    ensures IsAscii(B64E(data))
  {
    B64EShape(data);
  }

  /** The upload body for `data`: the bytes of `B64E(data)`. */
  function Body(data: seq<byte>): (b: seq<byte>)
    ensures B64D(AsciiText(b)) == Decoded(data, true)
    ensures |b| == 4 * ((|data| + 2) / 3)
  {
    B64EIsAscii(data);
    var e := B64E(data);
    assert AsciiText(AsciiBytes(e)) == e;
    B64DB64E(data);
    AsciiBytes(e)
  }

  /** `StoreEncryptedFile`: puts `Body(data)` at the secret's key; a backend failure is
      wrapped and nothing is written. */
  function StoreEncryptedFile(objs: Objects, cfg: Utils.Config, secretId: string, data: seq<byte>,
                              fault: Option<Fault>): (r: Step<Objects>)
    ensures r.Succeeded() <==> fault.None?
    ensures r.Succeeded() ==> r.state.Keys == objs.Keys + {RefOf(cfg, secretId)}
    ensures r.Succeeded() ==> r.state[RefOf(cfg, secretId)] == Body(data)
    ensures r.Succeeded() ==> forall o | o in objs && o != RefOf(cfg, secretId) :: r.state[o] == objs[o]
    ensures !r.Succeeded() ==>
              r.state == objs && r.err == Some(Wrapped("failed to upload secret file to S3", Backend(fault.value)))
  {
    if fault.Some? then Step(objs, Some(Wrapped("failed to upload secret file to S3", Backend(fault.value))))
    else Step(objs[RefOf(cfg, secretId) := Body(data)], None)
  }

  /** `GetEncryptedFile`: the stored body, verbatim. A missing object (a NotFound status from
      the backend) or a failed request is wrapped as a download failure; a failure while
      reading the body is wrapped as a read failure. No bytes come back on error. */
  function GetEncryptedFile(objs: Objects, cfg: Utils.Config, secretId: string,
                            fault: Option<Fault>, readFault: Option<Fault>): (r: Result<seq<byte>, Error>)
    ensures r.Ok? <==> fault.None? && RefOf(cfg, secretId) in objs && readFault.None?
    ensures r.Ok? ==> r.value == objs[RefOf(cfg, secretId)]
    ensures fault.None? && RefOf(cfg, secretId) !in objs ==>
              r.Err? && r.error.Wrapped? && r.error.context == "failed to download secret file from S3"
              && r.error.cause.Backend? && r.error.cause.fault.code == NotFound
    ensures fault.Some? ==> r == Err(Wrapped("failed to download secret file from S3", Backend(fault.value)))
    ensures fault.None? && RefOf(cfg, secretId) in objs && readFault.Some? ==>
              r == Err(Wrapped("failed to read the S3 file content", Backend(readFault.value)))
  {
    var ref := RefOf(cfg, secretId);
    if fault.Some? then Err(Wrapped("failed to download secret file from S3", Backend(fault.value)))
    else if ref !in objs then Err(Wrapped("failed to download secret file from S3", Backend(Fault(NotFound, "NoSuchKey"))))
    else if readFault.Some? then Err(Wrapped("failed to read the S3 file content", Backend(readFault.value)))
    else Ok(objs[ref])
  }

  /** `DeleteEncryptedFile`: any backend error is wrapped, NotFound included; after a
      successful delete the key is absent. */
  function DeleteEncryptedFile(objs: Objects, cfg: Utils.Config, secretId: string, fault: Option<Fault>): (r: Step<Objects>)
    ensures r.Succeeded() <==> fault.None?
    ensures r.Succeeded() ==> r.state.Keys == objs.Keys - {RefOf(cfg, secretId)}
    ensures forall o | o in r.state :: o in objs && r.state[o] == objs[o]
    ensures !r.Succeeded() ==>
              r.state == objs && r.err == Some(Wrapped("failed to delete secret file from S3", Backend(fault.value)))
  {
    if fault.Some? then Step(objs, Some(Wrapped("failed to delete secret file from S3", Backend(fault.value))))
    else Step(objs - {RefOf(cfg, secretId)}, None)
  }

  // ---------------------------------------------------------------- properties

  /** After `Store(id, d)`, `Get(id)` returns the bytes of `B64E(d)`, not `d`; the caller
      must decode them, and decoding does give `d` back. */
  lemma StoreThenGet(objs: Objects, cfg: Utils.Config, secretId: string, data: seq<byte>)
    ensures var w := StoreEncryptedFile(objs, cfg, secretId, data, None);
      var g := GetEncryptedFile(w.state, cfg, secretId, None, None);
      && w.Succeeded() && g.Ok?
      && AsciiText(g.value) == B64E(data)
      && B64D(AsciiText(g.value)) == Decoded(data, true)
  {
    var e := B64E(data);
    B64EIsAscii(data);
    assert AsciiText(AsciiBytes(e)) == e;
  }

  /** The stored body equals the payload only for the empty payload. */
  lemma GetIsNotPayload(objs: Objects, cfg: Utils.Config, secretId: string, data: seq<byte>)
    ensures var w := StoreEncryptedFile(objs, cfg, secretId, data, None);
      var g := GetEncryptedFile(w.state, cfg, secretId, None, None);
      g.Ok? && (g.value == data <==> data == [])
  {
    var b := Body(data);
    if b == data {
      assert |data| == 4 * ((|data| + 2) / 3);
    }
  }

  /** Unlike the metadata stores, nothing turns a missing object into success on read. */
  lemma GetAfterDeleteFails(objs: Objects, cfg: Utils.Config, secretId: string)
    ensures var d := DeleteEncryptedFile(objs, cfg, secretId, None);
      d.Succeeded() && GetEncryptedFile(d.state, cfg, secretId, None, None).Err?
  {
  }
}
