/** `ots_dynamo`: the key-value store. Each secret is one item of the table named by
    `DYNAMO_TABLE`, keyed by `secret_id`, with typed attributes. Reads never report a
    decode failure, backend errors are passed on unchanged, and an update of an absent
    key creates a partial item. */
module OtsDynamo {
  import opened Basics
  import opened Base64
  import opened Secrets
  import opened Strconv
  import Utils

  /** A DynamoDB attribute value: string, number (carried as decimal text) or boolean. */
  datatype Attr = S(s: string) | N(n: string) | BOOL(b: bool)

  /** The attributes the store reads and writes, each standing for its name on the wire
      (`WireName`); no other attribute name occurs in this code. */
  datatype AttrName =
    | SecretIdAttr | ViewCountAttr | DataAttr | IsFileAttr | NonceAttr | SaltAttr | HeaderAttr | TtlAttr

  function WireName(a: AttrName): string {
    match a
    case SecretIdAttr => "secret_id"
    case ViewCountAttr => "view_count"
    case DataAttr => "data"
    case IsFileAttr => "is_file"
    case NonceAttr => "nonce"
    case SaltAttr => "salt"
    case HeaderAttr => "header"
    case TtlAttr => "ttl"
  }

  /** Distinct attributes have distinct wire names, so an item keyed by `AttrName` holds
      exactly what the same item keyed by name would. */
  lemma WireNameInjective(a: AttrName, b: AttrName)
    requires WireName(a) == WireName(b)
    ensures a == b
  {
  }

  type Item = map<AttrName, Attr>

  /** An item is addressed by its table and its `secret_id`. */
  datatype ItemKey = ItemKey(table: string, secretId: string)

  /** The backend: every item of every table. */
  type Tables = map<ItemKey, Item>

  /** The retention window is fixed here, whatever `TTL_DAYS` says. */
  const RetentionDays: int64 := 7

  function KeyOf(cfg: Utils.Config, id: string): ItemKey {
    ItemKey(cfg.dynamoTable, id)
  }

  /** The item `StoreSecret` puts for `s` at clock reading `now`. */
  function ToItem(s: Secret, now: int64): (item: Item)
    ensures && SecretIdAttr in item && ViewCountAttr in item && DataAttr in item && IsFileAttr in item
            && NonceAttr in item && SaltAttr in item && HeaderAttr in item && TtlAttr in item
    ensures item[SecretIdAttr] == S(s.secretId)
    ensures item[ViewCountAttr] == N(FormatInt(s.viewCount))
    ensures item[IsFileAttr] == BOOL(s.isFile)
    ensures item[DataAttr] == S(B64E(s.data)) && item[NonceAttr] == S(B64E(s.nonce))
    ensures item[SaltAttr] == S(B64E(s.salt)) && item[HeaderAttr] == S(B64E(s.header))
    ensures item[TtlAttr] == N(FormatInt(Utils.Expiry(now, RetentionDays)))
  {
    map[
      SecretIdAttr := S(s.secretId),
      ViewCountAttr := N(FormatInt(s.viewCount)),
      DataAttr := S(B64E(s.data)),
      IsFileAttr := BOOL(s.isFile),
      NonceAttr := S(B64E(s.nonce)),
      SaltAttr := S(B64E(s.salt)),
      HeaderAttr := S(B64E(s.header)),
      TtlAttr := N(FormatInt(Utils.Expiry(now, RetentionDays)))]
  }

  /** A binary attribute as the read takes it: whatever `B64D` returns, error ignored;
      empty when missing or not a string. */
  function ReadBinary(item: Item, name: AttrName): (b: seq<byte>)
    ensures name in item && item[name].S? ==> b == B64D(item[name].s).bytes
    ensures !(name in item && item[name].S?) ==> b == []
  {
    if name in item && item[name].S? then B64D(item[name].s).bytes else []
  }

  /** The record a read builds from `item`: `view_count` through `Atoi` (0 when not a number),
      the binary attributes through `ReadBinary`, `ttl` never read. */
  function FromItem(id: string, item: Item): (s: Secret)
    ensures s.secretId == id && s.ttl == 0
    ensures ViewCountAttr in item && item[ViewCountAttr].N? ==> s.viewCount == Atoi(item[ViewCountAttr].n)
    ensures !(ViewCountAttr in item && item[ViewCountAttr].N?) ==> s.viewCount == 0
    ensures s.isFile <==> IsFileAttr in item && item[IsFileAttr] == BOOL(true)
    ensures s.data == ReadBinary(item, DataAttr) && s.nonce == ReadBinary(item, NonceAttr)
    ensures s.salt == ReadBinary(item, SaltAttr) && s.header == ReadBinary(item, HeaderAttr)
  {
    Secret(
      id,
      if ViewCountAttr in item && item[ViewCountAttr].N? then Atoi(item[ViewCountAttr].n) else 0,
      ReadBinary(item, DataAttr),
      IsFileAttr in item && item[IsFileAttr].BOOL? && item[IsFileAttr].b,
      ReadBinary(item, NonceAttr),
      ReadBinary(item, SaltAttr),
      ReadBinary(item, HeaderAttr),
      0)
  }

  /** Reading a stored item gives back the record, `ttl` aside: `view_count` survives the
      decimal round trip and every binary attribute the base64 round trip. */
  lemma FromItemToItem(s: Secret, now: int64)
    ensures FromItem(s.secretId, ToItem(s, now)) == ReadBack(s)
  {
    AtoiFormatInt(s.viewCount);
    B64DB64E(s.data);
    B64DB64E(s.nonce);
    B64DB64E(s.salt);
    B64DB64E(s.header);
  }

  /** `StoreSecret`: puts the item, overwriting any item with the same key; a backend
      error is returned as it is and nothing is written. */
  function StoreSecret(t: Tables, cfg: Utils.Config, now: int64, s: Secret, fault: Option<Fault>): (r: Step<Tables>)
    ensures r.Succeeded() <==> fault.None?
    ensures r.Succeeded() ==> r.state.Keys == t.Keys + {KeyOf(cfg, s.secretId)}
    ensures r.Succeeded() ==> r.state[KeyOf(cfg, s.secretId)] == ToItem(s, now)
    ensures r.Succeeded() ==> forall k | k in t && k != KeyOf(cfg, s.secretId) :: r.state[k] == t[k]
    ensures !r.Succeeded() ==> r.state == t && r.err == Some(Backend(fault.value))
  {
    if fault.Some? then Step(t, Some(Backend(fault.value)))
    else Step(t[KeyOf(cfg, s.secretId) := ToItem(s, now)], None)
  }

  /** `GetSecret`, for a `GetItem` call that succeeds: "secret not found" when there is no
      item, and otherwise always a record, whatever the attributes hold. */
  function GetSecret(t: Tables, cfg: Utils.Config, id: string): (r: Result<Secret, Error>)
    ensures r.Err? <==> KeyOf(cfg, id) !in t
    ensures r.Err? ==> r.error == SecretNotFound
    ensures r.Ok? ==> r.value == FromItem(id, t[KeyOf(cfg, id)])
  {
    if KeyOf(cfg, id) !in t then Err(SecretNotFound) else Ok(FromItem(id, t[KeyOf(cfg, id)]))
  }

  /** `DeleteSecret`: removes the item (an absent one is no error for `DeleteItem`); a
      backend error is returned unchanged, with no not-found translation. */
  function DeleteSecret(t: Tables, cfg: Utils.Config, id: string, fault: Option<Fault>): (r: Step<Tables>)
    ensures r.Succeeded() <==> fault.None?
    ensures r.Succeeded() ==> r.state.Keys == t.Keys - {KeyOf(cfg, id)}
    ensures forall k | k in r.state :: k in t && r.state[k] == t[k]
    ensures !r.Succeeded() ==> r.state == t && r.err == Some(Backend(fault.value))
  {
    if fault.Some? then Step(t, Some(Backend(fault.value))) else Step(t - {KeyOf(cfg, id)}, None)
  }

  /** `UpdateSecret`: `SET view_count = :val` with no existence condition, so an absent key
      gains an item holding only `secret_id` and `view_count`; other attributes of an existing
      item are untouched. A backend error is wrapped. */
  function UpdateSecret(t: Tables, cfg: Utils.Config, s: Secret, fault: Option<Fault>): (r: Step<Tables>)
    ensures r.Succeeded() <==> fault.None?
    ensures !r.Succeeded() ==>
              r.state == t && r.err == Some(Wrapped("failed to update view count for secret", Backend(fault.value)))
    ensures r.Succeeded() ==> var k := KeyOf(cfg, s.secretId);
              && r.state.Keys == t.Keys + {k}
              && ViewCountAttr in r.state[k] && r.state[k][ViewCountAttr] == N(FormatInt(s.viewCount))
              && Atoi(r.state[k][ViewCountAttr].n) == s.viewCount
              && (k in t ==> r.state[k].Keys == t[k].Keys + {ViewCountAttr})
              && (k in t ==> forall a | a in t[k] && a != ViewCountAttr :: r.state[k][a] == t[k][a])
              && (k !in t ==> r.state[k].Keys == {SecretIdAttr, ViewCountAttr} && r.state[k][SecretIdAttr] == S(s.secretId))
              && (forall k' | k' in t && k' != k :: r.state[k'] == t[k'])
  {
    AtoiFormatInt(s.viewCount);
    var k := KeyOf(cfg, s.secretId);
    var v := N(FormatInt(s.viewCount));
    if fault.Some? then Step(t, Some(Wrapped("failed to update view count for secret", Backend(fault.value))))
    else if k in t then Step(t[k := t[k][ViewCountAttr := v]], None)
    else Step(t[k := map[SecretIdAttr := S(s.secretId), ViewCountAttr := v]], None)
  }

  // ---------------------------------------------------------------- properties

  /** Store then Get returns every field but `ttl`, which is not read. */
  lemma StoreThenGet(t: Tables, cfg: Utils.Config, now: int64, s: Secret)
    ensures var w := StoreSecret(t, cfg, now, s, None);
      w.Succeeded() && GetSecret(w.state, cfg, s.secretId) == Ok(ReadBack(s))
  {
    FromItemToItem(s, now);
  }

  /** Setting `view_count` to the decimal text of `v` changes what a read builds from the
      item in the view count alone. */
  lemma FromItemSetViewCount(id: string, item: Item, v: int64)
    ensures FromItem(id, item[ViewCountAttr := N(FormatInt(v))]) == FromItem(id, item).(viewCount := v)
  {
    var item' := item[ViewCountAttr := N(FormatInt(v))];
    AtoiFormatInt(v);
    assert ReadBinary(item', DataAttr) == ReadBinary(item, DataAttr);
    assert ReadBinary(item', NonceAttr) == ReadBinary(item, NonceAttr);
    assert ReadBinary(item', SaltAttr) == ReadBinary(item, SaltAttr);
    assert ReadBinary(item', HeaderAttr) == ReadBinary(item, HeaderAttr);
  }

  /** After an update a read shows the new count, every other field as stored. */
  lemma StoreUpdateGet(t: Tables, cfg: Utils.Config, now: int64, s: Secret, viewCount: int64)
    ensures var w := StoreSecret(t, cfg, now, s, None);
      var u := UpdateSecret(w.state, cfg, s.(viewCount := viewCount), None);
      u.Succeeded() && GetSecret(u.state, cfg, s.secretId) == Ok(ReadBack(s).(viewCount := viewCount))
  {
    var k := KeyOf(cfg, s.secretId);
    var w := StoreSecret(t, cfg, now, s, None);
    var u := UpdateSecret(w.state, cfg, s.(viewCount := viewCount), None);
    assert w == Step(t[k := ToItem(s, now)], None);
    assert u == Step(w.state[k := ToItem(s, now)[ViewCountAttr := N(FormatInt(viewCount))]], None);
    FromItemToItem(s, now);
    FromItemSetViewCount(s.secretId, ToItem(s, now), viewCount);
  }

  /** Corrupt base64 in any binary attribute goes unnoticed: the read succeeds and the field
      holds whatever the decoder produced before it gave up. */
  lemma CorruptFieldAccepted(t: Tables, cfg: Utils.Config, id: string, name: AttrName, bad: string)
    requires name == DataAttr || name == NonceAttr || name == SaltAttr || name == HeaderAttr
    requires KeyOf(cfg, id) in t
    requires name in t[KeyOf(cfg, id)] && t[KeyOf(cfg, id)][name] == S(bad)
    requires !B64D(bad).ok
    ensures var g := GetSecret(t, cfg, id);
      && g.Ok?
      && (name == DataAttr ==> g.value.data == B64D(bad).bytes)
      && (name == NonceAttr ==> g.value.nonce == B64D(bad).bytes)
      && (name == SaltAttr ==> g.value.salt == B64D(bad).bytes)
      && (name == HeaderAttr ==> g.value.header == B64D(bad).bytes)
  {
  }

  /** The item an update creates for an absent key reads as a record with only the view
      count set. */
  lemma FromPartialItem(id: string, v: int64)
    ensures FromItem(id, map[SecretIdAttr := S(id), ViewCountAttr := N(FormatInt(v))])
         == Secret(id, v, [], false, [], [], [], 0)
  {
    AtoiFormatInt(v);
  }

  /** An update of a key that was never stored creates a partial item instead of failing;
      a read of it then yields a record with only the view count set. */
  lemma UpdateAbsentCreatesItem(t: Tables, cfg: Utils.Config, s: Secret)
    requires KeyOf(cfg, s.secretId) !in t
    ensures var u := UpdateSecret(t, cfg, s, None);
      && u.Succeeded()
      && GetSecret(u.state, cfg, s.secretId) == Ok(Secret(s.secretId, s.viewCount, [], false, [], [], [], 0))
  {
    var k := KeyOf(cfg, s.secretId);
    var item := map[SecretIdAttr := S(s.secretId), ViewCountAttr := N(FormatInt(s.viewCount))];
    assert UpdateSecret(t, cfg, s, None) == Step(t[k := item], None);
    FromPartialItem(s.secretId, s.viewCount);
  }

  /** Deleting twice succeeds both times and leaves the same table. */
  lemma DeleteIdempotent(t: Tables, cfg: Utils.Config, id: string)
    ensures var d1 := DeleteSecret(t, cfg, id, None);
      var d2 := DeleteSecret(d1.state, cfg, id, None);
      d1.Succeeded() && d2.Succeeded() && d2.state == d1.state && GetSecret(d2.state, cfg, id) == Err(SecretNotFound)
  {
  }
}
