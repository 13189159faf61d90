/** The configuration and value helpers of package `utils` other than base64. */
module Utils {
  import opened Basics
  import opened Secrets
  import Strconv

  // ---------------------------------------------------------------- configuration

  /** The package-level variables `LoadEnv` assigns. */
  datatype Config = Config(
    s3Bucket: string,
    dynamoTable: string,
    firestoreProjectId: string,
    firestoreCollection: string,
    gcsBucket: string,
    awsRegion: string,
    ttlDays: int64,
    usesAWS: bool,
    usesGCP: bool)

  /** The process environment. */
  type Env = map<string, string>

  /** `os.Getenv`: an unset variable reads as the empty string. */
  function Getenv(env: Env, name: string): string {
    if name in env then env[name] else ""
  }

  const DefaultRegion: string := "us-east-1"
  const DefaultTTLDays: int64 := 7

  /** The configuration after a call of `LoadEnv`, and its error. */
  datatype EnvLoad = EnvLoad(cfg: Config, err: Option<Error>)

  /** `utils.LoadEnv` over the environment `env`, starting from the variables' values
      `prior`. AWS is selected by a bucket and a table, GCP by a project, a collection and
      a bucket; both may be selected at once, and neither is the only error. On that error
      the region and retention window keep their earlier values. Otherwise a present
      `AWS_REGION` wins even when empty, and a present `TTL_DAYS` is read with `Atoi`. */
  function LoadEnv(env: Env, prior: Config): (r: EnvLoad)
    ensures r.cfg.usesAWS <==> Getenv(env, "S3_BUCKET") != "" && Getenv(env, "DYNAMO_TABLE") != ""
    ensures r.cfg.usesGCP <==>
              && Getenv(env, "FIRESTORE_PROJECT_ID") != ""
              && Getenv(env, "FIRESTORE_COLLECTION") != ""
              && Getenv(env, "GCS_BUCKET") != ""
    ensures r.err.Some? <==> !r.cfg.usesAWS && !r.cfg.usesGCP
    ensures r.err.Some? ==> r.err.value == MissingConfig
    ensures r.cfg.s3Bucket == Getenv(env, "S3_BUCKET") && r.cfg.dynamoTable == Getenv(env, "DYNAMO_TABLE")
    ensures r.cfg.firestoreProjectId == Getenv(env, "FIRESTORE_PROJECT_ID")
    ensures r.cfg.firestoreCollection == Getenv(env, "FIRESTORE_COLLECTION")
    ensures r.cfg.gcsBucket == Getenv(env, "GCS_BUCKET")
    ensures r.err.Some? ==> r.cfg.awsRegion == prior.awsRegion && r.cfg.ttlDays == prior.ttlDays
    ensures r.err.None? && "AWS_REGION" in env ==> r.cfg.awsRegion == env["AWS_REGION"]
    ensures r.err.None? && "AWS_REGION" !in env ==> r.cfg.awsRegion == DefaultRegion
    ensures r.err.None? && "TTL_DAYS" in env ==> r.cfg.ttlDays == Strconv.Atoi(env["TTL_DAYS"])
    ensures r.err.None? && "TTL_DAYS" !in env ==> r.cfg.ttlDays == DefaultTTLDays
  {
    var required := prior.(
      s3Bucket := Getenv(env, "S3_BUCKET"),
      dynamoTable := Getenv(env, "DYNAMO_TABLE"),
      firestoreProjectId := Getenv(env, "FIRESTORE_PROJECT_ID"),
      firestoreCollection := Getenv(env, "FIRESTORE_COLLECTION"),
      gcsBucket := Getenv(env, "GCS_BUCKET"));
    var selected := required.(
      usesAWS := required.s3Bucket != "" && required.dynamoTable != "",
      usesGCP := required.firestoreProjectId != "" && required.firestoreCollection != "" && required.gcsBucket != "");
    if !selected.usesAWS && !selected.usesGCP then EnvLoad(selected, Some(MissingConfig))
    else
      var region := if "AWS_REGION" in env then env["AWS_REGION"] else DefaultRegion;
      var days := if "TTL_DAYS" in env then Strconv.Atoi(env["TTL_DAYS"]) else DefaultTTLDays;
      EnvLoad(selected.(awsRegion := region, ttlDays := days), None)
  }

  /** Both backend pairings can be selected by one environment; nothing makes them exclusive. */
  lemma LoadEnvBothBackends(prior: Config)
    ensures var env := map["S3_BUCKET" := "b", "DYNAMO_TABLE" := "t", "FIRESTORE_PROJECT_ID" := "p",
                           "FIRESTORE_COLLECTION" := "c", "GCS_BUCKET" := "g"];
      var r := LoadEnv(env, prior);
      r.err.None? && r.cfg.usesAWS && r.cfg.usesGCP
  {
  }

  /** A `TTL_DAYS` that holds no digit at all is read as a retention window of 0 days. */
  lemma LoadEnvUnparseableTTL(env: Env, prior: Config)
    requires "TTL_DAYS" in env
    requires forall i | 0 <= i < |env["TTL_DAYS"]| :: !Strconv.IsDigit(env["TTL_DAYS"][i])
    requires LoadEnv(env, prior).err.None?
    ensures LoadEnv(env, prior).cfg.ttlDays == 0
  {
    Strconv.AtoiWithoutDigits(env["TTL_DAYS"]);
  }

  // ---------------------------------------------------------------- view counts

  /** What `strconv.ParseFloat(s, 64)` makes of the submitted view count: an error
      (including out-of-range values), a finite number, or NaN / an infinity. */
  datatype ParsedFloat = ParseFailed | Finite(v: real) | NonFinite

  function Abs(x: real): real {
    if x < 0.0 then -x else x
  }

  /** `utils.SanitizeViewCount`: the integer part of `|v|` when `0 < |v| < 10`, and 1 for
      anything else, unparseable input, NaN and the infinities included. */
  function SanitizeViewCount(p: ParsedFloat): (r: int)
    ensures 0 <= r <= 9
    ensures !p.Finite? ==> r == 1
    ensures p.Finite? && 0.0 < Abs(p.v) < 10.0 ==> r as real <= Abs(p.v) < r as real + 1.0
    ensures p.Finite? && !(0.0 < Abs(p.v) < 10.0) ==> r == 1
    ensures r == 0 <==> p.Finite? && 0.0 < Abs(p.v) < 1.0
  {
    match p
    case Finite(v) =>
      var vc := Abs(v);
      if 0.0 < vc < 10.0 then vc.Floor else 1
    case _ => 1
  }

  // ---------------------------------------------------------------- expiry

  const SecondsPerDay: int := 86400

  /** `time.Now().AddDate(0, 0, days).Unix()` with the clock reading `now` passed in:
      `days` whole days of 86400 seconds later, in wrapping 64-bit arithmetic. */
  function Expiry(now: int64, days: int64): (r: int64)
    ensures MinInt64 <= now + days * SecondsPerDay <= MaxInt64 ==> r == now + days * SecondsPerDay
  {
    Wrap64(now + days * SecondsPerDay)
  }

  // ---------------------------------------------------------------- random strings

  /** `count` consecutive characters starting at `first`. */
  function CharRange(first: char, count: nat): (r: string)
    requires first as int + count <= 0xD800
    ensures |r| == count
    ensures forall i | 0 <= i < count :: r[i] as int == first as int + i
  {
    seq(count, i requires 0 <= i < count => (first as int + i) as char)
  }

  /** The 62 alphanumerics in the order the source lists them. */
  const Alphanumerics: string := CharRange('a', 26) + CharRange('A', 26) + CharRange('0', 10)

  lemma CharRangeAsListed(first: char, listed: string)
    requires first as int + |listed| <= 0xD800
    requires forall i | 0 <= i < |listed| :: listed[i] as int == first as int + i
    ensures CharRange(first, |listed|) == listed
  {
  }

  lemma LowerAsListed()
    ensures CharRange('a', 26) == "abcdefghijklmnopqrstuvwxyz"
  {
    var listed := "abcdefghijklmnopqrstuvwxyz";
    forall i | 0 <= i < 26 ensures listed[i] as int == 'a' as int + i {
      assert listed[i] as int == 'a' as int + i;
    }
    CharRangeAsListed('a', listed);
  }

  lemma UpperAsListed()
    ensures CharRange('A', 26) == "ABCDEFGHIJKLMNOPQRSTUVWXYZ"
  {
    var listed := "ABCDEFGHIJKLMNOPQRSTUVWXYZ";
    forall i | 0 <= i < 26 ensures listed[i] as int == 'A' as int + i {
      assert listed[i] as int == 'A' as int + i;
    }
    CharRangeAsListed('A', listed);
  }

  lemma DigitsAsListed()
    ensures CharRange('0', 10) == "0123456789"
  {
    var listed := "0123456789";
    forall i | 0 <= i < 10 ensures listed[i] as int == '0' as int + i {
      assert listed[i] as int == '0' as int + i;
    }
    CharRangeAsListed('0', listed);
  }

  /** The constant spells out the same 62 characters, in the same order, as the source's literal. */
  lemma AlphanumericsAsListed()
    ensures Alphanumerics == "abcdefghijklmnopqrstuvwxyzABCDEFGHIJKLMNOPQRSTUVWXYZ0123456789"
  {
    LowerAsListed();
    UpperAsListed();
    DigitsAsListed();
    var letters := "abcdefghijklmnopqrstuvwxyzABCDEFGHIJKLMNOPQRSTUVWXYZ";
    assert "abcdefghijklmnopqrstuvwxyz" + "ABCDEFGHIJKLMNOPQRSTUVWXYZ" == letters;
    assert letters + "0123456789" == "abcdefghijklmnopqrstuvwxyzABCDEFGHIJKLMNOPQRSTUVWXYZ0123456789";
  }

  const Symbols: string := "!#$%&*+-=?@_~"

  /** Every character from `first` up to `count` places later lies in `CharRange(first, count)`. */
  lemma InCharRange(first: char, count: nat, c: char)
    requires first as int + count <= 0xD800
    requires first <= c && c as int < first as int + count
    ensures c in CharRange(first, count)
  {
    var r := CharRange(first, count);
    assert r[c as int - first as int] == c;
  }

  /** No alphanumeric is missing from `Alphanumerics`. */
  lemma AlphanumericsComplete()
    ensures forall c | IsAlphanumeric(c) :: c in Alphanumerics
  {
    var lower, upper, digits := CharRange('a', 26), CharRange('A', 26), CharRange('0', 10);
    assert Alphanumerics == lower + upper + digits;
    forall c | IsAlphanumeric(c) ensures c in Alphanumerics {
      if 'a' <= c <= 'z' {
        InCharRange('a', 26, c);
      } else if 'A' <= c <= 'Z' {
        InCharRange('A', 26, c);
      } else {
        InCharRange('0', 10, c);
      }
    }
  }

  predicate IsAlphanumeric(c: char) {
    ('a' <= c <= 'z') || ('A' <= c <= 'Z') || ('0' <= c <= '9')
  }

  /** The characters `RandString` draws from. */
  function Charset(urlSafe: bool): (cs: string)
    ensures |cs| == if urlSafe then 62 else 75
    ensures forall i | 0 <= i < |cs| :: IsAlphanumeric(cs[i]) || (!urlSafe && cs[i] in Symbols)
    ensures forall c | IsAlphanumeric(c) :: c in cs
    ensures !urlSafe ==> forall c | c in Symbols :: c in cs
  {
    AlphanumericsComplete();
    if urlSafe then Alphanumerics else Alphanumerics + Symbols
  }

  /** `utils.RandString`: `length` characters, each an alphanumeric, or, when not
      `urlSafe`, one of `!#$%&*+-=?@_~`. Which index `crypto/rand` picks is left open. */
  method RandString(length: nat, urlSafe: bool) returns (s: string)
    ensures |s| == length
    ensures forall i | 0 <= i < |s| :: IsAlphanumeric(s[i]) || (!urlSafe && s[i] in Symbols)
  {
    var chars := Charset(urlSafe);
    s := "";
    for i := 0 to length
      invariant |s| == i
      invariant forall j | 0 <= j < i :: s[j] in chars
    {
      var num :| 0 <= num < |chars|;
      s := s + [chars[num]];
    }
  }
}
