/** The record every store persists (`simple_crypt.Secret`) and the errors the stores return. */
module Secrets {
  import opened Basics

  /** One encrypted, view-limited, time-limited secret. The binary fields are opaque
      ciphertext and key material; `ttl` is an absolute expiry in Unix seconds. */
  datatype Secret = Secret(
    secretId: string,
    viewCount: int64,
    data: seq<byte>,
    isFile: bool,
    nonce: seq<byte>,
    salt: seq<byte>,
    header: seq<byte>,
    ttl: int64)

  /** No store reads `ttl` back: what a successful read after a write returns. */
  function ReadBack(s: Secret): (r: Secret)
    ensures r.ttl == 0
    ensures r.(ttl := s.ttl) == s
  {
    s.(ttl := 0)
  }

  /** The status code a cloud SDK attaches to a failed call (gRPC `codes.NotFound`,
      S3's `NoSuchKey`, ...): only "not found" is ever distinguished by the stores. */
  datatype Code = NotFound | OtherCode(name: string)

  /** An error returned by a cloud SDK call. */
  datatype Fault = Fault(code: Code, detail: string)

  /** The Go `error` values the stores produce. */
  datatype Error =
    | SecretNotFound                       // fmt.Errorf("secret not found")
    | MissingConfig                        // the error of utils.LoadEnv
    | CorruptInput                         // base64.CorruptInputError
    | Backend(fault: Fault)                // an SDK error returned unchanged
    | Wrapped(context: string, cause: Error)  // fmt.Errorf("<context>: %w", cause)

  /** The outcome of a Go call returning only `error`, with the backend state after it. */
  datatype Step<S> = Step(state: S, err: Option<Error>) {
    predicate Succeeded() {
      err.None?
    }
  }
}
