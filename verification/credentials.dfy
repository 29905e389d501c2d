/**
 * The two credential shapes the signer accepts (fast_s3_url/credentials.py)
 * and the conversion from an SDK's frozen credential triple
 * (`_to_credentials` in fast_s3_url/util.py).
 */
module AwsCredentials {
  import opened Wrappers

  /** Long-lived keys, or temporary keys that come with an STS session token. */
  datatype Credentials =
    | Plain(accessKey: string, secretKey: string)
    | WithToken(accessKey: string, secretKey: string, sessionToken: string)

  /** What an SDK's `get_frozen_credentials()` hands over: the token may be missing. */
  datatype FrozenCredentials = FrozenCredentials(accessKey: string, secretKey: string, token: Option<string>)

  /** `_to_credentials`: a truthy token selects the token variant, anything else the plain one. */
  function ToCredentials(c: FrozenCredentials): (r: Credentials)
    ensures r.WithToken? <==> IsTruthy(c.token)
    ensures r.accessKey == c.accessKey && r.secretKey == c.secretKey
    ensures r.WithToken? ==> Some(r.sessionToken) == c.token
  {
    if IsTruthy(c.token) then
      WithToken(c.accessKey, c.secretKey, c.token.value)
    else
      Plain(c.accessKey, c.secretKey)
  }

  /** The triple an SDK would report for given credentials. */
  function Frozen(r: Credentials): FrozenCredentials {
    match r
    case Plain(a, s) => FrozenCredentials(a, s, None)
    case WithToken(a, s, t) => FrozenCredentials(a, s, Some(t))
  }

  /**
   * Every credential value except a token variant with an empty token is
   * reproduced by the conversion; such a value collapses to the plain variant.
   */
  lemma ToCredentialsRecovers(r: Credentials)
    ensures (r.Plain? || r.sessionToken != "") ==> ToCredentials(Frozen(r)) == r
    ensures (r.WithToken? && r.sessionToken == "") ==> ToCredentials(Frozen(r)) == Plain(r.accessKey, r.secretKey)
  {
  }

  /** A missing token and an empty token are treated alike. */
  lemma EmptyTokenIsNoToken(a: string, s: string)
    ensures ToCredentials(FrozenCredentials(a, s, Some(""))) == ToCredentials(FrozenCredentials(a, s, None)) == Plain(a, s)
  {
  }
}
