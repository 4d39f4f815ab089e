/** JSON Web Token payloads, lifetimes and secrets as authController.js
    uses them. */
module Tokens {
  import opened Options

  /** The `UserInfo` claim of an access token. */
  datatype UserInfo = UserInfo(username: string, roles: seq<string>)

  /** What the handlers sign: `{ UserInfo: { username, roles } }` for an
      access token, `{ username }` for a refresh token. */
  datatype Payload =
    | AccessPayload(userInfo: UserInfo)
    | RefreshPayload(username: string)

  /** `decoded.username` after verification; an access payload has no
      top-level `username`. */
  function DecodedUsername(p: Payload): (r: Option<string>)
    ensures r.Some? <==> p.RefreshPayload?
  {
    match p
    case RefreshPayload(u) => Some(u)
    case AccessPayload(_) => None
  }

  /** An `expiresIn` option: `'15m'` or `'7d'`. */
  datatype Lifetime = Minutes(minutes: nat) | Days(days: nat) {
    function Seconds(): nat {
      match this
      case Minutes(m) => m * 60
      case Days(d) => d * 24 * 60 * 60
    }
  }

  const AccessLifetime: Lifetime := Minutes(15)
  const RefreshLifetime: Lifetime := Days(7)

  /** The process configuration the handlers read:
      `ACCESS_TOKEN_SECRET` and `REFRESH_TOKEN_SECRET`. */
  datatype Config = Config(accessSecret: string, refreshSecret: string)
}
