/** The cryptographic libraries the handlers call, as function values: the
    model decides nothing about hashing or signing itself. */
module Crypto {
  import opened Options
  import opened Store
  import opened Tokens

  /** The number of bcrypt salt rounds the handlers ask for. */
  const SaltRounds := 10

  /**
    - `passwordMatches(plain, hash)` is `bcrypt.compare`;
    - `hashPassword(plain, rounds, salt)` is `bcrypt.hash(plain, rounds)`,
      its random salt made an argument; the handlers pass `SaltRounds`;
    - `sign(payload, secret, lifetime, iat)` is `jwt.sign` called at time
      `iat` (seconds);
    - `verify(token, secret, now)` is `jwt.verify` at time `now`: the
      payload, or `None` for a bad signature and an expired token alike.
   */
  datatype Oracles = Oracles(
    passwordMatches: (string, Hash) -> bool,
    hashPassword: (string, nat, nat) -> Hash,
    sign: (Payload, string, Lifetime, int) -> string,
    verify: (string, string, int) -> Option<Payload>)

  /** A signed token is never the empty string; it verifies, with its own
      secret and before it expires, to the payload it was signed with; and
      from its expiry time (`exp = iat + lifetime`) on it no longer
      verifies. */
  ghost predicate SoundJwt(c: Oracles) {
    && (forall p: Payload, secret: string, life: Lifetime, iat: int :: c.sign(p, secret, life, iat) != "")
    && (forall p: Payload, secret: string, life: Lifetime, iat: int, now: int
          :: iat <= now < iat + life.Seconds() ==>
               c.verify(c.sign(p, secret, life, iat), secret, now) == Some(p))
    && (forall p: Payload, secret: string, life: Lifetime, iat: int, now: int
          :: iat + life.Seconds() <= now ==>
               c.verify(c.sign(p, secret, life, iat), secret, now) == None)
  }
}
