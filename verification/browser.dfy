/** The client side of the cookie exchange: a browser's cookie jar for the
    API's host, and how the operations of a response change it. The rules
    are those of the cookie specification (RFC 6265bis): a cookie named with
    the `__Host-` prefix is kept only when it is `Secure` with path `/`;
    `SameSite=None` needs `Secure`; a clear is itself a `Set-Cookie` (with
    an expiry in the past), so it must pass the same two rules, and it
    removes the stored cookie only when path and partitioning match. Express fills in path `/` when a
    `res.cookie` or `res.clearCookie` call gives none. */
module Browser {
  import opened Options
  import opened Http

  datatype StoredCookie = StoredCookie(value: string, path: string, partitioned: bool)

  type Jar = map<string, StoredCookie>

  /** The path Express sends: the one given, else `/`. */
  function EffectivePath(o: CookieOptions): string {
    o.path.GetOr("/")
  }

  predicate HasHostPrefix(name: string) {
    |name| >= 7 && name[..7] == "__Host-"
  }

  /** The browser keeps a cookie set with these options. */
  predicate Accepts(name: string, o: CookieOptions) {
    && (HasHostPrefix(name) ==> o.secure && EffectivePath(o) == "/")
    && (o.sameSite == SameSiteNone ==> o.secure)
  }

  function Apply(jar: Jar, op: CookieOp): Jar {
    match op
    case SetCookie(name, value, o) =>
      if Accepts(name, o) then jar[name := StoredCookie(value, EffectivePath(o), o.partitioned)]
      else jar
    case ClearCookie(name, o) =>
      if Accepts(name, o) && name in jar && jar[name].path == EffectivePath(o) && jar[name].partitioned == o.partitioned
      then jar - {name}
      else jar
  }

  function ApplyAll(jar: Jar, ops: seq<CookieOp>): Jar
    decreases |ops|
  {
    if |ops| == 0 then jar else ApplyAll(Apply(jar, ops[0]), ops[1..])
  }

  /** The `Cookie` header the browser sends with its next request. */
  function Send(jar: Jar): (c: Cookies)
    ensures c.Keys == jar.Keys
    ensures forall n :: n in jar ==> c[n] == jar[n].value
  {
    map n | n in jar :: jar[n].value
  }
}
