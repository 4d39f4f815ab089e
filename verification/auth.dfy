/** The authentication endpoints of controllers/authController.js: `login`
    (POST /auth), `refresh` (GET /auth/refresh) and `logout`
    (POST /auth/logout). Each is one atomic step over a store snapshot; the
    clock reading `now` (seconds) is an argument. */
module Auth {
  import opened Options
  import opened Store
  import opened Tokens
  import opened Crypto
  import opened Http
  import opened Browser

  /** The cookie that carries the refresh token. */
  const RefreshCookieName := "__Host-jwt"

  /** The cookie `logout` checks for: not the one `login` sets. */
  const LogoutCheckedCookieName := "jwt"

  /** `7 * 24 * 60 * 60 * 1000` milliseconds. */
  const RefreshCookieMaxAge: nat := 7 * 24 * 60 * 60 * 1000

  /** The options `login` sets the refresh cookie with. */
  const RefreshCookieOptions := CookieOptions(
    httpOnly := true, secure := true, sameSite := SameSiteNone,
    path := Some("/"), maxAge := Some(RefreshCookieMaxAge), partitioned := true)

  /** The options `logout` clears the refresh cookie with: no path. */
  const LogoutClearOptions := CookieOptions(
    httpOnly := true, secure := true, sameSite := SameSiteNone,
    path := None, maxAge := None, partitioned := true)

  const UnauthorizedReply := Reply(401, Message("Unauthorized"), [])

  /** An access token minted for a stored user at time `now`. */
  function AccessTokenFor(c: Oracles, cfg: Config, u: User, now: int): (t: string)
    // under sound signing, the token carries the user's name and roles and
    // verifies with the access secret for the next 15 minutes
    ensures SoundJwt(c) ==> t != ""
    ensures SoundJwt(c) ==> forall when :: now <= when < now + AccessLifetime.Seconds() ==>
      c.verify(t, cfg.accessSecret, when) == Some(AccessPayload(UserInfo(u.username, u.roles)))
    // and not a second longer
    ensures SoundJwt(c) ==> forall when :: now + AccessLifetime.Seconds() <= when ==>
      c.verify(t, cfg.accessSecret, when) == None
  {
    c.sign(AccessPayload(UserInfo(u.username, u.roles)), cfg.accessSecret, AccessLifetime, now)
  }

  /** A refresh token minted for a stored user at time `now`. */
  function RefreshTokenFor(c: Oracles, cfg: Config, u: User, now: int): (t: string)
    // under sound signing, the token carries only the user's name and
    // verifies with the refresh secret for the next 7 days
    ensures SoundJwt(c) ==> t != ""
    ensures SoundJwt(c) ==> forall when :: now <= when < now + RefreshLifetime.Seconds() ==>
      c.verify(t, cfg.refreshSecret, when) == Some(RefreshPayload(u.username))
    // and not a second longer
    ensures SoundJwt(c) ==> forall when :: now + RefreshLifetime.Seconds() <= when ==>
      c.verify(t, cfg.refreshSecret, when) == None
  {
    c.sign(RefreshPayload(u.username), cfg.refreshSecret, RefreshLifetime, now)
  }

  /** The credentials name the first user called `username`, that user is
      active, and the password matches its stored hash. */
  predicate Authenticates(db: Db, c: Oracles, username: string, password: string) {
    match UserIndexByName(db.users, username)
    case None => false
    case Some(i) => db.users[i].active && c.passwordMatches(password, db.users[i].password)
  }

  /** POST /auth with body `{ username, password }`. */
  function Login(db: Db, c: Oracles, cfg: Config, now: int, username: string, password: string): (r: Response)
    ensures r.Reply? && r.status in {200, 400, 401}
    // missing credentials are refused before the store is consulted
    ensures r.status == 400 <==> username == "" || password == ""
    ensures r.status == 400 ==> r == Reply(400, Message("All fields are required"), [])
    // unknown user, inactive user and wrong password share one answer
    ensures r.status == 401 <==> username != "" && password != "" && !Authenticates(db, c, username, password)
    ensures r.status == 401 ==> r == UnauthorizedReply
    ensures r.status == 200 ==>
      var u := db.users[UserIndexByName(db.users, username).value];
      && u.username == username
      && r.body == AccessToken(AccessTokenFor(c, cfg, u, now))
      && r.cookies == [SetCookie(RefreshCookieName, RefreshTokenFor(c, cfg, u, now), RefreshCookieOptions)]
  {
    if username == "" || password == "" then
      Reply(400, Message("All fields are required"), [])
    else
      match UserIndexByName(db.users, username)
      case None => UnauthorizedReply
      case Some(i) =>
        var u := db.users[i];
        if !u.active then UnauthorizedReply
        else if !c.passwordMatches(password, u.password) then UnauthorizedReply
        else
          Reply(200, AccessToken(AccessTokenFor(c, cfg, u, now)),
                [SetCookie(RefreshCookieName, RefreshTokenFor(c, cfg, u, now), RefreshCookieOptions)])
  }

  /** The refresh cookie lives exactly as long as the refresh token it
      carries, and a browser keeps it: a successful login leaves the
      refresh token, and only it, in the cookie jar under `__Host-jwt`. */
  lemma LoginCookieStored(db: Db, c: Oracles, cfg: Config, now: int, username: string, password: string, jar: Jar)
    requires Login(db, c, cfg, now, username, password).status == 200
    ensures RefreshCookieMaxAge == RefreshLifetime.Seconds() * 1000
    ensures var r := Login(db, c, cfg, now, username, password);
      var u := db.users[UserIndexByName(db.users, username).value];
      ApplyAll(jar, r.cookies) == jar[RefreshCookieName := StoredCookie(RefreshTokenFor(c, cfg, u, now), "/", true)]
    // the stored token verifies exactly while the cookie's max-age runs
    ensures SoundJwt(c) ==>
      var u := db.users[UserIndexByName(db.users, username).value];
      forall when :: now <= when ==>
        (c.verify(RefreshTokenFor(c, cfg, u, now), cfg.refreshSecret, when).Some?
         <==> when < now + RefreshCookieMaxAge / 1000)
  {
    var r := Login(db, c, cfg, now, username, password);
    assert r.cookies[1..] == [];
  }

  /** GET /auth/refresh with the cookies the browser sent. */
  function Refresh(db: Db, c: Oracles, cfg: Config, now: int, cookies: Cookies): (r: Response)
    ensures r.Reply? && r.status in {200, 401, 403}
    // a refresh never sets or renews a cookie
    ensures r.cookies == []
    ensures !HasCookie(cookies, RefreshCookieName) ==> r == Reply(401, Message("Unauthorized request"), [])
    ensures HasCookie(cookies, RefreshCookieName) ==>
      match c.verify(cookies[RefreshCookieName], cfg.refreshSecret, now)
      case None => r == Reply(403, Message("Forbidden"), [])
      case Some(p) =>
        match DecodedUsername(p)
        case None => r == UnauthorizedReply
        case Some(name) =>
          match UserIndexByName(db.users, name)
          case None => r == UnauthorizedReply
          // the new token carries the stored user's current name and roles
          case Some(i) => r == Reply(200, AccessToken(AccessTokenFor(c, cfg, db.users[i], now)), [])
  {
    if !HasCookie(cookies, RefreshCookieName) then
      Reply(401, Message("Unauthorized request"), [])
    else
      match c.verify(cookies[RefreshCookieName], cfg.refreshSecret, now)
      case None => Reply(403, Message("Forbidden"), [])
      case Some(p) =>
        match DecodedUsername(p)
        case None => UnauthorizedReply
        case Some(name) =>
          match UserIndexByName(db.users, name)
          case None => UnauthorizedReply
          case Some(i) => Reply(200, AccessToken(AccessTokenFor(c, cfg, db.users[i], now)), [])
  }

  /** Two user lists that agree on every name and role list. */
  ghost predicate SameNamesAndRoles(us1: seq<User>, us2: seq<User>) {
    && |us1| == |us2|
    && forall i :: 0 <= i < |us1| ==> us1[i].username == us2[i].username && us1[i].roles == us2[i].roles
  }

  /** Refresh reads only names and roles from the store: in particular it
      never consults the `active` flag, so a deactivated user keeps
      obtaining access tokens until the refresh token expires. */
  lemma RefreshIgnoresActive(db1: Db, db2: Db, c: Oracles, cfg: Config, now: int, cookies: Cookies)
    requires SameNamesAndRoles(db1.users, db2.users)
    ensures Refresh(db1, c, cfg, now, cookies) == Refresh(db2, c, cfg, now, cookies)
  {
    if HasCookie(cookies, RefreshCookieName) {
      var v := c.verify(cookies[RefreshCookieName], cfg.refreshSecret, now);
      if v.Some? && DecodedUsername(v.value).Some? {
        var name := DecodedUsername(v.value).value;
        var a := UserIndexByName(db1.users, name);
        var b := UserIndexByName(db2.users, name);
        if a.Some? {
          assert db2.users[a.value].username == name;
        }
        if b.Some? {
          assert db1.users[b.value].username == name;
        }
      }
    }
  }

  /** The session round trip: the cookie a login stores lets a later refresh,
      before the refresh token expires, mint an access token from the
      store's current record for that name, and fails with 401 once no user
      of that name remains. */
  lemma LoginThenRefresh(db: Db, db': Db, c: Oracles, cfg: Config, t0: int, t1: int,
                         username: string, password: string, jar: Jar)
    requires SoundJwt(c)
    requires Login(db, c, cfg, t0, username, password).status == 200
    requires t0 <= t1 < t0 + RefreshLifetime.Seconds()
    ensures var jar' := ApplyAll(jar, Login(db, c, cfg, t0, username, password).cookies);
      var r := Refresh(db', c, cfg, t1, Send(jar'));
      match UserIndexByName(db'.users, username)
      case Some(i) => r == Reply(200, AccessToken(AccessTokenFor(c, cfg, db'.users[i], t1)), [])
      case None => r == UnauthorizedReply
  {
    var login := Login(db, c, cfg, t0, username, password);
    var u := db.users[UserIndexByName(db.users, username).value];
    LoginCookieStored(db, c, cfg, t0, username, password, jar);
    var token := RefreshTokenFor(c, cfg, u, t0);
    var sent := Send(ApplyAll(jar, login.cookies));
    assert sent[RefreshCookieName] == token;
    assert c.verify(token, cfg.refreshSecret, t1) == Some(RefreshPayload(username));
  }

  /** Once the refresh token a login stored has expired, refreshing with
      the browser's cookies is refused with 403, whatever the store holds. */
  lemma LoginThenLateRefresh(db: Db, db': Db, c: Oracles, cfg: Config, t0: int, t1: int,
                             username: string, password: string, jar: Jar)
    requires SoundJwt(c)
    requires Login(db, c, cfg, t0, username, password).status == 200
    requires t0 + RefreshLifetime.Seconds() <= t1
    ensures var jar' := ApplyAll(jar, Login(db, c, cfg, t0, username, password).cookies);
      Refresh(db', c, cfg, t1, Send(jar')) == Reply(403, Message("Forbidden"), [])
  {
    var login := Login(db, c, cfg, t0, username, password);
    var u := db.users[UserIndexByName(db.users, username).value];
    LoginCookieStored(db, c, cfg, t0, username, password, jar);
    var token := RefreshTokenFor(c, cfg, u, t0);
    var sent := Send(ApplyAll(jar, login.cookies));
    assert sent[RefreshCookieName] == token;
    assert c.verify(token, cfg.refreshSecret, t1) == None;
  }

  /** POST /auth/logout with the cookies the browser sent. */
  function Logout(cookies: Cookies): (r: Response)
    ensures r.Reply? && r.status in {200, 204}
    ensures r.status == 204 <==> !HasCookie(cookies, LogoutCheckedCookieName)
    ensures r.status == 204 ==> r.body == NoContent && r.cookies == []
    ensures r.status == 200 ==>
      r.body == Message("Cookie cleared") && r.cookies == [ClearCookie(RefreshCookieName, LogoutClearOptions)]
  {
    if !HasCookie(cookies, LogoutCheckedCookieName) then Reply(204, NoContent, [])
    else Reply(200, Message("Cookie cleared"), [ClearCookie(RefreshCookieName, LogoutClearOptions)])
  }

  /** Logout's answer does not depend on the refresh cookie at all. */
  lemma LogoutIgnoresRefreshCookie(cookies: Cookies, v: string)
    ensures Logout(cookies[RefreshCookieName := v]) == Logout(cookies)
    ensures Logout(cookies - {RefreshCookieName}) == Logout(cookies)
  {
    assert HasCookie(cookies[RefreshCookieName := v], LogoutCheckedCookieName) == HasCookie(cookies, LogoutCheckedCookieName);
    assert HasCookie(cookies - {RefreshCookieName}, LogoutCheckedCookieName) == HasCookie(cookies, LogoutCheckedCookieName);
  }

  /** The clear that logout sends (when it sends one) matches the cookie
      login stored: the flags agree, and the omitted path is the `/` that
      Express supplies, so the browser drops the refresh cookie. */
  lemma LogoutClearMatchesLoginCookie(cookies: Cookies, jar: Jar, token: string)
    requires HasCookie(cookies, LogoutCheckedCookieName)
    ensures Logout(cookies).cookies == [ClearCookie(RefreshCookieName, LogoutClearOptions)]
    // the same flags as the cookie login sets; only path and lifetime are left out
    ensures LogoutClearOptions.(path := Some("/")) == RefreshCookieOptions.(maxAge := None)
    ensures var stored := Apply(jar, SetCookie(RefreshCookieName, token, RefreshCookieOptions));
      RefreshCookieName !in ApplyAll(stored, Logout(cookies).cookies)
  {
    var ops := Logout(cookies).cookies;
    assert ops[1..] == [];
  }

  /** Logging out right after logging in, with exactly the cookies the
      browser holds, leaves the refresh cookie in place: logout answers 204
      because no `jwt` cookie exists. */
  lemma LogoutAfterLoginKeepsRefreshCookie(db: Db, c: Oracles, cfg: Config, now: int, username: string, password: string)
    requires Login(db, c, cfg, now, username, password).status == 200
    ensures var jar := ApplyAll(map[], Login(db, c, cfg, now, username, password).cookies);
      var out := Logout(Send(jar));
      && out.status == 204
      && RefreshCookieName in jar
      && ApplyAll(jar, out.cookies) == jar
  {
    LoginCookieStored(db, c, cfg, now, username, password, map[]);
  }

  /** The clear options the file's own notes give for logout: the set
      options without the lifetime. */
  const IntendedClearOptions := RefreshCookieOptions.(maxAge := None)

  /** Logout as evidently intended: test the cookie that login sets. */
  function LogoutIntended(cookies: Cookies): (r: Response)
    ensures r.Reply? && r.status in {200, 204}
    ensures r.status == 204 <==> !HasCookie(cookies, RefreshCookieName)
    ensures r.status == 204 ==> r.body == NoContent && r.cookies == []
    ensures r.status == 200 ==>
      r.body == Message("Cookie cleared") && r.cookies == [ClearCookie(RefreshCookieName, IntendedClearOptions)]
  {
    if !HasCookie(cookies, RefreshCookieName) then Reply(204, NoContent, [])
    else Reply(200, Message("Cookie cleared"), [ClearCookie(RefreshCookieName, IntendedClearOptions)])
  }

  /** With the intended test, logging out after logging in removes the
      refresh cookie, and a second logout answers 204: logout is
      idempotent. */
  lemma LogoutIntendedEndsSession(db: Db, c: Oracles, cfg: Config, now: int, username: string, password: string, jar: Jar)
    requires SoundJwt(c)
    requires Login(db, c, cfg, now, username, password).status == 200
    ensures var jar1 := ApplyAll(jar, Login(db, c, cfg, now, username, password).cookies);
      var out := LogoutIntended(Send(jar1));
      var jar2 := ApplyAll(jar1, out.cookies);
      && out.status == 200
      && RefreshCookieName !in jar2
      && LogoutIntended(Send(jar2)).status == 204
  {
    LoginCookieStored(db, c, cfg, now, username, password, jar);
    var jar1 := ApplyAll(jar, Login(db, c, cfg, now, username, password).cookies);
    var out := LogoutIntended(Send(jar1));
    assert out.cookies[1..] == [];
  }
}
