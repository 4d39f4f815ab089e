/** What a handler answers: a status, a JSON body, and the cookie operations
    it performs on the response. */
module Http {
  import opened Options
  import opened Store

  datatype SameSite = Strict | Lax | SameSiteNone

  /** The option object passed to `res.cookie` / `res.clearCookie`; an
      option left out is `None`. */
  datatype CookieOptions = CookieOptions(
    httpOnly: bool,
    secure: bool,
    sameSite: SameSite,
    path: Option<string>,
    maxAge: Option<nat>,
    partitioned: bool)

  datatype CookieOp =
    | SetCookie(name: string, value: string, options: CookieOptions)
    | ClearCookie(name: string, options: CookieOptions)

  /** A user as listed with `select('-password')`: no password field. */
  datatype PublicUser = PublicUser(id: Id, username: string, roles: seq<string>, active: bool)

  /** The `user` field of the users handlers' replies; `{}` is `NoUserFields`. */
  datatype UserJson =
    | NoUserFields
    | NameRoles(username: string, roles: seq<string>)
    | NameActiveRoles(username: string, active: bool, roles: seq<string>)
    | IdNameActiveRoles(id: Id, username: string, active: bool, roles: seq<string>)

  /** The `notes` field of the notes handlers' replies; `{}` is `NoNoteFields`. */
  datatype NotesJson =
    | NoNoteFields
    | NoteList(items: seq<Note>)
    | OneNote(note: Note)

  datatype Body =
    | NoContent
    | Message(message: string)
    | AccessToken(accessToken: string)
    | UsersList(message: string, users: seq<PublicUser>)
    | UserReply(message: string, user: UserJson)
    | NotesReply(message: string, notes: NotesJson)

  /** An exception a handler raises; the error middleware answers for it. */
  datatype JsError = ReferenceError(identifier: string)

  datatype Response =
    | Reply(status: nat, body: Body, cookies: seq<CookieOp>)
    | Thrown(error: JsError)

  /** A handler's answer and the store it leaves behind. */
  datatype Step = Step(response: Response, db: Db)

  /** `req.cookies` as cookie-parser presents it. */
  type Cookies = map<string, string>

  /** `cookies?.[name]` is truthy. */
  predicate HasCookie(cookies: Cookies, name: string) {
    name in cookies && |cookies[name]| > 0
  }
}
