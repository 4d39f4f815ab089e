/** The user administration handlers of controllers/usersController.js:
    list, create, update and delete users. */
module Users {
  import opened Options
  import opened Js
  import opened Text
  import opened Store
  import opened Crypto
  import opened Http

  /** The users as `User.find().select('-password')` lists them. */
  function PublicView(us: seq<User>): (r: seq<PublicUser>)
    ensures |r| == |us|
    ensures forall i :: 0 <= i < |us| ==>
      r[i] == PublicUser(us[i].id, us[i].username, us[i].roles, us[i].active)
  {
    seq(|us|, i requires 0 <= i < |us| => PublicUser(us[i].id, us[i].username, us[i].roles, us[i].active))
  }

  /** GET /users */
  function GetAllUsers(db: Db): (r: Response)
    ensures r.Reply? && r.status == 200 && r.cookies == []
    ensures |db.users| == 0 <==> r.body == UsersList("No users found", [])
    ensures |db.users| > 0 ==>
      r.body == UsersList("Technotes has " + NatToString(|db.users|) + " users", PublicView(db.users))
  {
    if |db.users| == 0 then Reply(200, UsersList("No users found", []), [])
    else Reply(200, UsersList("Technotes has " + NatToString(|db.users|) + " users", PublicView(db.users)), [])
  }

  /** The count in the listing message is the number of users listed. */
  lemma GetAllUsersCountIsListed(db: Db)
    requires |db.users| > 0
    ensures var b := GetAllUsers(db).body;
      && b.message == "Technotes has " + NatToString(|db.users|) + " users"
      && DecimalValue(NatToString(|db.users|)) == |b.users|
  {
    NatToStringRoundTrip(|db.users|);
  }

  /** Some stored name equals `name` up to case. */
  ghost predicate NameTaken(users: seq<User>, name: string) {
    exists i :: 0 <= i < |users| && CaseFoldEq(users[i].username, name)
  }

  /** The fields `createNewUser` insists on. */
  predicate ValidNewUser(username: string, password: string, roles: JsValue) {
    username != "" && password != "" && IsNonEmptyArray(roles)
  }

  /** POST /users with body `{ username, password, roles }`. The new
      document's id and bcrypt's random salt are arguments; `active` takes
      the schema default `true`. */
  function CreateNewUser(db: Db, c: Oracles, freshId: Id, salt: nat,
                         username: string, password: string, roles: JsValue): (r: Step)
    ensures r.response.Reply? && r.response.cookies == [] && r.response.status in {200, 400, 409}
    ensures r.response.status == 400 <==> !ValidNewUser(username, password, roles)
    ensures r.response.status == 400 ==>
      r == Step(Reply(400, UserReply("all fields are required", NoUserFields), []), db)
    ensures r.response.status == 409 <==> ValidNewUser(username, password, roles) && NameTaken(db.users, username)
    ensures r.response.status == 409 ==>
      r == Step(Reply(409, UserReply("Duplicate username", NoUserFields), []), db)
    // the store keeps a hash; the reply shows only the name and roles
    ensures r.response.status == 200 ==>
      && r.db == db.(users := db.users + [User(freshId, username, c.hashPassword(password, SaltRounds, salt), roles.items, true)])
      && r.response.body == UserReply("New user " + username + " created", NameRoles(username, roles.items))
  {
    if !ValidNewUser(username, password, roles) then
      Step(Reply(400, UserReply("all fields are required", NoUserFields), []), db)
    else if UserIndexByFoldedName(db.users, username).Some? then
      Step(Reply(409, UserReply("Duplicate username", NoUserFields), []), db)
    else
      var u := User(freshId, username, c.hashPassword(password, SaltRounds, salt), roles.items, true);
      Step(Reply(200, UserReply("New user " + username + " created", NameRoles(username, roles.items)), []),
           db.(users := db.users + [u]))
  }

  /** Creating a user with a fresh id keeps the store well formed: the
      duplicate check is what keeps names unique up to case. */
  lemma CreateNewUserPreservesWellFormed(db: Db, c: Oracles, freshId: Id, salt: nat,
                                         username: string, password: string, roles: JsValue)
    requires WellFormed(db)
    requires !HasUser(db.users, freshId)
    ensures WellFormed(CreateNewUser(db, c, freshId, salt, username, password, roles).db)
  {
    var r := CreateNewUser(db, c, freshId, salt, username, password, roles);
    if r.response.status == 200 {
      var us := r.db.users;
      assert us[..|db.users|] == db.users;
      forall k | 0 <= k < |r.db.notes|
        ensures HasUser(us, r.db.notes[k].user)
      {
        var w :| 0 <= w < |db.users| && db.users[w].id == db.notes[k].user;
        assert us[w].id == db.notes[k].user;
      }
    }
  }

  /** The fields `updateUser` insists on. */
  predicate ValidUpdate(id: Id, username: string, roles: JsValue, active: JsValue) {
    id != "" && username != "" && IsNonEmptyArray(roles) && IsBoolean(active)
  }

  /** The name clash `updateUser` refuses: the first user whose name equals
      the new name up to case is a different user. */
  predicate ClashesWithOther(users: seq<User>, id: Id, username: string) {
    match UserIndexByFoldedName(users, username)
    case None => false
    case Some(d) => users[d].id != id
  }

  /** The role-list wording: longer lists get a different lead-in. */
  function RolesLeadIn(count: nat): (r: string)
    ensures r == "and has these following roles:" <==> count > 2
  {
    if count > 2 then "and has these following roles:" else "and has taken up the role of"
  }

  /** "active" or "not active". */
  function ActiveText(active: bool): (t: string)
    ensures t == "active" <==> active
  {
    if active then "active" else "not active"
  }

  /** The capitalized roles, comma separated. */
  function RolesText(roles: seq<string>): (t: string)
    ensures t == Join(CapitalizeAll(roles), ", ")
    ensures |roles| == 1 ==> t == Capitalize(roles[0])
    // the text names exactly the roles, in order, up to case
    ensures CaseFoldEq(t, Join(roles, ", "))
  {
    var cs := CapitalizeAll(roles);
    assert |roles| == 1 ==> cs == [Capitalize(roles[0])];
    JoinCapitalizedCaseFold(roles, ", ");
    Join(cs, ", ")
  }

  /** The success message of `updateUser` for the saved user: whether the
      user is active, a lead-in chosen by the number of roles, and the
      capitalized roles. */
  function UpdateMessage(u: User): (m: string)
    ensures m == "The user " + u.username + " is set to " + ActiveText(u.active) + " "
      + RolesLeadIn(|u.roles|) + " " + RolesText(u.roles)
  {
    "The user " + u.username + " is set to " + ActiveText(u.active) + " "
      + RolesLeadIn(|u.roles|) + " " + RolesText(u.roles)
  }

  /** The message opens with the user's new name and closes with the role
      list, which names exactly the stored roles, in order, up to case. */
  lemma UpdateMessageNamesUserAndRoles(u: User)
    ensures var m := UpdateMessage(u);
      var head := "The user " + u.username + " is set to ";
      |head| <= |m| && m[..|head|] == head
    ensures var m := UpdateMessage(u);
      var roles := RolesText(u.roles);
      |roles| <= |m| && CaseFoldEq(m[|m| - |roles|..], Join(u.roles, ", "))
  {
    var head := "The user " + u.username + " is set to ";
    var lead := head + ActiveText(u.active) + " " + RolesLeadIn(|u.roles|) + " ";
    var roles := RolesText(u.roles);
    assert UpdateMessage(u) == lead + roles;
    assert lead[..|head|] == head;
    assert (lead + roles)[..|lead|] == lead;
    assert (lead + roles)[|lead|..] == roles;
  }

  /** A single role is named after "the role of", capitalized. */
  lemma UpdateMessageSingleRole(u: User)
    requires |u.roles| == 1
    ensures UpdateMessage(u) == "The user " + u.username + " is set to " + ActiveText(u.active)
      + " " + "and has taken up the role of" + " " + Capitalize(u.roles[0])
  {
    assert RolesLeadIn(|u.roles|) == "and has taken up the role of";
  }

  /** The saved user: name, roles and flag overwritten; the password hash
      replaced only when a password is given. */
  function Updated(u: User, c: Oracles, salt: nat, username: string, roles: seq<string>, active: bool, password: string): (v: User)
    ensures v.id == u.id && v.username == username && v.roles == roles && v.active == active
    ensures password == "" ==> v.password == u.password
    ensures password != "" ==> v.password == c.hashPassword(password, SaltRounds, salt)
  {
    u.(username := username, roles := roles, active := active,
       password := if password != "" then c.hashPassword(password, SaltRounds, salt) else u.password)
  }

  /** PATCH /users with body `{ id, username, roles, active, password }`. */
  function UpdateUser(db: Db, c: Oracles, salt: nat, id: Id, username: string,
                      roles: JsValue, active: JsValue, password: string): (r: Step)
    ensures r.response.Reply? && r.response.cookies == [] && r.response.status in {200, 400, 409}
    ensures !ValidUpdate(id, username, roles, active) ==>
      r == Step(Reply(400, UserReply("all fields are required", NoUserFields), []), db)
    ensures ValidUpdate(id, username, roles, active) && UserIndexById(db.users, id).None? ==>
      r == Step(Reply(400, Message("user not found"), []), db)
    ensures r.response.status == 409 <==>
      ValidUpdate(id, username, roles, active) && UserIndexById(db.users, id).Some? && ClashesWithOther(db.users, id, username)
    ensures r.response.status == 409 ==>
      r == Step(Reply(409, UserReply("The username " + username + "' is already registered under a different user.", NoUserFields), []), db)
    ensures r.response.status == 200 <==>
      ValidUpdate(id, username, roles, active) && UserIndexById(db.users, id).Some? && !ClashesWithOther(db.users, id, username)
    ensures r.response.status == 200 ==>
      var i := UserIndexById(db.users, id).value;
      var v := Updated(db.users[i], c, salt, username, roles.items, active.b, password);
      && r.db == db.(users := db.users[i := v])
      && r.response.body == UserReply(UpdateMessage(v), NameActiveRoles(username, active.b, roles.items))
  {
    if !ValidUpdate(id, username, roles, active) then
      Step(Reply(400, UserReply("all fields are required", NoUserFields), []), db)
    else
      match UserIndexById(db.users, id)
      case None => Step(Reply(400, Message("user not found"), []), db)
      case Some(i) =>
        if ClashesWithOther(db.users, id, username) then
          Step(Reply(409, UserReply("The username " + username + "' is already registered under a different user.", NoUserFields), []), db)
        else
          var v := Updated(db.users[i], c, salt, username, roles.items, active.b, password);
          Step(Reply(200, UserReply(UpdateMessage(v), NameActiveRoles(username, active.b, roles.items)), []),
               db.(users := db.users[i := v]))
  }

  /** With names unique up to case, a user may keep its own name (in any
      case), and may not take a name another user holds. */
  lemma UpdateUserNameRule(db: Db, c: Oracles, salt: nat, id: Id, username: string,
                           roles: JsValue, active: JsValue, password: string, j: nat)
    requires UniqueFoldedNames(db.users)
    requires ValidUpdate(id, username, roles, active) && UserIndexById(db.users, id).Some?
    requires j < |db.users| && CaseFoldEq(db.users[j].username, username)
    ensures UpdateUser(db, c, salt, id, username, roles, active, password).response.status == 409
      <==> db.users[j].id != id
  {
    FoldedNameLookupFindsOwner(db.users, j, username);
  }

  /** An update keeps the store well formed. */
  lemma UpdateUserPreservesWellFormed(db: Db, c: Oracles, salt: nat, id: Id, username: string,
                                      roles: JsValue, active: JsValue, password: string)
    requires WellFormed(db)
    ensures WellFormed(UpdateUser(db, c, salt, id, username, roles, active, password).db)
  {
    var r := UpdateUser(db, c, salt, id, username, roles, active, password);
    if r.response.status == 200 {
      var i := UserIndexById(db.users, id).value;
      var us := r.db.users;
      assert forall k :: 0 <= k < |us| ==> us[k].id == db.users[k].id;
      forall a, b | 0 <= a < b < |us|
        ensures !CaseFoldEq(us[a].username, us[b].username)
      {
        if a == i || b == i {
          var o := if a == i then b else a;
          if CaseFoldEq(us[o].username, username) {
            FoldedNameLookupFindsOwner(db.users, o, username);
          }
        }
      }
      forall k | 0 <= k < |r.db.notes|
        ensures HasUser(us, r.db.notes[k].user)
      {
        var w :| 0 <= w < |db.users| && db.users[w].id == db.notes[k].user;
        assert us[w].id == db.notes[k].user;
      }
    }
  }

  /** DELETE /users with body `{ id }`. */
  function DeleteUser(db: Db, id: Id): (r: Step)
    ensures r.response.Reply? && r.response.cookies == [] && r.response.status in {200, 400}
    ensures id == "" ==>
      r == Step(Reply(400, UserReply("please provide the required id", NoUserFields), []), db)
    // the note guard comes before the existence check
    ensures id != "" && HasNoteOf(db.notes, id) ==>
      r == Step(Reply(400, UserReply("User with id " + id + " has assigned notes to his name", NoUserFields), []), db)
    ensures id != "" && !HasNoteOf(db.notes, id) && UserIndexById(db.users, id).None? ==>
      r == Step(Reply(400, UserReply("User with id " + id + " could not be found", NoUserFields), []), db)
    ensures r.response.status == 200 <==>
      id != "" && !HasNoteOf(db.notes, id) && UserIndexById(db.users, id).Some?
    // exactly that user goes; nothing else changes
    ensures r.response.status == 200 ==>
      var i := UserIndexById(db.users, id).value;
      var u := db.users[i];
      && r.db == db.(users := RemoveAt(db.users, i))
      && r.response.body == UserReply("user " + u.username + " with id " + u.id + " deleted",
                                      IdNameActiveRoles(id, u.username, u.active, u.roles))
  {
    if id == "" then
      Step(Reply(400, UserReply("please provide the required id", NoUserFields), []), db)
    else if HasNoteOf(db.notes, id) then
      Step(Reply(400, UserReply("User with id " + id + " has assigned notes to his name", NoUserFields), []), db)
    else
      match UserIndexById(db.users, id)
      case None =>
        Step(Reply(400, UserReply("User with id " + id + " could not be found", NoUserFields), []), db)
      case Some(i) =>
        var u := db.users[i];
        Step(Reply(200, UserReply("user " + u.username + " with id " + u.id + " deleted",
                                  IdNameActiveRoles(id, u.username, u.active, u.roles)), []),
             db.(users := RemoveAt(db.users, i)))
  }

  /** A deletion keeps the store well formed (no note is left without its
      user), and after a successful one no user has that id. */
  lemma DeleteUserPreservesWellFormed(db: Db, id: Id)
    requires WellFormed(db)
    ensures WellFormed(DeleteUser(db, id).db)
    ensures DeleteUser(db, id).response.status == 200 ==> !HasUser(DeleteUser(db, id).db.users, id)
  {
    var r := DeleteUser(db, id);
    if r.response.status == 200 {
      var i := UserIndexById(db.users, id).value;
      var us := r.db.users;
      forall a, b | 0 <= a < b < |us|
        ensures us[a].id != us[b].id && !CaseFoldEq(us[a].username, us[b].username)
      {
        RemoveAtOrigin(db.users, i, a);
        RemoveAtOrigin(db.users, i, b);
      }
      forall k | 0 <= k < |r.db.notes|
        ensures HasUser(us, r.db.notes[k].user)
      {
        var w :| 0 <= w < |db.users| && db.users[w].id == db.notes[k].user;
        assert w != i;
        var w' := if w < i then w else w - 1;
        assert us[w'].id == db.notes[k].user;
      }
      if HasUser(us, id) {
        var w :| 0 <= w < |us| && us[w].id == id;
        RemoveAtOrigin(db.users, i, w);
        assert false;
      }
    }
  }
}
