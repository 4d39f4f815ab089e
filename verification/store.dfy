/** The two collections the handlers read and write, as an immutable
    snapshot. Each collection is a sequence in the store's natural order, so
    that `findOne` is "the first document that matches". */
module Store {
  import opened Options
  import opened Text

  /** A document `_id`, in its string form. */
  type Id = string

  /** What `bcrypt.hash` produced; the model never looks inside it. */
  datatype Hash = Hash(digest: string)

  /** A document of the users collection. */
  datatype User = User(id: Id, username: string, password: Hash, roles: seq<string>, active: bool)

  /** A document of the notes collection (models/Note.js): the owner's id,
      title, text, the completion flag, and the ticket number the counter
      plugin assigned. */
  datatype Note = Note(id: Id, user: Id, title: string, text: string, completed: bool, ticket: nat)

  datatype Db = Db(users: seq<User>, notes: seq<Note>)

  /** The position of the first element satisfying `p`, if any. */
  function FirstIndex<T>(s: seq<T>, p: T -> bool): (r: Option<nat>)
    ensures r.Some? ==> r.value < |s| && p(s[r.value]) && forall j :: 0 <= j < r.value ==> !p(s[j])
    ensures r.None? ==> forall j :: 0 <= j < |s| ==> !p(s[j])
  {
    if |s| == 0 then None
    else if p(s[0]) then Some(0)
    else
      match FirstIndex(s[1..], p)
      case None => None
      case Some(k) => Some(k + 1)
  }

  /** `User.findById(id)` */
  function UserIndexById(users: seq<User>, id: Id): (r: Option<nat>)
    ensures r.Some? ==> r.value < |users| && users[r.value].id == id
    ensures r.Some? ==> forall j :: 0 <= j < r.value ==> users[j].id != id
    ensures r.None? ==> forall j :: 0 <= j < |users| ==> users[j].id != id
  {
    FirstIndex(users, (u: User) => u.id == id)
  }

  /** `User.findOne({ username })`: an exact, case-sensitive match. */
  function UserIndexByName(users: seq<User>, name: string): (r: Option<nat>)
    ensures r.Some? ==> r.value < |users| && users[r.value].username == name
    ensures r.Some? ==> forall j :: 0 <= j < r.value ==> users[j].username != name
    ensures r.None? ==> forall j :: 0 <= j < |users| ==> users[j].username != name
  {
    FirstIndex(users, (u: User) => u.username == name)
  }

  /** `User.findOne({ username }).collation(...)`: a case-insensitive match. */
  function UserIndexByFoldedName(users: seq<User>, name: string): (r: Option<nat>)
    ensures r.Some? ==> r.value < |users| && CaseFoldEq(users[r.value].username, name)
    ensures r.Some? ==> forall j :: 0 <= j < r.value ==> !CaseFoldEq(users[j].username, name)
    ensures r.None? ==> forall j :: 0 <= j < |users| ==> !CaseFoldEq(users[j].username, name)
  {
    FirstIndex(users, (u: User) => CaseFoldEq(u.username, name))
  }

  /** `Note.findById(id)` and `Notes.exists({ _id: id })` */
  function NoteIndexById(notes: seq<Note>, id: Id): (r: Option<nat>)
    ensures r.Some? ==> r.value < |notes| && notes[r.value].id == id
    ensures r.Some? ==> forall j :: 0 <= j < r.value ==> notes[j].id != id
    ensures r.None? ==> forall j :: 0 <= j < |notes| ==> notes[j].id != id
  {
    FirstIndex(notes, (n: Note) => n.id == id)
  }

  /** `Notes.findOne({ title }).collation(...)` for a string title. */
  function NoteIndexByFoldedTitle(notes: seq<Note>, title: string): (r: Option<nat>)
    ensures r.Some? ==> r.value < |notes| && CaseFoldEq(notes[r.value].title, title)
    ensures r.Some? ==> forall j :: 0 <= j < r.value ==> !CaseFoldEq(notes[j].title, title)
    ensures r.None? ==> forall j :: 0 <= j < |notes| ==> !CaseFoldEq(notes[j].title, title)
  {
    FirstIndex(notes, (n: Note) => CaseFoldEq(n.title, title))
  }

  /** `Note.exists({ user: id })`: some note is assigned to the user. */
  function HasNoteOf(notes: seq<Note>, id: Id): (b: bool)
    ensures b <==> exists k :: 0 <= k < |notes| && notes[k].user == id
  {
    var r := FirstIndex(notes, (n: Note) => n.user == id);
    assert r.Some? ==> notes[r.value].user == id;
    r.Some?
  }

  /** The sequence without its element at position `i`: what `deleteOne`
      leaves behind. */
  function RemoveAt<T>(s: seq<T>, i: nat): (r: seq<T>)
    requires i < |s|
    ensures |r| == |s| - 1
    ensures forall j :: 0 <= j < i ==> r[j] == s[j]
    ensures forall j :: i <= j < |r| ==> r[j] == s[j + 1]
  {
    s[..i] + s[i + 1..]
  }

  /** Every element of `RemoveAt(s, i)` was an element of `s` at a position
      other than `i`. */
  lemma RemoveAtOrigin<T>(s: seq<T>, i: nat, j: nat)
    requires i < |s| && j < |s| - 1
    ensures var k := if j < i then j else j + 1; k != i && k < |s| && RemoveAt(s, i)[j] == s[k]
  {
  }

  ghost predicate UniqueUserIds(users: seq<User>) {
    forall i, j :: 0 <= i < j < |users| ==> users[i].id != users[j].id
  }

  /** No two usernames differ only by case: what the duplicate checks of
      user creation and update are meant to maintain. */
  ghost predicate UniqueFoldedNames(users: seq<User>) {
    forall i, j :: 0 <= i < j < |users| ==> !CaseFoldEq(users[i].username, users[j].username)
  }

  ghost predicate UniqueNoteIds(notes: seq<Note>) {
    forall i, j :: 0 <= i < j < |notes| ==> notes[i].id != notes[j].id
  }

  /** No two note titles differ only by case. */
  ghost predicate UniqueFoldedTitles(notes: seq<Note>) {
    forall i, j :: 0 <= i < j < |notes| ==> !CaseFoldEq(notes[i].title, notes[j].title)
  }

  /** Some user has this id. */
  ghost predicate HasUser(users: seq<User>, id: Id) {
    exists i :: 0 <= i < |users| && users[i].id == id
  }

  /** Every note is assigned to an existing user: the referential integrity
      that the user-deletion guard protects. */
  ghost predicate NotesOwned(db: Db) {
    forall k :: 0 <= k < |db.notes| ==> HasUser(db.users, db.notes[k].user)
  }

  ghost predicate WellFormed(db: Db) {
    && UniqueUserIds(db.users)
    && UniqueFoldedNames(db.users)
    && UniqueNoteIds(db.notes)
    && UniqueFoldedTitles(db.notes)
    && NotesOwned(db)
  }

  /** With case-insensitively unique names, the case-insensitive lookup of a
      user's own name finds that very user. */
  lemma {:induction false} FoldedNameLookupFindsOwner(users: seq<User>, i: nat, name: string)
    requires UniqueFoldedNames(users)
    requires i < |users| && CaseFoldEq(users[i].username, name)
    ensures UserIndexByFoldedName(users, name) == Some(i)
  {
    var r := UserIndexByFoldedName(users, name);
    assert r.Some?;
    if r.value < i {
      assert CaseFoldEq(users[r.value].username, users[i].username);
    }
  }

  /** With case-insensitively unique titles, the case-insensitive lookup of a
      note's own title finds that very note. */
  lemma {:induction false} FoldedTitleLookupFindsOwner(notes: seq<Note>, i: nat, title: string)
    requires UniqueFoldedTitles(notes)
    requires i < |notes| && CaseFoldEq(notes[i].title, title)
    ensures NoteIndexByFoldedTitle(notes, title) == Some(i)
  {
    var r := NoteIndexByFoldedTitle(notes, title);
    assert r.Some?;
    if r.value < i {
      assert CaseFoldEq(notes[r.value].title, notes[i].title);
    }
  }
}
