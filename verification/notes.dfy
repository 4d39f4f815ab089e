/** The note handlers of controllers/notesController.js: list, create,
    update and delete notes. */
module Notes {
  import opened Options
  import opened Js
  import opened Text
  import opened Store
  import opened Http

  /** What reading the undeclared `duplicate` raises. */
  const DuplicateError := ReferenceError("duplicate")

  /** The title lookup `Notes.findOne({ title })` / `Notes.exists({ title })`
      with the collation; a title that is not a string matches no note. */
  function TitleMatch(notes: seq<Note>, title: JsValue): (r: Option<nat>)
    ensures r.Some? ==> title.Str? && r.value < |notes| && CaseFoldEq(notes[r.value].title, title.s)
    ensures r.Some? ==> forall j :: 0 <= j < r.value ==> !CaseFoldEq(notes[j].title, title.s)
    ensures r.None? && title.Str? ==> forall k :: 0 <= k < |notes| ==> !CaseFoldEq(notes[k].title, title.s)
  {
    if title.Str? then NoteIndexByFoldedTitle(notes, title.s) else None
  }

  /** "note" for a single note, "notes" for more. */
  function NoteWord(count: nat): (w: string)
    ensures w == "notes" <==> count > 1
    ensures w == "note" <==> count <= 1
  {
    if count > 1 then "notes" else "note"
  }

  /** GET /notes */
  function GetAllNotes(db: Db): (r: Response)
    ensures r.Reply? && r.status == 200 && r.cookies == []
    ensures |db.notes| == 0 <==> r.body == NotesReply("No notes in the current list", NoteList([]))
    ensures |db.notes| > 0 ==>
      r.body == NotesReply("The list consist of " + NatToString(|db.notes|) + " " + NoteWord(|db.notes|) + " ",
                           NoteList(db.notes))
  {
    if |db.notes| == 0 then Reply(200, NotesReply("No notes in the current list", NoteList([])), [])
    else
      Reply(200, NotesReply("The list consist of " + NatToString(|db.notes|) + " " + NoteWord(|db.notes|) + " ",
                            NoteList(db.notes)), [])
  }

  /** The count in the listing message is the number of notes listed. */
  lemma GetAllNotesCountIsListed(db: Db)
    requires |db.notes| > 0
    ensures GetAllNotes(db).body.notes == NoteList(db.notes)
    ensures var count := NatToString(|db.notes|);
      && GetAllNotes(db).body.message == "The list consist of " + count + " " + NoteWord(|db.notes|) + " "
      && DecimalValue(count) == |GetAllNotes(db).body.notes.items|
  {
    NatToStringRoundTrip(|db.notes|);
  }

  /** The fields `createNewNote` insists on. */
  predicate ValidNewNote(user: JsValue, title: JsValue, text: JsValue) {
    IsNonEmptyString(user) && IsNonEmptyString(text) && IsNonEmptyString(title)
  }

  /** `createNewNote` once the title check has let the request through. */
  function CreateAfterTitleCheck(db: Db, freshId: Id, ticket: nat, user: JsValue, title: JsValue, text: JsValue): (r: Step)
    ensures r.response.Reply? && r.response.cookies == [] && r.response.status in {200, 400}
    ensures !ValidNewNote(user, title, text) ==>
      r == Step(Reply(400, NotesReply("Provide a title, text and userId to create a note", NoNoteFields), []), db)
    ensures ValidNewNote(user, title, text) && UserIndexById(db.users, user.s).None? ==>
      r == Step(Reply(400, NotesReply("The provide userId " + user.s + " doesn't corespond with a user", NoNoteFields), []), db)
    ensures r.response.status == 200 <==>
      ValidNewNote(user, title, text) && UserIndexById(db.users, user.s).Some?
      && db.users[UserIndexById(db.users, user.s).value].active
    ensures ValidNewNote(user, title, text) && UserIndexById(db.users, user.s).Some? ==>
      var u := db.users[UserIndexById(db.users, user.s).value];
      if u.active then
        var n := Note(freshId, user.s, title.s, text.s, false, ticket);
        // a new note is never completed
        r == Step(Reply(200, NotesReply("The notes with title " + title.s + " is succesfully created and assigned to " + u.username,
                                        OneNote(n)), []),
                  db.(notes := db.notes + [n]))
      else
        r == Step(Reply(400, NotesReply("The user " + u.username + " with id: " + user.s + " is currently not active",
                                        NoNoteFields), []), db)
  {
    if !ValidNewNote(user, title, text) then
      Step(Reply(400, NotesReply("Provide a title, text and userId to create a note", NoNoteFields), []), db)
    else
      match UserIndexById(db.users, user.s)
      case None =>
        Step(Reply(400, NotesReply("The provide userId " + user.s + " doesn't corespond with a user", NoNoteFields), []), db)
      case Some(i) =>
        var u := db.users[i];
        if !u.active then
          Step(Reply(400, NotesReply("The user " + u.username + " with id: " + user.s + " is currently not active",
                                     NoNoteFields), []), db)
        else
          var n := Note(freshId, user.s, title.s, text.s, false, ticket);
          Step(Reply(200, NotesReply("The notes with title " + title.s + " is succesfully created and assigned to " + u.username,
                                     OneNote(n)), []),
               db.(notes := db.notes + [n]))
  }

  /** POST /notes with body `{ user, title, text }`, as written: the title
      lookup runs first, and when it finds a note the guard reads the
      undeclared `duplicate` and throws. The new document's id and ticket
      number are arguments. */
  function CreateNewNote(db: Db, freshId: Id, ticket: nat, user: JsValue, title: JsValue, text: JsValue): (r: Step)
    ensures r.response.Thrown? <==> TitleMatch(db.notes, title).Some?
    ensures r.response.Thrown? ==> r == Step(Thrown(DuplicateError), db)
    ensures !r.response.Thrown? ==> r == CreateAfterTitleCheck(db, freshId, ticket, user, title, text)
  {
    if TitleMatch(db.notes, title).Some? then Step(Thrown(DuplicateError), db)
    else CreateAfterTitleCheck(db, freshId, ticket, user, title, text)
  }

  /** POST /notes as evidently intended: a title already in use is refused
      with 409 and the store is left alone. */
  function CreateNewNoteIntended(db: Db, freshId: Id, ticket: nat, user: JsValue, title: JsValue, text: JsValue): (r: Step)
    ensures r.response.Reply?
    ensures TitleMatch(db.notes, title).Some? ==>
      r == Step(Reply(409, NotesReply("title already in use by another note", NoNoteFields), []), db)
    ensures TitleMatch(db.notes, title).None? ==> r == CreateAfterTitleCheck(db, freshId, ticket, user, title, text)
    ensures r.response.status == 200 ==>
      title.Str? && forall k :: 0 <= k < |db.notes| ==> !CaseFoldEq(db.notes[k].title, title.s)
  {
    if TitleMatch(db.notes, title).Some? then
      Step(Reply(409, NotesReply("title already in use by another note", NoNoteFields), []), db)
    else CreateAfterTitleCheck(db, freshId, ticket, user, title, text)
  }

  /** Creating a note with a fresh id keeps the store well formed: the new
      note's owner exists and its title is new up to case. */
  lemma CreateNewNotePreservesWellFormed(db: Db, freshId: Id, ticket: nat, user: JsValue, title: JsValue, text: JsValue)
    requires WellFormed(db)
    requires forall k :: 0 <= k < |db.notes| ==> db.notes[k].id != freshId
    ensures WellFormed(CreateNewNote(db, freshId, ticket, user, title, text).db)
  {
    var r := CreateNewNote(db, freshId, ticket, user, title, text);
    if r.response.Reply? && r.response.status == 200 {
      var ns := r.db.notes;
      var i := UserIndexById(db.users, user.s).value;
      assert ns[|ns| - 1].user == db.users[i].id;
      assert forall k :: 0 <= k < |db.notes| ==> ns[k] == db.notes[k];
    }
  }

  /** The corrected creation keeps the store well formed too: it refuses
      every title the as-written handler throws on, and otherwise does the
      same. */
  lemma CreateNewNoteIntendedPreservesWellFormed(db: Db, freshId: Id, ticket: nat, user: JsValue, title: JsValue, text: JsValue)
    requires WellFormed(db)
    requires forall k :: 0 <= k < |db.notes| ==> db.notes[k].id != freshId
    ensures WellFormed(CreateNewNoteIntended(db, freshId, ticket, user, title, text).db)
  {
    CreateNewNotePreservesWellFormed(db, freshId, ticket, user, title, text);
  }

  /** The stored note after an update: title and text change only to a
      non-empty string, the flag only to a boolean; the owner is always
      replaced; id and ticket stay. */
  function Merged(n: Note, user: Id, title: JsValue, text: JsValue, completed: JsValue): (m: Note)
    ensures m.id == n.id && m.ticket == n.ticket && m.user == user
    ensures m.title == (if IsNonEmptyString(title) then title.s else n.title)
    ensures m.text == (if IsNonEmptyString(text) then text.s else n.text)
    ensures m.completed == (if IsBoolean(completed) then completed.b else n.completed)
  {
    Note(n.id, user,
         if IsNonEmptyString(title) then title.s else n.title,
         if IsNonEmptyString(text) then text.s else n.text,
         if IsBoolean(completed) then completed.b else n.completed,
         n.ticket)
  }

  /** Merging the same update again changes nothing more, and an update
      that supplies no usable field only reassigns the owner. */
  lemma MergedIdempotent(n: Note, user: Id, title: JsValue, text: JsValue, completed: JsValue)
    ensures Merged(Merged(n, user, title, text, completed), user, title, text, completed)
         == Merged(n, user, title, text, completed)
    ensures !IsNonEmptyString(title) && !IsNonEmptyString(text) && !IsBoolean(completed) ==>
      Merged(n, user, title, text, completed) == n.(user := user)
  {
  }

  /** `updateNote` once the note (at position `i`) and the owner are known
      and the title check has let the request through. */
  function UpdateAfterTitleCheck(db: Db, i: nat, user: Id, title: JsValue, text: JsValue, completed: JsValue): (r: Step)
    requires i < |db.notes|
    ensures r.response.Reply? && r.response.status == 200 && r.response.cookies == []
    ensures var m := Merged(db.notes[i], user, title, text, completed);
      && r.db == db.(notes := db.notes[i := m])
      && r.response.body == NotesReply("Succesfully update Note with ticket number " + NatToString(m.ticket), OneNote(m))
  {
    var m := Merged(db.notes[i], user, title, text, completed);
    Step(Reply(200, NotesReply("Succesfully update Note with ticket number " + NatToString(m.ticket), OneNote(m)), []),
         db.(notes := db.notes[i := m]))
  }

  /** The checks `updateNote` makes before the title check; `None` when the
      request passes them. */
  function UpdatePrecheck(db: Db, id: JsValue, user: JsValue): (r: Option<Step>)
    ensures r.Some? ==>
      && r.value.db == db && r.value.response.Reply? && r.value.response.status == 400
      && r.value.response.cookies == []
    // the checks run in this order, each with its own message
    ensures !(IsNonEmptyString(id) && IsNonEmptyString(user)) ==>
      r == Some(Step(Reply(400, NotesReply("ticket-id and userId are required to update a note", NoNoteFields), []), db))
    ensures IsNonEmptyString(id) && IsNonEmptyString(user) && NoteIndexById(db.notes, id.s).None? ==>
      r == Some(Step(Reply(400, NotesReply("Provided id " + id.s + " does not refer to a note in the database", NoNoteFields), []), db))
    ensures (IsNonEmptyString(id) && IsNonEmptyString(user) && NoteIndexById(db.notes, id.s).Some?
             && UserIndexById(db.users, user.s).None?) ==>
      r == Some(Step(Reply(400, NotesReply("The provide userid " + user.s + " doesnt refer to a existing User", NoNoteFields), []), db))
    ensures r.None? <==>
      IsNonEmptyString(id) && IsNonEmptyString(user)
      && NoteIndexById(db.notes, id.s).Some? && UserIndexById(db.users, user.s).Some?
  {
    if !(IsNonEmptyString(id) && IsNonEmptyString(user)) then
      Some(Step(Reply(400, NotesReply("ticket-id and userId are required to update a note", NoNoteFields), []), db))
    else if NoteIndexById(db.notes, id.s).None? then
      Some(Step(Reply(400, NotesReply("Provided id " + id.s + " does not refer to a note in the database", NoNoteFields), []), db))
    else if UserIndexById(db.users, user.s).None? then
      Some(Step(Reply(400, NotesReply("The provide userid " + user.s + " doesnt refer to a existing User", NoNoteFields), []), db))
    else None
  }

  /** PATCH /notes with body `{ id, user, title, text, completed }`, as
      written: any note whose title matches the supplied one, the note being
      updated included, makes the guard read the undeclared `duplicate` and
      throw. */
  function UpdateNote(db: Db, id: JsValue, user: JsValue, title: JsValue, text: JsValue, completed: JsValue): (r: Step)
    ensures UpdatePrecheck(db, id, user).Some? ==> r == UpdatePrecheck(db, id, user).value
    ensures r.response.Thrown? <==> UpdatePrecheck(db, id, user).None? && TitleMatch(db.notes, title).Some?
    ensures r.response.Thrown? ==> r == Step(Thrown(DuplicateError), db)
    ensures UpdatePrecheck(db, id, user).None? && TitleMatch(db.notes, title).None? ==>
      r == UpdateAfterTitleCheck(db, NoteIndexById(db.notes, id.s).value, user.s, title, text, completed)
    ensures r.response.Reply? && r.response.status == 200 ==>
      UpdatePrecheck(db, id, user).None? && TitleMatch(db.notes, title).None?
  {
    match UpdatePrecheck(db, id, user)
    case Some(refusal) => refusal
    case None =>
      if TitleMatch(db.notes, title).Some? then Step(Thrown(DuplicateError), db)
      else UpdateAfterTitleCheck(db, NoteIndexById(db.notes, id.s).value, user.s, title, text, completed)
  }

  /** Re-sending a note's own title makes the as-written update throw. */
  lemma UpdateNoteOwnTitleThrows(db: Db, id: JsValue, user: JsValue, text: JsValue, completed: JsValue)
    requires UpdatePrecheck(db, id, user).None?
    ensures var n := db.notes[NoteIndexById(db.notes, id.s).value];
      UpdateNote(db, id, user, Str(n.title), text, completed) == Step(Thrown(DuplicateError), db)
  {
    var i := NoteIndexById(db.notes, id.s).value;
    assert CaseFoldEq(db.notes[i].title, db.notes[i].title);
  }

  /** PATCH /notes as evidently intended: a title held by a different note
      is refused with 409; the note's own title is allowed. */
  function UpdateNoteIntended(db: Db, id: JsValue, user: JsValue, title: JsValue, text: JsValue, completed: JsValue): (r: Step)
    ensures r.response.Reply?
    ensures UpdatePrecheck(db, id, user).Some? ==> r == UpdatePrecheck(db, id, user).value
    ensures r.response.status == 409 <==>
      UpdatePrecheck(db, id, user).None? && TitleMatch(db.notes, title).Some?
      && db.notes[TitleMatch(db.notes, title).value].id != id.s
    ensures r.response.status == 409 ==>
      r == Step(Reply(409, NotesReply("title already in use by another note", NoNoteFields), []), db)
    ensures (UpdatePrecheck(db, id, user).None?
             && (TitleMatch(db.notes, title).None? || db.notes[TitleMatch(db.notes, title).value].id == id.s)) ==>
      r == UpdateAfterTitleCheck(db, NoteIndexById(db.notes, id.s).value, user.s, title, text, completed)
  {
    match UpdatePrecheck(db, id, user)
    case Some(refusal) => refusal
    case None =>
      match TitleMatch(db.notes, title)
      case Some(d) =>
        if db.notes[d].id != id.s then
          Step(Reply(409, NotesReply("title already in use by another note", NoNoteFields), []), db)
        else UpdateAfterTitleCheck(db, NoteIndexById(db.notes, id.s).value, user.s, title, text, completed)
      case None => UpdateAfterTitleCheck(db, NoteIndexById(db.notes, id.s).value, user.s, title, text, completed)
  }

  /** With ids and titles unique, the intended update accepts a note's own
      title (in any case) and stores it. */
  lemma UpdateNoteIntendedKeepsOwnTitle(db: Db, id: JsValue, user: JsValue, t: string, text: JsValue, completed: JsValue)
    requires UniqueNoteIds(db.notes) && UniqueFoldedTitles(db.notes)
    requires UpdatePrecheck(db, id, user).None?
    requires CaseFoldEq(db.notes[NoteIndexById(db.notes, id.s).value].title, t)
    ensures var r := UpdateNoteIntended(db, id, user, Str(t), text, completed);
      && r.response.status == 200
      && r.db.notes[NoteIndexById(db.notes, id.s).value].title == (if t != "" then t else db.notes[NoteIndexById(db.notes, id.s).value].title)
  {
    var i := NoteIndexById(db.notes, id.s).value;
    FoldedTitleLookupFindsOwner(db.notes, i, t);
  }

  /** Every title stored after an update is either the note's old title or
      one that no note held before. */
  lemma {:induction false} TitlesAfterMerge(db: Db, i: nat, m: Note, j: nat, k: nat)
    requires UniqueFoldedTitles(db.notes)
    requires i < |db.notes| && j < k < |db.notes|
    requires m.title == db.notes[i].title || forall q :: 0 <= q < |db.notes| && q != i ==> !CaseFoldEq(db.notes[q].title, m.title)
    ensures !CaseFoldEq(db.notes[i := m][j].title, db.notes[i := m][k].title)
  {
  }

  /** An as-written update keeps the store well formed: the owner exists,
      and a supplied title that matched any note made it throw. */
  lemma UpdateNotePreservesWellFormed(db: Db, id: JsValue, user: JsValue, title: JsValue, text: JsValue, completed: JsValue)
    requires WellFormed(db)
    ensures WellFormed(UpdateNote(db, id, user, title, text, completed).db)
  {
    var r := UpdateNote(db, id, user, title, text, completed);
    if r.response.Reply? && r.response.status == 200 {
      var i := NoteIndexById(db.notes, id.s).value;
      var m := Merged(db.notes[i], user.s, title, text, completed);
      var ns := r.db.notes;
      assert ns == db.notes[i := m];
      var o := UserIndexById(db.users, user.s).value;
      assert HasUser(db.users, m.user) by { assert db.users[o].id == m.user; }
      forall j, k | 0 <= j < k < |ns|
        ensures !CaseFoldEq(ns[j].title, ns[k].title)
      {
        TitlesAfterMerge(db, i, m, j, k);
      }
    }
  }

  /** An intended update keeps the store well formed too. */
  lemma UpdateNoteIntendedPreservesWellFormed(db: Db, id: JsValue, user: JsValue, title: JsValue, text: JsValue, completed: JsValue)
    requires WellFormed(db)
    ensures WellFormed(UpdateNoteIntended(db, id, user, title, text, completed).db)
  {
    var r := UpdateNoteIntended(db, id, user, title, text, completed);
    if r.response.status == 200 {
      var i := NoteIndexById(db.notes, id.s).value;
      var m := Merged(db.notes[i], user.s, title, text, completed);
      assert r.db.notes == db.notes[i := m];
      var o := UserIndexById(db.users, user.s).value;
      assert HasUser(db.users, m.user) by { assert db.users[o].id == m.user; }
      if m.title != db.notes[i].title && TitleMatch(db.notes, title).Some? {
        var d := TitleMatch(db.notes, title).value;
        assert db.notes[d].id == id.s;
        assert d == i;
        forall q | 0 <= q < |db.notes| && q != i
          ensures !CaseFoldEq(db.notes[q].title, m.title)
        {
          if q < i {
            assert !CaseFoldEq(db.notes[q].title, db.notes[i].title);
          } else {
            assert !CaseFoldEq(db.notes[i].title, db.notes[q].title);
          }
        }
      }
      forall j, k | 0 <= j < k < |r.db.notes|
        ensures !CaseFoldEq(r.db.notes[j].title, r.db.notes[k].title)
      {
        TitlesAfterMerge(db, i, m, j, k);
      }
    }
  }

  /** DELETE /notes with body `{ id }`. */
  function DeleteNote(db: Db, id: JsValue): (r: Step)
    ensures r.response.Reply? && r.response.cookies == [] && r.response.status in {200, 400}
    ensures !IsNonEmptyString(id) ==>
      r == Step(Reply(400, NotesReply("The id needed to delete a note", NoNoteFields), []), db)
    ensures IsNonEmptyString(id) && NoteIndexById(db.notes, id.s).None? ==>
      r == Step(Reply(400, NotesReply("The provide id " + id.s + " doesnt refer to a existing note", NoNoteFields), []), db)
    ensures r.response.status == 200 <==> IsNonEmptyString(id) && NoteIndexById(db.notes, id.s).Some?
    // exactly that note goes, and the reply carries it
    ensures r.response.status == 200 ==>
      var i := NoteIndexById(db.notes, id.s).value;
      && r.db == db.(notes := RemoveAt(db.notes, i))
      && r.response.body == NotesReply("Note with id " + id.s + " was succesfully deleted", OneNote(db.notes[i]))
  {
    if !IsNonEmptyString(id) then
      Step(Reply(400, NotesReply("The id needed to delete a note", NoNoteFields), []), db)
    else
      match NoteIndexById(db.notes, id.s)
      case None =>
        Step(Reply(400, NotesReply("The provide id " + id.s + " doesnt refer to a existing note", NoNoteFields), []), db)
      case Some(i) =>
        Step(Reply(200, NotesReply("Note with id " + id.s + " was succesfully deleted", OneNote(db.notes[i])), []),
             db.(notes := RemoveAt(db.notes, i)))
  }

  /** A deletion keeps the store well formed, and after a successful one no
      note has that id. */
  lemma DeleteNotePreservesWellFormed(db: Db, id: JsValue)
    requires WellFormed(db)
    ensures WellFormed(DeleteNote(db, id).db)
    ensures DeleteNote(db, id).response.status == 200 ==>
      forall k :: 0 <= k < |DeleteNote(db, id).db.notes| ==> DeleteNote(db, id).db.notes[k].id != id.s
  {
    var r := DeleteNote(db, id);
    if r.response.status == 200 {
      var i := NoteIndexById(db.notes, id.s).value;
      var ns := r.db.notes;
      forall a, b | 0 <= a < b < |ns|
        ensures ns[a].id != ns[b].id && !CaseFoldEq(ns[a].title, ns[b].title)
      {
        RemoveAtOrigin(db.notes, i, a);
        RemoveAtOrigin(db.notes, i, b);
      }
      forall k | 0 <= k < |ns|
        ensures HasUser(r.db.users, ns[k].user) && ns[k].id != id.s
      {
        RemoveAtOrigin(db.notes, i, k);
      }
    }
  }
}
