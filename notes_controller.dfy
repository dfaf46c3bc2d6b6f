/** The note handlers. Each runs after the auth gate, so `caller` is the id of
    the user the gate attached (`req.user.id`); `now` is the clock the store's
    timestamps read. Every handler is given twice: as a function from the store
    before to the reply and the store after, and as the step-by-step method the
    handler is, proved to agree with it. */
module NotesController {
  import opened JsString
  import opened Constants
  import opened UserModel
  import opened NoteModel

  datatype Reply<T> = Success(status: int, value: T) | Failure(status: int, error: string)

  const NoNotesFound := "No notes found for this user"
  const NoteNotFound := "Note not found."
  const NotAuthorized := "Not authorized."
  const CreateFailed := "Failed to create note."
  const UpdateFailed := "Failed to update note."
  const NoteDeleted := "Note deleted successfully."

  // ---------------------------------------------------------------------
  // getNotes

  /** `getNotes` as written: the notes whose owner is the `userId` of the path,
      or 404 when there are none. The caller's own id plays no part. */
  function GetNotesSpec(notes: map<NoteId, Note>, caller: UserId, userId: UserId): (r: Reply<map<NoteId, Note>>)
    ensures r.Success? <==> exists id :: id in notes && notes[id].owner == userId
    ensures r.Success? ==> r.status == 200 && r.value == OwnedBy(notes, userId)
    ensures r.Failure? ==> r == Failure(404, NoNotesFound)
  {
    var found := OwnedBy(notes, userId);
    if found == map[] then
      Failure(404, NoNotesFound)
    else
      assert exists id :: id in found;
      Success(Code(Ok), found)
  }

  /** Any authenticated user can read any other user's notes. */
  lemma GetNotesIgnoresCaller()
    ensures var notes := map[0 := Note(1, "t", "d", 0, 0)];
            GetNotesSpec(notes, 2, 1) == Success(200, notes)
  {
    var notes := map[0 := Note(1, "t", "d", 0, 0)];
    var found := OwnedBy(notes, 1);
    assert 0 in found && found.Keys == notes.Keys;
    assert found == notes;
  }

  /** `getNotes` with the ownership check the rest of the API applies: a caller
      asking for someone else's notes is refused with 401. */
  function GetOwnNotesSpec(notes: map<NoteId, Note>, caller: UserId, userId: UserId): (r: Reply<map<NoteId, Note>>)
    ensures r.Success? ==> forall id :: id in r.value ==> id in notes && r.value[id] == notes[id] && r.value[id].owner == caller
    ensures userId == caller ==> r == GetNotesSpec(notes, caller, userId)
    ensures userId != caller ==> r == Failure(401, NotAuthorized)
  {
    if userId != caller then Failure(Code(Unauthorized), NotAuthorized)
    else GetNotesSpec(notes, caller, userId)
  }

  method GetNotes(table: NoteTable, caller: UserId, userId: UserId) returns (r: Reply<map<NoteId, Note>>)
    ensures r == GetNotesSpec(table.notes, caller, userId)
  {
    var found := map id | id in table.notes && table.notes[id].owner == userId :: table.notes[id];
    if |found| == 0 {
      return Failure(404, NoNotesFound);
    }
    r := Success(Code(Ok), found);
  }

  // ---------------------------------------------------------------------
  // createNote

  /** `createNote`: both fields must be truthy; the owner is the caller, never a
      value from the body; the title goes through the schema's `trim` setter and
      a title that trims to nothing fails the `required` validator on save. */
  function CreateSpec(s: NoteStore, caller: UserId, title: Option<string>, description: Option<string>, now: int)
    : (out: (Reply<(NoteId, Note)>, NoteStore))
    ensures !Truthy(title) || !Truthy(description) ==> out == (Failure(400, Text(RequiredFields)), s)
    ensures out.0.Failure? ==> out.1 == s
    ensures out.0.Success? <==> Truthy(title) && Truthy(description) && Trim(title.value) != ""
    ensures out.0.Success? ==>
      var (id, n) := out.0.value;
      && out.0.status == 201 && id == s.nextId && NoteOk(n)
      && n == Note(caller, Trim(title.value), description.value, now, now)
      && out.1 == NoteStore(s.notes[id := n], s.nextId + 1)
    ensures Truthy(title) && Truthy(description) && Trim(title.value) == "" ==>
      out == (Failure(500, CreateFailed), s)
    ensures NoteStoreOk(s) ==> NoteStoreOk(out.1)
  {
    if !Truthy(title) || !Truthy(description) then
      (Failure(Code(BadRequest), Text(RequiredFields)), s)
    else
      var n := Note(caller, Trim(title.value), description.value, now, now);
      if !NoteOk(n) then
        (Failure(Code(ServerError), CreateFailed), s)
      else
        (Success(Code(Created), (s.nextId, n)), NoteStore(s.notes[s.nextId := n], s.nextId + 1))
  }

  method CreateNote(table: NoteTable, caller: UserId, title: Option<string>, description: Option<string>, now: int)
    returns (r: Reply<(NoteId, Note)>)
    modifies table
    ensures (r, table.State()) == CreateSpec(old(table.State()), caller, title, description, now)
  {
    if !Truthy(title) || !Truthy(description) {
      return Failure(Code(BadRequest), Text(RequiredFields));
    }
    var note := Note(caller, Trim(title.value), description.value, now, now);
    // save(): the validators run first
    if !NoteOk(note) {
      return Failure(Code(ServerError), CreateFailed);
    }
    var id := table.nextId;
    table.notes := table.notes[id := note];
    table.nextId := table.nextId + 1;
    r := Success(Code(Created), (id, note));
  }

  // ---------------------------------------------------------------------
  // updateNote

  /** `note.title = title || note.title; note.description = description || note.description`:
      a field is replaced only by a truthy value, the title through `trim`. */
  function Edit(n: Note, title: Option<string>, description: Option<string>): (r: Note)
    ensures r.owner == n.owner && r.createdAt == n.createdAt && r.updatedAt == n.updatedAt
    ensures r.title == if Truthy(title) then Trim(title.value) else n.title
    ensures r.description == if Truthy(description) then description.value else n.description
    ensures NoteOk(n) ==> (NoteOk(r) <==> !Truthy(title) || Trim(title.value) != "")
  {
    n.(title := if Truthy(title) then Trim(title.value) else n.title,
       description := if Truthy(description) then description.value else n.description)
  }

  /** The timestamps hook on save: `updatedAt` moves only when a path changed. */
  function Touch(before: Note, after: Note, now: int): (r: Note)
    ensures r.owner == after.owner && r.title == after.title && r.description == after.description
    ensures r.createdAt == after.createdAt
    ensures r.updatedAt == if after == before then before.updatedAt else now
  {
    if after == before then after else after.(updatedAt := now)
  }

  /** `updateNote`: find, check the owner, edit, save. */
  function UpdateSpec(s: NoteStore, caller: UserId, id: NoteId, title: Option<string>, description: Option<string>, now: int)
    : (out: (Reply<(NoteId, Note)>, NoteStore))
    ensures id !in s.notes ==> out == (Failure(400, NoteNotFound), s)
    ensures id in s.notes && s.notes[id].owner != caller ==> out == (Failure(401, NotAuthorized), s)
    ensures out.0.Failure? ==> out.1 == s
    ensures out.0.Success? ==>
      var n := out.0.value.1;
      && id in s.notes && s.notes[id].owner == caller
      && out.0.status == 200 && out.0.value.0 == id
      && n.owner == s.notes[id].owner && n.createdAt == s.notes[id].createdAt
      && n.title == (if Truthy(title) then Trim(title.value) else s.notes[id].title)
      && n.description == (if Truthy(description) then description.value else s.notes[id].description)
      && n.updatedAt == (if n.title == s.notes[id].title && n.description == s.notes[id].description
                         then s.notes[id].updatedAt else now)
      && out.1 == NoteStore(s.notes[id := n], s.nextId)
    ensures id in s.notes && s.notes[id].owner == caller ==>
      (out.0.Success? <==> NoteOk(Edit(s.notes[id], title, description)))
    ensures out.0.Failure? && out.0.status == 500 ==> out == (Failure(500, UpdateFailed), s)
    ensures NoteStoreOk(s) ==>
      (out.0.Success? <==> id in s.notes && s.notes[id].owner == caller && (!Truthy(title) || Trim(title.value) != ""))
    ensures NoteStoreOk(s) ==> NoteStoreOk(out.1)
  {
    if id !in s.notes then
      (Failure(Code(BadRequest), NoteNotFound), s)
    else if s.notes[id].owner != caller then
      (Failure(Code(Unauthorized), NotAuthorized), s)
    else
      var edited := Edit(s.notes[id], title, description);
      if !NoteOk(edited) then
        (Failure(Code(ServerError), UpdateFailed), s)
      else
        var n := Touch(s.notes[id], edited, now);
        (Success(Code(Ok), (id, n)), NoteStore(s.notes[id := n], s.nextId))
  }

  method UpdateNote(table: NoteTable, caller: UserId, id: NoteId, title: Option<string>, description: Option<string>, now: int)
    returns (r: Reply<(NoteId, Note)>)
    modifies table
    ensures (r, table.State()) == UpdateSpec(old(table.State()), caller, id, title, description, now)
  {
    if id !in table.notes {
      return Failure(Code(BadRequest), NoteNotFound);
    }
    var note := table.notes[id];
    if note.owner != caller {
      return Failure(Code(Unauthorized), NotAuthorized);
    }
    var before := note;
    if Truthy(title) {
      note := note.(title := Trim(title.value));
    }
    if Truthy(description) {
      note := note.(description := description.value);
    }
    // save(): validators, then the timestamps hook, then the write
    if !NoteOk(note) {
      return Failure(Code(ServerError), UpdateFailed);
    }
    if note != before {
      note := note.(updatedAt := now);
    }
    table.notes := table.notes[id := note];
    r := Success(Code(Ok), (id, note));
  }

  // ---------------------------------------------------------------------
  // deleteNote

  /** `deleteNote`: find, check the owner, remove. */
  function DeleteSpec(s: NoteStore, caller: UserId, id: NoteId): (out: (Reply<string>, NoteStore))
    ensures id !in s.notes ==> out == (Failure(400, NoteNotFound), s)
    ensures id in s.notes && s.notes[id].owner != caller ==> out == (Failure(401, NotAuthorized), s)
    ensures out.0.Failure? ==> out.1 == s
    ensures out.0.Success? ==>
      && id in s.notes && s.notes[id].owner == caller && out.0 == Success(200, NoteDeleted)
      && out.1.nextId == s.nextId && out.1.notes.Keys == s.notes.Keys - {id}
      && forall k :: k in out.1.notes ==> out.1.notes[k] == s.notes[k]
    ensures NoteStoreOk(s) ==> NoteStoreOk(out.1)
  {
    if id !in s.notes then
      (Failure(Code(BadRequest), NoteNotFound), s)
    else if s.notes[id].owner != caller then
      (Failure(Code(Unauthorized), NotAuthorized), s)
    else
      (Success(Code(Ok), NoteDeleted), NoteStore(s.notes - {id}, s.nextId))
  }

  method DeleteNote(table: NoteTable, caller: UserId, id: NoteId) returns (r: Reply<string>)
    modifies table
    ensures (r, table.State()) == DeleteSpec(old(table.State()), caller, id)
  {
    if id !in table.notes {
      return Failure(Code(BadRequest), NoteNotFound);
    }
    var note := table.notes[id];
    if note.owner != caller {
      return Failure(Code(Unauthorized), NotAuthorized);
    }
    table.notes := table.notes - {id};
    r := Success(Code(Ok), NoteDeleted);
  }

  // ---------------------------------------------------------------------
  // Sequences of requests

  /** A mutating request that passed the auth gate as `caller`. */
  datatype Request =
    | CreateRequest(caller: UserId, title: Option<string>, description: Option<string>, now: int)
    | UpdateRequest(caller: UserId, id: NoteId, title: Option<string>, description: Option<string>, now: int)
    | DeleteRequest(caller: UserId, id: NoteId)

  function Step(s: NoteStore, q: Request): NoteStore {
    match q
    case CreateRequest(c, t, d, now) => CreateSpec(s, c, t, d, now).1
    case UpdateRequest(c, id, t, d, now) => UpdateSpec(s, c, id, t, d, now).1
    case DeleteRequest(c, id) => DeleteSpec(s, c, id).1
  }

  /** One request by someone else leaves `u`'s note where it was, unchanged. */
  lemma StepKeepsOthers(s: NoteStore, q: Request, u: UserId, id: NoteId)
    requires NoteStoreOk(s) && q.caller != u
    requires id in s.notes && s.notes[id].owner == u
    ensures NoteStoreOk(Step(s, q))
    ensures id in Step(s, q).notes && Step(s, q).notes[id] == s.notes[id]
  {
    match q
    case CreateRequest(c, t, d, now) =>
    case UpdateRequest(c, i, t, d, now) =>
    case DeleteRequest(c, i) =>
  }

  /** One request keeps the owner of a note it does not remove, and never
      brings back an id below the counter. */
  lemma StepKeepsOwner(s: NoteStore, q: Request, id: NoteId)
    requires NoteStoreOk(s)
    ensures NoteStoreOk(Step(s, q))
    ensures id in s.notes && id in Step(s, q).notes ==> Step(s, q).notes[id].owner == s.notes[id].owner
    ensures id !in s.notes && id < s.nextId ==> id !in Step(s, q).notes && id < Step(s, q).nextId
    ensures id in s.notes ==> id < Step(s, q).nextId
  {
    match q
    case CreateRequest(c, t, d, now) =>
    case UpdateRequest(c, i, t, d, now) =>
    case DeleteRequest(c, i) =>
  }

  /** The store after the requests run one after the other. */
  function Run(s: NoteStore, qs: seq<Request>): NoteStore
    decreases |qs|
  {
    if qs == [] then s else Run(Step(s, qs[0]), qs[1..])
  }

  lemma {:induction false} RunKeepsStoreOk(s: NoteStore, qs: seq<Request>)
    requires NoteStoreOk(s)
    ensures NoteStoreOk(Run(s, qs))
    decreases |qs|
  {
    if qs != [] {
      RunKeepsStoreOk(Step(s, qs[0]), qs[1..]);
    }
  }

  /** A note owned by `u` survives, unchanged, any run of requests none of
      which `u` made. */
  lemma {:induction false} OthersCannotTouch(s: NoteStore, qs: seq<Request>, u: UserId, id: NoteId)
    requires NoteStoreOk(s)
    requires forall k :: 0 <= k < |qs| ==> qs[k].caller != u
    requires id in s.notes && s.notes[id].owner == u
    ensures id in Run(s, qs).notes && Run(s, qs).notes[id] == s.notes[id]
    decreases |qs|
  {
    if qs != [] {
      var t := Step(s, qs[0]);
      StepKeepsOthers(s, qs[0], u, id);
      OthersCannotTouch(t, qs[1..], u, id);
    }
  }

  /** No request ever changes the owner of a note that stays in the store. */
  lemma {:induction false} OwnerNeverChanges(s: NoteStore, qs: seq<Request>, id: NoteId)
    requires NoteStoreOk(s)
    requires id in s.notes && id in Run(s, qs).notes
    ensures Run(s, qs).notes[id].owner == s.notes[id].owner
    decreases |qs|
  {
    if qs != [] {
      var t := Step(s, qs[0]);
      StepKeepsOwner(s, qs[0], id);
      if id in t.notes {
        OwnerNeverChanges(t, qs[1..], id);
      } else {
        RunForgetsRemoved(t, qs[1..], id);
      }
    }
  }

  /** An id that has left the store never comes back: new notes get fresh ids. */
  lemma {:induction false} RunForgetsRemoved(s: NoteStore, qs: seq<Request>, id: NoteId)
    requires NoteStoreOk(s)
    requires id !in s.notes && id < s.nextId
    ensures id !in Run(s, qs).notes
    decreases |qs|
  {
    if qs != [] {
      var t := Step(s, qs[0]);
      StepKeepsOwner(s, qs[0], id);
      RunForgetsRemoved(t, qs[1..], id);
    }
  }
}
