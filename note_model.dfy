/** The `Note` collection: the record its schema stores, the constraints on
    each field, and the table that holds the records. */
module NoteModel {
  import opened JsString
  import opened UserModel

  type NoteId = nat

  /** A stored note. `owner` is the `user` reference; the two timestamps are the
      ones the schema's `timestamps` option maintains. */
  datatype Note = Note(owner: UserId, title: string, description: string, createdAt: int, updatedAt: int)

  /** What the schema demands before a save succeeds: a title that is non-empty
      once trimmed (and stored trimmed, so equal to its own trim by
      `TrimFixed`) and a non-empty description. */
  predicate NoteOk(n: Note) {
    n.title != "" && IsTrimmed(n.title) && n.description != ""
  }

  /** The collection's contents with the id the next insert receives. */
  datatype NoteStore = NoteStore(notes: map<NoteId, Note>, nextId: NoteId)

  ghost predicate NoteStoreOk(s: NoteStore) {
    forall id :: id in s.notes ==> id < s.nextId && NoteOk(s.notes[id])
  }

  /** The notes of one owner. */
  function OwnedBy(notes: map<NoteId, Note>, owner: UserId): (r: map<NoteId, Note>)
    ensures forall id :: id in r <==> id in notes && notes[id].owner == owner
    ensures forall id :: id in r ==> r[id] == notes[id]
  {
    map id | id in notes && notes[id].owner == owner :: notes[id]
  }

  /** The collection as mutable state. */
  class NoteTable {
    var notes: map<NoteId, Note>
    var nextId: NoteId

    function State(): NoteStore
      reads this
    {
      NoteStore(notes, nextId)
    }

    ghost predicate Valid()
      reads this
    {
      NoteStoreOk(State())
    }

    constructor ()
      ensures Valid() && notes == map[] && nextId == 0
    {
      notes := map[];
      nextId := 0;
    }
  }
}
