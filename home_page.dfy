/** The notes page of the client: the search filter over the fetched notes,
    the draft the add/edit dialog holds with its 200-character cap, the
    emptiness check before saving, and the edit and delete actions. */
module HomePage {
  import opened JsString
  import opened NoteModel
  import opened NotesController

  /** A note as the page holds it after fetching. */
  datatype ClientNote = ClientNote(id: NoteId, title: string, description: string)

  // ---------------------------------------------------------------------
  // The search filter

  /** `note.title.toLowerCase().includes(searchQuery.toLowerCase())` */
  predicate Matches(n: ClientNote, q: string) {
    Includes(ToLower(n.title), ToLower(q))
  }

  /** The notes the page displays: `notes.filter(...)`. */
  function Search(notes: seq<ClientNote>, q: string): (r: seq<ClientNote>)
    ensures |r| <= |notes|
    ensures forall k :: 0 <= k < |r| ==> Matches(r[k], q)
  {
    if notes == [] then []
    else (if Matches(notes[0], q) then [notes[0]] else []) + Search(notes[1..], q)
  }

  /** A note is displayed exactly when it is in the list and its title
      contains the query, case aside. */
  lemma {:induction false} SearchMembers(notes: seq<ClientNote>, q: string, x: ClientNote)
    ensures x in Search(notes, q) <==> x in notes && Matches(x, q)
  {
    if notes != [] {
      SearchMembers(notes[1..], q, x);
      assert notes == [notes[0]] + notes[1..];
    }
  }

  /** An empty query shows every note. */
  lemma {:induction false} SearchEmptyQuery(notes: seq<ClientNote>)
    ensures Search(notes, "") == notes
  {
    if notes != [] {
      assert Matches(notes[0], "");
      SearchEmptyQuery(notes[1..]);
    }
  }

  /** Where the `i`-th displayed card sits in the full list. */
  function FilteredPosition(notes: seq<ClientNote>, q: string, i: nat): (pos: nat)
    requires i < |Search(notes, q)|
    ensures i <= pos < |notes|
    decreases |notes|
  {
    if Matches(notes[0], q) then
      if i == 0 then 0 else 1 + FilteredPosition(notes[1..], q, i - 1)
    else
      1 + FilteredPosition(notes[1..], q, i)
  }

  /** The `i`-th card shows the note at that position. */
  lemma {:induction false} FilteredPositionShows(notes: seq<ClientNote>, q: string, i: nat)
    requires i < |Search(notes, q)|
    ensures notes[FilteredPosition(notes, q, i)] == Search(notes, q)[i]
    decreases |notes|
  {
    var tail := notes[1..];
    if Matches(notes[0], q) {
      if i > 0 {
        assert Search(notes, q)[i] == Search(tail, q)[i - 1];
        FilteredPositionShows(tail, q, i - 1);
      }
    } else {
      FilteredPositionShows(tail, q, i);
    }
  }

  /** Cards appear in the order of the full list. */
  lemma {:induction false} FilteredPositionMonotone(notes: seq<ClientNote>, q: string, i: nat, j: nat)
    requires i < j < |Search(notes, q)|
    ensures FilteredPosition(notes, q, i) < FilteredPosition(notes, q, j)
    decreases |notes|
  {
    var rest := Search(notes[1..], q);
    var tail := notes[1..];
    if Matches(notes[0], q) {
      assert |Search(notes, q)| == 1 + |rest| by {
        assert Search(notes, q) == [notes[0]] + rest;
      }
      assert FilteredPosition(notes, q, j) == 1 + FilteredPosition(tail, q, j - 1);
      if i > 0 {
        assert FilteredPosition(notes, q, i) == 1 + FilteredPosition(tail, q, i - 1);
        FilteredPositionMonotone(tail, q, i - 1, j - 1);
      }
    } else {
      assert Search(notes, q) == rest;
      assert FilteredPosition(notes, q, i) == 1 + FilteredPosition(tail, q, i);
      assert FilteredPosition(notes, q, j) == 1 + FilteredPosition(tail, q, j);
      FilteredPositionMonotone(tail, q, i, j);
    }
  }

  // ---------------------------------------------------------------------
  // confirmDeleteNote: notes.filter((_, i) => i !== deleteDialog.index)

  /** The elements of `s` whose position, counted from `offset`, is not `index`. */
  function KeepOthers(s: seq<ClientNote>, index: Option<int>, offset: int): (r: seq<ClientNote>)
    ensures |r| == if index.Some? && offset <= index.value < offset + |s| then |s| - 1 else |s|
    decreases |s|
  {
    if s == [] then []
    else (if index == Some(offset) then [] else [s[0]]) + KeepOthers(s[1..], index, offset + 1)
  }

  function RemoveAt(notes: seq<ClientNote>, index: Option<int>): (r: seq<ClientNote>)
    ensures |r| == if index.Some? && 0 <= index.value < |notes| then |notes| - 1 else |notes|
  {
    KeepOthers(notes, index, 0)
  }

  lemma {:induction false} KeepOthersSlices(s: seq<ClientNote>, index: Option<int>, offset: int)
    ensures KeepOthers(s, index, offset) ==
      if index.Some? && offset <= index.value < offset + |s| then
        s[..index.value - offset] + s[index.value - offset + 1..]
      else s
    decreases |s|
  {
    if s != [] {
      KeepOthersSlices(s[1..], index, offset + 1);
      if index.Some? && offset < index.value < offset + |s| {
        var k := index.value - offset;
        assert [s[0]] + (s[1..][..k - 1] + s[1..][k..]) == s[..k] + s[k + 1..];
      } else if index != Some(offset) {
        assert [s[0]] + s[1..] == s;
      }
    }
  }

  /** The note at `index` goes and the rest keep their order; an index that is
      `null` or out of range removes nothing. */
  lemma RemoveAtSlices(notes: seq<ClientNote>, index: Option<int>)
    ensures index.Some? && 0 <= index.value < |notes| ==>
              RemoveAt(notes, index) == notes[..index.value] + notes[index.value + 1..]
              && |RemoveAt(notes, index)| == |notes| - 1
    ensures !(index.Some? && 0 <= index.value < |notes|) ==> RemoveAt(notes, index) == notes
  {
    KeepOthersSlices(notes, index, 0);
  }

  // ---------------------------------------------------------------------
  // The draft of the add/edit dialog

  /** `newNote`: `id` is the `_id` of a note loaded for editing. */
  datatype Draft = Draft(id: Option<NoteId>, title: string, description: string)

  const EmptyDraft := Draft(None, "", "")

  /** The two inputs of the dialog, by their `name` attribute. */
  datatype DraftField = TitleInput | DescriptionInput

  const DescriptionLimit := 200

  /** `handleNoteChange`: a description longer than the limit is dropped,
      anything else replaces the named field. */
  function NoteChange(d: Draft, f: DraftField, v: string): (r: Draft)
    ensures r.id == d.id
    ensures f == DescriptionInput && |v| > DescriptionLimit ==> r == d
    ensures f == TitleInput ==> r.title == v && r.description == d.description
    ensures f == DescriptionInput && |v| <= DescriptionLimit ==> r.description == v && r.title == d.title
  {
    match f
    case TitleInput => d.(title := v)
    case DescriptionInput => if |v| > DescriptionLimit then d else d.(description := v)
  }

  /** Typing never takes the description past the limit, whatever the
      keystrokes; the title has no limit. */
  lemma {:induction false} TypingKeepsCap(d: Draft, changes: seq<(DraftField, string)>)
    requires |d.description| <= DescriptionLimit
    ensures |Typed(d, changes).description| <= DescriptionLimit
    decreases |changes|
  {
    if changes != [] {
      TypingKeepsCap(NoteChange(d, changes[0].0, changes[0].1), changes[1..]);
    }
  }

  /** The draft after a run of input events. */
  function Typed(d: Draft, changes: seq<(DraftField, string)>): Draft
    decreases |changes|
  {
    if changes == [] then d else Typed(NoteChange(d, changes[0].0, changes[0].1), changes[1..])
  }

  /** A request the page sends to the note API. */
  datatype NoteRequest =
    | CreateCall(title: string, description: string)
    | UpdateCall(id: Option<NoteId>, title: string, description: string)
    | DeleteCall(target: NoteId)

  /** `saveNote` up to the request: nothing is sent while the title or the
      description is blank; otherwise an update when a note is being edited
      and a create when not. */
  function SaveRequest(d: Draft, editIndex: Option<int>): (r: Option<NoteRequest>)
    ensures r.Some? ==> (r.value.UpdateCall? <==> editIndex.Some?) && (r.value.UpdateCall? || r.value.CreateCall?)
    ensures r.Some? ==> r.value.title == d.title && r.value.description == d.description
    ensures r.Some? && r.value.UpdateCall? ==> r.value.id == d.id
  {
    if Trim(d.title) == "" || Trim(d.description) == "" then None
    else if editIndex.Some? then Some(UpdateCall(d.id, d.title, d.description))
    else Some(CreateCall(d.title, d.description))
  }

  /** The request is held back exactly when the title or the description is
      white space only. */
  lemma SaveRequestBlocked(d: Draft, editIndex: Option<int>)
    ensures SaveRequest(d, editIndex).None? <==> AllSpace(d.title) || AllSpace(d.description)
  {
  }

  /** Whatever `saveNote` sends as a create passes the server's checks, so the
      server stores it. */
  lemma SentCreateIsStored(d: Draft, s: NoteStore, caller: UserModel.UserId, now: int)
    requires SaveRequest(d, None).Some?
    ensures CreateSpec(s, caller, Some(d.title), Some(d.description), now).0.Success?
  {
    assert d.title != "" && d.description != "";
  }

  // ---------------------------------------------------------------------
  // Editing and deleting from the displayed list

  /** `setNewNote(notes[index])`: the card's note becomes the draft. */
  function DraftOf(n: ClientNote): Draft
  {
    Draft(Some(n.id), n.title, n.description)
  }

  /** A note loaded for editing and saved untouched is sent back as an update
      of that same note with its own title and description, unless one of them
      is white space only, in which case nothing is sent. */
  lemma LoadedNoteSavedUnchanged(n: ClientNote, index: int)
    ensures SaveRequest(DraftOf(n), Some(index)).Some? <==> !AllSpace(n.title) && !AllSpace(n.description)
    ensures SaveRequest(DraftOf(n), Some(index)).Some? ==>
      SaveRequest(DraftOf(n), Some(index)) == Some(UpdateCall(Some(n.id), n.title, n.description))
  {
    SaveRequestBlocked(DraftOf(n), Some(index));
  }

  /** `editNote(index)` reads `notes[index]` although `index` counts the
      displayed cards: with a query the wrong note is loaded. */
  lemma EditLoadsWrongNote()
    ensures var notes := [ClientNote(1, "a", "x"), ClientNote(2, "b", "y")];
            && Search(notes, "b") == [notes[1]]
            && DraftOf(notes[0]) != DraftOf(Search(notes, "b")[0])
  {
    var notes := [ClientNote(1, "a", "x"), ClientNote(2, "b", "y")];
    assert ToLower("b") == "b" && ToLower("a") == "a";
    assert !Matches(notes[0], "b") by {
      IncludesAt("a", "b");
    }
    assert Matches(notes[1], "b") by {
      assert "b" <= "b";
    }
    assert Search(notes[1..], "b") == [notes[1]] + Search(notes[2..], "b");
  }

  /** `confirmDeleteNote` removes `notes[index]` from the full list, while
      `requestDeleteNote` asked the server to delete the displayed card: the
      two lists part ways. */
  lemma DeleteRemovesWrongNote()
    ensures var notes := [ClientNote(1, "a", "x"), ClientNote(2, "b", "y")];
            && Search(notes, "b")[0].id == 2
            && RemoveAt(notes, Some(0)) == [ClientNote(2, "b", "y")]
  {
    EditLoadsWrongNote();
    var notes := [ClientNote(1, "a", "x"), ClientNote(2, "b", "y")];
    RemoveAtSlices(notes, Some(0));
  }

  /** The displayed card's position in the full list, for edit and delete. */
  function DisplayedPosition(notes: seq<ClientNote>, q: string, index: nat): (pos: Option<int>)
    ensures index < |Search(notes, q)| ==>
              pos.Some? && 0 <= pos.value < |notes| && notes[pos.value] == Search(notes, q)[index]
    ensures index >= |Search(notes, q)| ==> pos.None?
  {
    if index < |Search(notes, q)| then
      FilteredPositionShows(notes, q, index);
      Some(FilteredPosition(notes, q, index))
    else None
  }

  /** Deleting through the displayed position removes exactly the note the
      server was asked to delete, and nothing else. */
  lemma DisplayedDeleteRemovesThatNote(notes: seq<ClientNote>, q: string, index: nat)
    requires index < |Search(notes, q)|
    ensures var pos := DisplayedPosition(notes, q, index).value;
            && RemoveAt(notes, Some(pos)) == notes[..pos] + notes[pos + 1..]
            && multiset(RemoveAt(notes, Some(pos))) + multiset{Search(notes, q)[index]} == multiset(notes)
  {
    var pos := DisplayedPosition(notes, q, index).value;
    assert notes[pos] == Search(notes, q)[index];
    RemoveAtSlices(notes, Some(pos));
    SliceOutMultiset(notes, pos);
  }

  lemma SliceOutMultiset(s: seq<ClientNote>, pos: nat)
    requires pos < |s|
    ensures multiset(s[..pos] + s[pos + 1..]) + multiset{s[pos]} == multiset(s)
  {
    assert s[pos..] == [s[pos]] + s[pos + 1..];
    assert s == s[..pos] + s[pos..];
  }

  /** The page's state, as far as the note logic goes. `sent` lists the
      requests handed to `axios.post`. */
  class NotesPage {
    var notes: seq<ClientNote>
    var searchQuery: string
    var draft: Draft
    var editIndex: Option<int>
    var deleteIndex: Option<int>
    var draftError: bool
    var sent: seq<NoteRequest>

    constructor ()
      ensures notes == [] && searchQuery == "" && draft == EmptyDraft
      ensures editIndex == None && deleteIndex == None && !draftError && sent == []
    {
      notes, searchQuery, draft := [], "", EmptyDraft;
      editIndex, deleteIndex := None, None;
      draftError, sent := false, [];
    }

    /** The cards on screen. */
    function Displayed(): seq<ClientNote>
      reads this
    {
      Search(notes, searchQuery)
    }

    /** `fetchNotes` storing the list the server returned. */
    method ReceiveNotes(fetched: seq<ClientNote>)
      modifies this
      ensures notes == fetched
      ensures unchanged(`searchQuery, `draft, `sent, `editIndex, `deleteIndex, `draftError)
    {
      notes := fetched;
    }

    method HandleSearch(q: string)
      modifies this
      ensures searchQuery == q
      ensures unchanged(`notes, `draft, `sent, `editIndex, `deleteIndex, `draftError)
    {
      searchQuery := q;
    }

    /** `handleNoteChange(e)`: the error is cleared only when the change is
        taken. */
    method HandleNoteChange(f: DraftField, v: string)
      modifies this
      ensures draft == NoteChange(old(draft), f, v)
      ensures draftError == (old(draftError) && f == DescriptionInput && |v| > DescriptionLimit)
      ensures unchanged(`notes, `searchQuery, `sent, `editIndex, `deleteIndex)
    {
      if f == DescriptionInput && |v| > DescriptionLimit {
        return;
      }
      match f {
        case TitleInput => draft := draft.(title := v);
        case DescriptionInput => draft := draft.(description := v);
      }
      draftError := false;
    }

    /** `saveNote()`; `succeeded` is the outcome of the request, which resets
        the dialog. */
    method SaveNote(succeeded: bool)
      modifies this
      ensures var req := SaveRequest(old(draft), old(editIndex));
        && (req.None? ==> draftError && sent == old(sent) && draft == old(draft) && editIndex == old(editIndex))
        && (req.Some? ==> sent == old(sent) + [req.value])
        && (req.Some? && succeeded ==> draft == EmptyDraft && editIndex == None && !draftError)
        && (req.Some? && !succeeded ==> draft == old(draft) && editIndex == old(editIndex) && draftError == old(draftError))
      ensures unchanged(`notes, `searchQuery, `deleteIndex)
    {
      var request := SaveRequest(draft, editIndex);
      if request.None? {
        draftError := true;
      } else {
        sent := sent + [request.value];
        if succeeded {
          CloseDialog();
        }
      }
    }

    /** The state a successful save leaves: an empty draft, no edit, no error. */
    method CloseDialog()
      modifies this
      ensures draft == EmptyDraft && editIndex == None && !draftError
      ensures unchanged(`notes, `searchQuery, `deleteIndex, `sent)
    {
      draft := EmptyDraft;
      editIndex := None;
      draftError := false;
    }

    /** `editNote(index)` as written: the draft is taken from the full list. */
    method EditNote(index: nat)
      requires index < |Displayed()|
      modifies this
      ensures draft == DraftOf(old(notes)[index]) && editIndex == Some(index)
      ensures unchanged(`notes, `searchQuery, `sent, `deleteIndex, `draftError)
    {
      draft := DraftOf(notes[index]);
      editIndex := Some(index);
    }

    /** `editNote` loading the card that was clicked. */
    method EditDisplayedNote(index: nat)
      requires index < |Displayed()|
      modifies this
      ensures draft == DraftOf(old(Displayed())[index]) && editIndex == Some(index)
      ensures unchanged(`notes, `searchQuery, `sent, `deleteIndex, `draftError)
    {
      var pos := DisplayedPosition(notes, searchQuery, index);
      draft := DraftOf(notes[pos.value]);
      editIndex := Some(index);
    }

    /** `requestDeleteNote(index, note)`: the server is asked to delete the
        displayed note; on success the dialog remembers `index`. */
    method RequestDeleteNote(index: nat, succeeded: bool)
      requires index < |Displayed()|
      modifies this
      ensures sent == old(sent) + [DeleteCall(old(Displayed())[index].id)]
      ensures deleteIndex == if succeeded then Some(index as int) else old(deleteIndex)
      ensures unchanged(`notes, `searchQuery, `draft, `editIndex, `draftError)
    {
      var note := Search(notes, searchQuery)[index];
      sent := sent + [DeleteCall(note.id)];
      if succeeded {
        deleteIndex := Some(index);
      }
    }

    /** `requestDeleteNote` remembering where the card sits in the full list. */
    method RequestDeleteDisplayedNote(index: nat, succeeded: bool)
      requires index < |Displayed()|
      modifies this
      ensures sent == old(sent) + [DeleteCall(old(Displayed())[index].id)]
      ensures deleteIndex == if succeeded then DisplayedPosition(old(notes), old(searchQuery), index) else old(deleteIndex)
      ensures unchanged(`notes, `searchQuery, `draft, `editIndex, `draftError)
    {
      var note := Search(notes, searchQuery)[index];
      sent := sent + [DeleteCall(note.id)];
      if succeeded {
        deleteIndex := DisplayedPosition(notes, searchQuery, index);
      }
    }

    /** `cancelDelete()`: the dialog closes and the list stays. */
    method CancelDelete()
      modifies this
      ensures deleteIndex == None
      ensures unchanged(`notes, `searchQuery, `draft, `sent, `editIndex, `draftError)
    {
      deleteIndex := None;
    }

    /** `confirmDeleteNote()` */
    method ConfirmDeleteNote()
      modifies this
      ensures notes == RemoveAt(old(notes), old(deleteIndex)) && deleteIndex == None
      ensures unchanged(`searchQuery, `draft, `sent, `editIndex, `draftError)
    {
      notes := RemoveAt(notes, deleteIndex);
      deleteIndex := None;
    }
  }
}
