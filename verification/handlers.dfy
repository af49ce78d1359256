/**
 The event handlers of the note-list view, reduced to the actions they
 dispatch. The remote calls they make afterwards are left out; this client's
 own identifier and each freshly generated note identifier are parameters.
 */
module Handlers {

  import opened Wrappers
  import opened Notes
  import opened Reducer
  import opened InfoBar

  /** The note `createNote` builds from the form, or None when either input
      is empty and the handler stops with an alert. */
  function NewNote(form: Form, clientId: string, freshId: string): (r: Option<Note>)
    ensures r.None? <==> form.name == "" || form.description == ""
    ensures r.Some? ==> r.value.name == form.name && r.value.description == form.description
    ensures r.Some? ==> !r.value.completed && r.value.clientId == clientId && r.value.id == freshId
  {
    if form.name == "" || form.description == "" then None
    else Some(Note(freshId, form.name, form.description, false, clientId))
  }

  /** The actions `createNote` dispatches: none for an incomplete form,
      otherwise ADD_NOTE with the new note followed by RESET_FORM. */
  function CreateNoteActions(form: Form, clientId: string, freshId: string): (acts: seq<Action>)
    ensures acts == [] <==> form.name == "" || form.description == ""
    ensures acts != [] ==> |acts| == 2 && acts[1] == ResetForm
    ensures acts != [] ==> acts[0].AddNote? && NewNote(form, clientId, freshId) == Some(acts[0].note)
  {
    match NewNote(form, clientId, freshId)
    case None => []
    case Some(note) => [AddNote(note), ResetForm]
  }

  /** The action `updateNote` dispatches for a click on a listed note. */
  function ToggleAction(note: Note): (a: Action)
    ensures a.UpdateNote? && a.note.id == note.id
    ensures a.note.completed != note.completed
    ensures a.note.(completed := note.completed) == note
  {
    UpdateNote(Toggled(note))
  }

  /** What the initial query returns: the stored notes, or a failure. */
  datatype FetchOutcome = Fetched(items: seq<Note>) | FetchFailed

  /** The action `fetchNotes` dispatches for an outcome. */
  function FetchAction(outcome: FetchOutcome): (a: Action)
    ensures outcome.Fetched? <==> a.SetNotes?
    ensures outcome.Fetched? ==> a.items == outcome.items
    ensures outcome.FetchFailed? <==> a.Error?
  {
    match outcome
    case Fetched(items) => SetNotes(items)
    case FetchFailed => Error
  }

  /** An event pushed by one of the three subscriptions. */
  datatype FeedEvent = Created(note: Note) | Deleted(note: Note) | Updated(note: Note)

  /** The actions a feed event dispatches. A create event that carries this
      client's own identifier is an echo of its own insertion and is dropped. */
  function FeedActions(clientId: string, event: FeedEvent): (acts: seq<Action>)
    ensures acts == [] <==> event.Created? && event.note.clientId == clientId
    ensures |acts| <= 1
    ensures acts != [] ==> (acts[0].AddNote? || acts[0].DeleteNote? || acts[0].UpdateNote?)
    ensures acts != [] ==> acts[0].note == event.note
    ensures acts != [] ==> (event.Created? <==> acts[0].AddNote?)
    ensures acts != [] ==> (event.Deleted? <==> acts[0].DeleteNote?)
    ensures acts != [] ==> (event.Updated? <==> acts[0].UpdateNote?)
  {
    match event
    case Created(note) => if note.clientId == clientId then [] else [AddNote(note)]
    case Deleted(note) => [DeleteNote(note)]
    case Updated(note) => [UpdateNote(note)]
  }

  /** Right after mounting, a successful query gives exactly the returned
      notes with loading over and no error; a failed one gives no notes, loading
      over and the error flag raised. */
  lemma InitialLoad(outcome: FetchOutcome)
    ensures var r := Reduce(Initial, FetchAction(outcome));
      !r.loading && r.form == EmptyForm
      && (outcome.Fetched? ==> r.notes == outcome.items && !r.error)
      && (outcome.FetchFailed? ==> r.notes == [] && r.error)
  {
  }

  /** Submitting the form: with an empty input nothing changes; otherwise
      the new note is put in front of the old list, the form is emptied, the
      flags and the completed counter stay as they were, and a fresh
      identifier keeps identifiers unique. */
  lemma CreateNoteEffect(s: State, clientId: string, freshId: string)
    ensures var r := Run(s, CreateNoteActions(s.form, clientId, freshId));
      && (s.form.name == "" || s.form.description == "" ==> r == s)
      && (s.form.name != "" && s.form.description != "" ==>
            && |r.notes| == |s.notes| + 1
            && r.notes[1..] == s.notes
            && Some(r.notes[0]) == NewNote(s.form, clientId, freshId)
            && r.form == EmptyForm
            && r.loading == s.loading && r.error == s.error
            && CompletedCount(r.notes) == CompletedCount(s.notes))
    ensures UniqueIds(s.notes) && !HasId(s.notes, freshId) ==>
      UniqueIds(Run(s, CreateNoteActions(s.form, clientId, freshId)).notes)
  {
    var acts := CreateNoteActions(s.form, clientId, freshId);
    if acts != [] {
      var note := acts[0].note;
      var s1 := Reduce(s, acts[0]);
      assert acts[1..] == [ResetForm];
      assert [ResetForm][1..] == [];
      assert Run(s, acts) == Run(s1, [ResetForm]);
      assert Run(s, acts) == Reduce(s1, ResetForm);
      CompletedCountAppend([note], s.notes);
      assert s1.notes == [note] + s.notes;
      if UniqueIds(s.notes) && !HasId(s.notes, freshId) {
        ReduceKeepsUniqueIds(s, acts[0]);
      }
    }
  }

  /** Echo suppression: after this client creates a note with a fresh
      identifier, the feed's create event for that same note leaves exactly
      one note with the identifier in the list. */
  lemma OwnCreateEchoSuppressed(s: State, clientId: string, freshId: string)
    requires s.form.name != "" && s.form.description != ""
    requires !HasId(s.notes, freshId)
    ensures var created := NewNote(s.form, clientId, freshId).value;
      var acts := CreateNoteActions(s.form, clientId, freshId) + FeedActions(clientId, Created(created));
      CountId(Run(s, acts).notes, freshId) == 1
  {
    var created := NewNote(s.form, clientId, freshId).value;
    var acts := CreateNoteActions(s.form, clientId, freshId);
    assert FeedActions(clientId, Created(created)) == [];
    assert acts + [] == acts;
    CreateNoteEffect(s, clientId, freshId);
    var r := Run(s, acts);
    assert r.notes == [created] + s.notes;
    assert r.notes[1..] == s.notes;
  }

  /** A create event from another client puts its note in front of the
      list and changes nothing else. */
  lemma PeerCreateAdded(s: State, clientId: string, note: Note)
    requires note.clientId != clientId
    ensures Run(s, FeedActions(clientId, Created(note))).notes == [note] + s.notes
    ensures Run(s, FeedActions(clientId, Created(note))).form == s.form
  {
  }

  /** Toggling a listed note (identifiers unique) moves the completed counter
      by exactly one: up when the note was open, down when it was completed. */
  lemma ToggleMovesCountByOne(s: State, note: Note)
    requires UniqueIds(s.notes)
    requires note in s.notes
    ensures var r := Reduce(s, ToggleAction(note));
      if note.completed then CompletedCount(r.notes) + 1 == CompletedCount(s.notes)
      else CompletedCount(r.notes) == CompletedCount(s.notes) + 1
  {
    var k :| 0 <= k < |s.notes| && s.notes[k] == note;
    var a, b := s.notes[..k], s.notes[k + 1..];
    SplitAt(s.notes, k);
    UniqueOutside(s.notes, k);
    var t := Toggled(note);
    ReplaceByIdAppend(a + [note], b, t);
    ReplaceByIdAppend(a, [note], t);
    assert ReplaceById([note], t) == [t];
    var r := Reduce(s, ToggleAction(note)).notes;
    assert r == a + [t] + b;
    CompletedCountAppend(a + [t], b);
    CompletedCountAppend(a, [t]);
    CompletedCountAppend(a + [note], b);
    CompletedCountAppend(a, [note]);
  }

  /** A worked case: a single open note "A" is toggled to completed, and the
      counter goes from 0 to 1. */
  lemma ToggleExample(s: State, clientId: string)
    requires s.notes == [Note("1", "A", "first", false, clientId)]
    ensures Reduce(s, ToggleAction(s.notes[0])).notes == [Note("1", "A", "first", true, clientId)]
    ensures CompletedCount(s.notes) == 0
    ensures CompletedCount(Reduce(s, ToggleAction(s.notes[0])).notes) == 1
  {
  }

  /** Toggling a listed note (identifiers unique) and then toggling the note
      as it is now shown gives back the state before the first toggle. */
  lemma ToggleTwiceRestores(s: State, note: Note)
    requires UniqueIds(s.notes)
    requires note in s.notes
    ensures Reduce(Reduce(s, ToggleAction(note)), ToggleAction(Toggled(note))) == s
  {
  }

}
