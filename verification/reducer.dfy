/**
 The view state of the note list and the reducer that moves it from one state
 to the next, one case per action type. The reducer is total: an action with a
 type it does not recognise gives back an equal state.
 */
module Reducer {

  import opened Notes

  /** The draft form: the two text inputs above the list. */
  datatype Form = Form(name: string, description: string)

  /** The form the view starts with and goes back to after a submission. */
  const EmptyForm: Form := Form("", "")

  /** The form inputs that dispatch SET_INPUT (their `name` attributes). */
  datatype Field = NameField | DescriptionField

  datatype State = State(notes: seq<Note>, loading: bool, error: bool, form: Form)

  /** No notes, still loading, no error, empty form. */
  const Initial: State := State([], true, false, EmptyForm)

  datatype Action =
    | SetNotes(items: seq<Note>)
    | AddNote(note: Note)
    | DeleteNote(note: Note)
    | UpdateNote(note: Note)
    | ResetForm
    | SetInput(field: Field, value: string)
    | Error
    | Unrecognized(kind: string)

  /** The current text of one form input. */
  function FieldValue(form: Form, field: Field): string {
    match field
    case NameField => form.name
    case DescriptionField => form.description
  }

  /** SET_NOTES: the list becomes exactly the fetched items and loading ends. */
  function OnSetNotes(s: State, items: seq<Note>): (r: State)
    ensures r.notes == items
    ensures !r.loading
    ensures r.error == s.error && r.form == s.form
  {
    s.(notes := items, loading := false)
  }

  /** ADD_NOTE: the note goes in front of the old list, which follows it in
      its old order; no duplicate check is made. */
  function OnAddNote(s: State, note: Note): (r: State)
    ensures |r.notes| == |s.notes| + 1
    ensures r.notes[0] == note && r.notes[1..] == s.notes
    ensures r.loading == s.loading && r.error == s.error && r.form == s.form
  {
    s.(notes := [note] + s.notes)
  }

  /** DELETE_NOTE: exactly the notes whose identifier differs from the
      action note's stay, in their old relative order. */
  function OnDeleteNote(s: State, note: Note): (r: State)
    ensures forall n :: n in r.notes <==> n in s.notes && n.id != note.id
    ensures !HasId(r.notes, note.id)
    ensures IsSubseq(r.notes, s.notes)
    ensures |r.notes| == |s.notes| - CountId(s.notes, note.id)
    ensures !HasId(s.notes, note.id) ==> r.notes == s.notes
    ensures r.loading == s.loading && r.error == s.error && r.form == s.form
  {
    s.(notes := RemoveById(s.notes, note.id))
  }

  /** UPDATE_NOTE: same length; every position carrying the action note's
      identifier holds the action note, every other position is unchanged. */
  function OnUpdateNote(s: State, note: Note): (r: State)
    ensures |r.notes| == |s.notes|
    ensures forall i :: 0 <= i < |s.notes| && s.notes[i].id == note.id ==> r.notes[i] == note
    ensures forall i :: 0 <= i < |s.notes| && s.notes[i].id != note.id ==> r.notes[i] == s.notes[i]
    ensures !HasId(s.notes, note.id) ==> r.notes == s.notes
    ensures r.loading == s.loading && r.error == s.error && r.form == s.form
  {
    s.(notes := ReplaceById(s.notes, note))
  }

  /** RESET_FORM: both inputs are empty again; nothing else changes. */
  function OnResetForm(s: State): (r: State)
    ensures r.form.name == "" && r.form.description == ""
    ensures r.notes == s.notes && r.loading == s.loading && r.error == s.error
  {
    s.(form := EmptyForm)
  }

  /** SET_INPUT: the named input takes the value; the other input and the
      rest of the state are unchanged. */
  function OnSetInput(s: State, field: Field, value: string): (r: State)
    ensures FieldValue(r.form, field) == value
    ensures forall f :: f != field ==> FieldValue(r.form, f) == FieldValue(s.form, f)
    ensures r.notes == s.notes && r.loading == s.loading && r.error == s.error
  {
    match field
    case NameField => s.(form := s.form.(name := value))
    case DescriptionField => s.(form := s.form.(description := value))
  }

  /** ERROR: loading ends with the error flag raised; notes and form stay. */
  function OnError(s: State): (r: State)
    ensures !r.loading && r.error
    ensures r.notes == s.notes && r.form == s.form
  {
    s.(loading := false, error := true)
  }

  /** The reducer. Whatever the action, a view that has finished loading
      stays finished, a raised error stays raised, and only SET_NOTES,
      ADD_NOTE, DELETE_NOTE and UPDATE_NOTE touch the list. */
  function Reduce(s: State, a: Action): (r: State)
    ensures !s.loading ==> !r.loading
    ensures s.error ==> r.error
    ensures (a.ResetForm? || a.SetInput? || a.Error? || a.Unrecognized?) ==> r.notes == s.notes
    ensures !(a.ResetForm? || a.SetInput?) ==> r.form == s.form
    ensures a.Unrecognized? ==> r == s
  {
    match a
    case SetNotes(items) => OnSetNotes(s, items)
    case AddNote(note) => OnAddNote(s, note)
    case DeleteNote(note) => OnDeleteNote(s, note)
    case UpdateNote(note) => OnUpdateNote(s, note)
    case ResetForm => OnResetForm(s)
    case SetInput(field, value) => OnSetInput(s, field, value)
    case Error => OnError(s)
    case Unrecognized(_) => s
  }

  /** The state after dispatching `actions` in order, starting from `s`. */
  function Run(s: State, actions: seq<Action>): State
    decreases |actions|
  {
    if |actions| == 0 then s else Run(Reduce(s, actions[0]), actions[1..])
  }

  /** Dispatching two batches in turn is dispatching their concatenation. */
  lemma {:induction false} RunAppend(s: State, a: seq<Action>, b: seq<Action>)
    ensures Run(s, a + b) == Run(Run(s, a), b)
    decreases |a|
  {
    if |a| == 0 {
      assert a + b == b;
    } else {
      assert (a + b)[0] == a[0];
      assert (a + b)[1..] == a[1..] + b;
      RunAppend(Reduce(s, a[0]), a[1..], b);
    }
  }

  /** The flags never go back to "loading with an error": a raised error
      implies loading is over. */
  ghost predicate FlagsConsistent(s: State) {
    s.error ==> !s.loading
  }

  /** Every state reachable from the initial state has consistent flags, and
      a state that has stopped loading never starts again. */
  lemma {:induction false} RunKeepsFlagsConsistent(s: State, actions: seq<Action>)
    requires FlagsConsistent(s)
    ensures FlagsConsistent(Run(s, actions))
    ensures !s.loading ==> !Run(s, actions).loading
    ensures s.error ==> Run(s, actions).error
    decreases |actions|
  {
    if |actions| > 0 {
      RunKeepsFlagsConsistent(Reduce(s, actions[0]), actions[1..]);
    }
  }

  /** Whether an action keeps the identifiers of the list unique, given the
      list it is applied to: a new note must carry a fresh identifier and a
      fetched list must itself be duplicate-free. */
  ghost predicate KeepsIdsFresh(notes: seq<Note>, a: Action) {
    match a
    case SetNotes(items) => UniqueIds(items)
    case AddNote(note) => !HasId(notes, note.id)
    case _ => true
  }

  /** The reducer keeps identifiers unique whenever the action respects
      `KeepsIdsFresh`; the reducer itself does not enforce it. */
  lemma ReduceKeepsUniqueIds(s: State, a: Action)
    requires UniqueIds(s.notes)
    requires KeepsIdsFresh(s.notes, a)
    ensures UniqueIds(Reduce(s, a).notes)
  {
    match a
    case AddNote(note) =>
      var r := Reduce(s, a).notes;
      forall i, j | 0 <= i < j < |r|
        ensures r[i].id != r[j].id
      {
        if i == 0 {
          assert r[j] == s.notes[j - 1];
        } else {
          assert r[i] == s.notes[i - 1] && r[j] == s.notes[j - 1];
        }
      }
    case DeleteNote(note) =>
      RemoveByIdKeepsUniqueIds(s.notes, note.id);
    case UpdateNote(note) =>
      ReplaceByIdKeepsUniqueIds(s.notes, note);
    case _ =>
  }

  /** With unique identifiers, deleting a listed note removes exactly that
      entry and leaves the notes before and after it in place. */
  lemma DeleteListedNote(s: State, k: int)
    requires UniqueIds(s.notes)
    requires 0 <= k < |s.notes|
    ensures Reduce(s, DeleteNote(s.notes[k])).notes == s.notes[..k] + s.notes[k + 1..]
    ensures |Reduce(s, DeleteNote(s.notes[k])).notes| == |s.notes| - 1
  {
    RemoveListed(s.notes, k);
  }

  /** ADD_NOTE makes no duplicate check: adding a note whose identifier is
      already listed leaves two notes with that identifier. */
  lemma AddNoteCanDuplicate(s: State, note: Note)
    requires HasId(s.notes, note.id)
    ensures !UniqueIds(Reduce(s, AddNote(note)).notes)
    ensures CountId(Reduce(s, AddNote(note)).notes, note.id) >= 2
  {
  }

  /** SET_INPUT: the last value written to an input wins. */
  lemma SetInputLastWins(s: State, field: Field, v1: string, v2: string)
    ensures Reduce(Reduce(s, SetInput(field, v1)), SetInput(field, v2)) == Reduce(s, SetInput(field, v2))
  {
  }

  /** SET_INPUT on the two different inputs can be dispatched in either order. */
  lemma SetInputCommutes(s: State, v1: string, v2: string)
    ensures Reduce(Reduce(s, SetInput(NameField, v1)), SetInput(DescriptionField, v2))
         == Reduce(Reduce(s, SetInput(DescriptionField, v2)), SetInput(NameField, v1))
  {
  }

  /** RESET_FORM undoes any typing: what was typed before it does not matter. */
  lemma ResetFormForgetsInput(s: State, field: Field, value: string)
    ensures Reduce(Reduce(s, SetInput(field, value)), ResetForm) == Reduce(s, ResetForm)
  {
  }

}
