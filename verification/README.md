# Note list state model

A Dafny model of the client-side state of a small note-taking web client. The view holds an
ordered list of notes, a `loading` flag, an `error` flag and a two-field draft form. Every change
goes through one reducer, a total function from `(State, Action)` to `State`, with seven action
types: `SET_NOTES`, `ADD_NOTE`, `DELETE_NOTE`, `UPDATE_NOTE`, `RESET_FORM`, `SET_INPUT` and `ERROR`.
Any other type is a no-op. Around the reducer sit the rules that decide which actions the event
handlers dispatch:

- form validation and note construction on submit;
- the completion toggle;
- echo suppression for create events pushed by the live feed.

There is also the counter of completed notes shown under the list.

Files:

- `wrappers.dfy`: `Option`.
- `notes.dfy` (module `Notes`): the note record and the two list operations the reducer uses. `RemoveById` is the `filter` by identifier. `ReplaceById` is the `map` that replaces by identifier. Both have distribution, idempotence and uniqueness lemmas.
- `reducer.dfy` (module `Reducer`): form, state and action datatypes, one function per reducer case, the reducer itself, `Run` (dispatching a sequence of actions), and the invariants the reducer keeps.
- `infobar.dfy` (module `InfoBar`): the completed counter as the same left fold the source uses, proved equal to the number of completed positions.
- `handlers.dfy` (module `Handlers`): the actions each handler dispatches, and lemmas that connect handlers, reducer and counter.

This client's own identifier (`CLIENT_ID`) and each freshly generated note identifier are
parameters. The outcome of the initial query and the events of the live feed are inputs too
(`FetchOutcome`, `FeedEvent`).

Where the behaviour of the code differs from the usual description of the application, the model
follows the code:

- Unique identifiers are not an invariant of the reducer. `ADD_NOTE` prepends without a duplicate check (`Reducer.AddNoteCanDuplicate`). Uniqueness is kept only when each added note carries a fresh identifier and each fetched list is itself duplicate-free (`Reducer.ReduceKeepsUniqueIds`).
- A create event from another client is put in front of the list, not appended.
- `SET_NOTES` leaves the `error` flag as it was. A successful first load shows `error` false only because the initial state has it false (`Handlers.InitialLoad`).

## Model

| member | source | states |
|---|---|---|
| Reducer.OnSetNotes | src/App.js:45-50 | the list becomes exactly the fetched items; loading is over; error and form are unchanged |
| Reducer.OnAddNote | src/App.js:52-59 | the list grows by exactly one; the new note is first and the old list follows in its old order; flags and form unchanged |
| Reducer.OnDeleteNote | src/App.js:61-65 | a note stays exactly when it was listed and its identifier differs; none with that identifier remains; the result is an order-preserving sub-list; length drops by the number of matching notes; an absent identifier leaves the list unchanged |
| Reducer.OnUpdateNote | src/App.js:67-71 | length kept; every matching position holds the action note; every other position is unchanged; an absent identifier leaves the list unchanged |
| Reducer.OnResetForm | src/App.js:73-77 | both inputs become empty; notes and flags unchanged |
| Reducer.OnSetInput | src/App.js:79-86 | the named input takes the value; the other input, notes and flags unchanged |
| Reducer.OnError | src/App.js:88-93 | loading over and error raised; notes and form unchanged |
| Reducer.Reduce | src/App.js:42-100 | an unrecognised action gives an equal state; only the four list actions touch the notes; only RESET_FORM and SET_INPUT touch the form; no action restarts loading or clears the error |
| Reducer.RunKeepsFlagsConsistent | src/App.js:42-100 | along any sequence of actions, "error implies not loading" is kept, a finished load stays finished and a raised error stays raised |
| Reducer.ReduceKeepsUniqueIds | src/App.js:42-100 | identifiers stay unique under every action, provided an added note's identifier is fresh and a fetched list is duplicate-free |
| Reducer.DeleteListedNote | src/App.js:170-175 | with unique identifiers, deleting a listed note removes exactly that entry; the notes before and after it stay in place and the list shrinks by one |
| Reducer.AddNoteCanDuplicate | src/App.js:52-59 | adding a note whose identifier is already listed leaves at least two notes with it |
| Reducer.SetInputLastWins | src/App.js:79-86 | two writes to one input leave the second value |
| Reducer.SetInputCommutes | src/App.js:79-86 | writes to the two different inputs commute |
| Reducer.ResetFormForgetsInput | src/App.js:73-86 | resetting after typing gives the same state as resetting without it |
| Reducer.RunAppend | src/App.js:146-153 | dispatching two batches one after the other equals dispatching their concatenation |
| Notes.RemoveById | src/App.js:64 | the filter keeps exactly the notes with a different identifier; it keeps their order and drops as many as carry the identifier |
| Notes.RemoveByIdAppend | src/App.js:64 | the filter distributes over concatenation |
| Notes.RemoveByIdIdempotent | src/App.js:64 | deleting the same identifier twice equals deleting it once |
| Notes.RemoveByIdKeepsUniqueIds | src/App.js:61-65 | deleting keeps identifiers unique |
| Notes.UniqueIdsCountAtMostOne | src/App.js:61-65 | with unique identifiers at most one note matches, so a delete shortens the list by at most one |
| Notes.RemoveListed | src/App.js:64 | with unique identifiers, filtering out the identifier of the note at one position removes exactly that position |
| Notes.ReplaceById | src/App.js:70 | the map keeps length and each position's identifier; matching positions become the note; others are unchanged |
| Notes.ReplaceByIdAppend | src/App.js:70 | the map distributes over concatenation |
| Notes.ReplaceByIdIdempotent | src/App.js:70 | updating twice with the same note equals updating once |
| Notes.ReplaceByIdKeepsUniqueIds | src/App.js:67-71 | updating keeps identifiers unique |
| Notes.Toggled | src/App.js:200-203 | the toggled note differs from the input only in `completed`, which is negated |
| Notes.ToggledTwice | src/App.js:200-203 | toggling twice gives back the original note |
| InfoBar.CountFrom | src/InfoBar.js:5 | the fold's result lies between its start value and the start value plus the list length |
| InfoBar.CompletedCount | src/InfoBar.js:5-11 | the completed count never exceeds the total shown beside it |
| InfoBar.CompletedCountIsNumberCompleted | src/InfoBar.js:5 | the fold equals the number of positions whose note is completed |
| InfoBar.CompletedCountEmpty | src/InfoBar.js:5 | an empty list counts 0 |
| InfoBar.CompletedCountAppend | src/InfoBar.js:5 | the count is additive over concatenation |
| InfoBar.CompletedCountZero | src/InfoBar.js:5 | the count is 0 exactly when no note is completed |
| InfoBar.CompletedCountAll | src/InfoBar.js:5-11 | the count equals the total exactly when every note is completed |
| Handlers.NewNote | src/App.js:135-144 | no note exactly when the name or the description is empty; otherwise the note has the form's texts, is not completed, and carries this client's identifier and the fresh identifier |
| Handlers.CreateNoteActions | src/App.js:135-153 | nothing is dispatched exactly when an input is empty; otherwise ADD_NOTE with the new note is dispatched, then RESET_FORM |
| Handlers.CreateNoteEffect | src/App.js:129-153 | an incomplete form leaves the state unchanged; otherwise the new note comes first, the old list follows, the form is empty, the flags and the completed count are unchanged, and a fresh identifier keeps identifiers unique |
| Handlers.ToggleAction | src/App.js:198-204 | UPDATE_NOTE is dispatched with a note of the same identifier that differs only in the negated `completed` |
| Handlers.ToggleMovesCountByOne | src/App.js:198-204 | with unique identifiers, toggling a listed note moves the completed count by exactly one, up for an open note and down for a completed one |
| Handlers.ToggleExample | src/App.js:198-204 | a one-note list with open note "A" becomes the same note completed, and the completed count goes from 0 to 1 |
| Handlers.ToggleTwiceRestores | src/App.js:198-204 | with unique identifiers, toggling a listed note and then toggling it again as shown gives back the original state |
| Handlers.FetchAction | src/App.js:108-127 | a successful query dispatches SET_NOTES with the returned items; a failed one dispatches ERROR |
| Handlers.InitialLoad | src/App.js:108-127 | from the initial state, success gives exactly the returned notes, loading over and no error; failure gives no notes, loading over and the error raised |
| Handlers.FeedActions | src/App.js:239-282 | nothing is dispatched exactly for a create event carrying this client's identifier; otherwise one action carries the event's note: ADD_NOTE for create, DELETE_NOTE for delete, UPDATE_NOTE for update |
| Handlers.OwnCreateEchoSuppressed | src/App.js:245 | after this client creates a note with a fresh identifier, the feed's echo of it leaves exactly one note with that identifier |
| Handlers.PeerCreateAdded | src/App.js:243-248 | a create event from another client puts its note first and keeps the form |

## Left out

- Calls to the managed GraphQL API (the list query, the create/update/delete mutations and the three subscriptions) are network I/O. Only their outcomes appear, as `FetchOutcome` and `FeedEvent` inputs, and only the actions they lead to are modelled. Mutation failures are only logged, so they have no effect on state.
- `uuid()` is a foreign, nondeterministic call. This client's identifier and each new note identifier are parameters.
- Asynchronous interleaving is not modelled. This covers optimistic dispatches versus mutation acknowledgements and feed events racing each other. A sequence of actions (`Reducer.Run`) stands for one interleaving.
- Releasing the subscriptions on unmount (src/App.js:284-289) is a lifecycle concern with no state effect.
- Rendering is not modelled: JSX, the "Mark Complete"/"Unmark" label, `alert`, `console.log` and the style objects.
- `deleteNote` and the input `onChange` handler dispatch `DELETE_NOTE` and `SET_INPUT` directly from their argument. The action constructors stand for them.
- `SET_INPUT` with a key other than `name` or `description` is not modelled. Only the two inputs named `name` and `description` dispatch it (src/App.js:336, 343). `Field` therefore has exactly those two values.
- Server fields the core never reads (such as creation timestamps) are left out of `Note`. So are JavaScript truthiness of non-string field values and a missing `clientId`: every field is a plain string or boolean here.
