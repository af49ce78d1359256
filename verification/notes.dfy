/**
 The note record and the two sequence operations the reducer applies to the
 note list: dropping every note with a given identifier (`Array.filter`) and
 replacing every note with a given identifier (`Array.map`).
 */
module Notes {

  /** A note as held in the view state. `clientId` names the client instance
      that created it; the server may add fields the core never reads. */
  datatype Note = Note(
    id: string,
    name: string,
    description: string,
    completed: bool,
    clientId: string
  )

  /** Some note in the list carries identifier `id`. */
  predicate HasId(notes: seq<Note>, id: string) {
    exists i :: 0 <= i < |notes| && notes[i].id == id
  }

  /** No two positions of the list carry the same identifier. */
  ghost predicate UniqueIds(notes: seq<Note>) {
    forall i, j :: 0 <= i < j < |notes| ==> notes[i].id != notes[j].id
  }

  /** How many notes carry identifier `id`. */
  function CountId(notes: seq<Note>, id: string): (r: nat)
    ensures r <= |notes|
    ensures r == 0 <==> !HasId(notes, id)
  {
    if |notes| == 0 then 0
    else
      assert forall i :: 0 < i < |notes| ==> notes[i] == notes[1..][i - 1];
      (if notes[0].id == id then 1 else 0) + CountId(notes[1..], id)
  }

  /** `a` is obtained from `b` by leaving out some of its elements, the rest
      keeping their relative order: the head of `b` is either kept as the
      head of `a` or skipped. */
  ghost predicate IsSubseq(a: seq<Note>, b: seq<Note>)
    decreases |b|
  {
    |a| == 0 || (|b| > 0 && ((a[0] == b[0] && IsSubseq(a[1..], b[1..])) || IsSubseq(a, b[1..])))
  }

  /** The note with `completed` negated and every other field kept: the note
      `updateNote` builds before dispatching UPDATE_NOTE. */
  function Toggled(note: Note): (t: Note)
    ensures t != note
    ensures t.completed == !note.completed
    ensures t.(completed := note.completed) == note
  {
    note.(completed := !note.completed)
  }

  /** Toggling twice gives back the original note. */
  lemma ToggledTwice(note: Note)
    ensures Toggled(Toggled(note)) == note
  {
  }

  /** The notes whose identifier differs from `id`, in their original order:
      `notes.filter(n => n.id !== id)`. */
  function RemoveById(notes: seq<Note>, id: string): (r: seq<Note>)
    ensures forall n :: n in r <==> n in notes && n.id != id
    ensures !HasId(r, id)
    ensures |r| == |notes| - CountId(notes, id)
    ensures IsSubseq(r, notes)
    ensures !HasId(notes, id) ==> r == notes
  {
    if |notes| == 0 then []
    else
      var rest := RemoveById(notes[1..], id);
      assert forall n :: n in notes <==> n == notes[0] || n in notes[1..];
      assert forall i :: 0 < i < |notes| ==> notes[i] == notes[1..][i - 1];
      if notes[0].id != id then
        var r := [notes[0]] + rest;
        assert r[1..] == rest;
        r
      else
        assert rest == [] || rest[0] != notes[0];
        rest
  }

  /** Removing by identifier distributes over concatenation, so it keeps the
      relative order of whatever it keeps. */
  lemma {:induction false} RemoveByIdAppend(a: seq<Note>, b: seq<Note>, id: string)
    ensures RemoveById(a + b, id) == RemoveById(a, id) + RemoveById(b, id)
    decreases |a|
  {
    if |a| == 0 {
      assert a + b == b;
    } else {
      assert (a + b)[1..] == a[1..] + b;
      RemoveByIdAppend(a[1..], b, id);
    }
  }

  /** Removing the same identifier twice removes nothing more. */
  lemma RemoveByIdIdempotent(notes: seq<Note>, id: string)
    ensures RemoveById(RemoveById(notes, id), id) == RemoveById(notes, id)
  {
  }

  /** Every note carrying the identifier of `note` replaced by `note`, every
      other note kept: `notes.map(n => n.id === note.id ? note : n)`. */
  function ReplaceById(notes: seq<Note>, note: Note): (r: seq<Note>)
    ensures |r| == |notes|
    ensures forall i :: 0 <= i < |notes| && notes[i].id == note.id ==> r[i] == note
    ensures forall i :: 0 <= i < |notes| && notes[i].id != note.id ==> r[i] == notes[i]
    ensures forall i :: 0 <= i < |notes| ==> r[i].id == notes[i].id
    ensures !HasId(notes, note.id) ==> r == notes
  {
    if |notes| == 0 then []
    else
      var head := if notes[0].id == note.id then note else notes[0];
      var rest := ReplaceById(notes[1..], note);
      assert forall i :: 0 < i < |notes| ==> notes[i] == notes[1..][i - 1];
      [head] + rest
  }

  /** Replacing by identifier distributes over concatenation. */
  lemma ReplaceByIdAppend(a: seq<Note>, b: seq<Note>, note: Note)
    ensures ReplaceById(a + b, note) == ReplaceById(a, note) + ReplaceById(b, note)
  {
  }

  /** Replacing with the same note twice is the same as replacing once. */
  lemma ReplaceByIdIdempotent(notes: seq<Note>, note: Note)
    ensures ReplaceById(ReplaceById(notes, note), note) == ReplaceById(notes, note)
  {
  }

  /** Replacing keeps the identifier at every position, so it keeps the
      identifiers unique. */
  lemma ReplaceByIdKeepsUniqueIds(notes: seq<Note>, note: Note)
    requires UniqueIds(notes)
    ensures UniqueIds(ReplaceById(notes, note))
  {
  }

  /** Removing leaves a sub-list, so it keeps the identifiers unique. */
  lemma {:induction false} RemoveByIdKeepsUniqueIds(notes: seq<Note>, id: string)
    requires UniqueIds(notes)
    ensures UniqueIds(RemoveById(notes, id))
    decreases |notes|
  {
    if |notes| > 0 {
      assert forall i :: 0 < i < |notes| ==> notes[i] == notes[1..][i - 1];
      RemoveByIdKeepsUniqueIds(notes[1..], id);
      var rest := RemoveById(notes[1..], id);
      if notes[0].id != id {
        var r := [notes[0]] + rest;
        forall j | 0 < j < |r|
          ensures r[0].id != r[j].id
        {
          assert r[j] in rest;
          assert r[j] in notes[1..];
        }
      }
    }
  }

  /** Splits a list around a position. */
  lemma SplitAt(notes: seq<Note>, k: int)
    requires 0 <= k < |notes|
    ensures notes == notes[..k] + [notes[k]] + notes[k + 1..]
  {
  }

  /** With unique identifiers, no note other than the one at position `k`
      carries its identifier. */
  lemma UniqueOutside(notes: seq<Note>, k: int)
    requires UniqueIds(notes)
    requires 0 <= k < |notes|
    ensures !HasId(notes[..k], notes[k].id) && !HasId(notes[k + 1..], notes[k].id)
  {
  }

  /** With unique identifiers, removing the identifier of the note at
      position `k` removes exactly that position. */
  lemma RemoveListed(notes: seq<Note>, k: int)
    requires UniqueIds(notes)
    requires 0 <= k < |notes|
    ensures RemoveById(notes, notes[k].id) == notes[..k] + notes[k + 1..]
  {
    var id := notes[k].id;
    var a, b := notes[..k], notes[k + 1..];
    SplitAt(notes, k);
    UniqueOutside(notes, k);
    var ra := RemoveById(a, id);
    var rb := RemoveById(b, id);
    assert ra == a;
    assert rb == b;
    assert [notes[k]][1..] == [];
    assert RemoveById([notes[k]], id) == [];
    RemoveByIdAppend(a, [notes[k]], id);
    assert ra + [] == a;
    var left := RemoveById(a + [notes[k]], id);
    assert left == a;
    RemoveByIdAppend(a + [notes[k]], b, id);
    assert RemoveById(a + [notes[k]] + b, id) == a + b;
  }

  /** With unique identifiers, at most one note carries any given one. */
  lemma {:induction false} UniqueIdsCountAtMostOne(notes: seq<Note>, id: string)
    requires UniqueIds(notes)
    ensures CountId(notes, id) <= 1
    decreases |notes|
  {
    if |notes| > 0 {
      assert forall i :: 0 < i < |notes| ==> notes[i] == notes[1..][i - 1];
      UniqueIdsCountAtMostOne(notes[1..], id);
      if notes[0].id == id {
        assert !HasId(notes[1..], id);
      }
    }
  }

}
