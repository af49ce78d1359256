/**
 The counter shown under the list: how many of the notes are completed,
 computed as a left fold that adds one per completed note, starting at 0.
 */
module InfoBar {

  import opened Notes

  /** The fold step: one more when the note is completed. */
  function Step(acc: nat, note: Note): nat {
    if note.completed then acc + 1 else acc
  }

  /** Folds `Step` over the notes from left to right, starting from `acc`. */
  function CountFrom(acc: nat, notes: seq<Note>): (r: nat)
    ensures acc <= r <= acc + |notes|
    decreases |notes|
  {
    if |notes| == 0 then acc else CountFrom(Step(acc, notes[0]), notes[1..])
  }

  /** The number shown as "completed". */
  function CompletedCount(notes: seq<Note>): (r: nat)
    ensures r <= |notes|
  {
    CountFrom(0, notes)
  }

  /** The positions of the completed notes: an independent statement of what
      the counter counts. */
  ghost function CompletedPositions(notes: seq<Note>): set<int> {
    set i | 0 <= i < |notes| && notes[i].completed
  }

  /** Appending one note to the folded list adds that note's step. */
  lemma {:induction false} CountFromSnoc(acc: nat, notes: seq<Note>, note: Note)
    ensures CountFrom(acc, notes + [note]) == CountFrom(acc, notes) + (if note.completed then 1 else 0)
    decreases |notes|
  {
    if |notes| == 0 {
      assert notes + [note] == [note];
      assert [note][1..] == [];
    } else {
      assert (notes + [note])[0] == notes[0];
      assert (notes + [note])[1..] == notes[1..] + [note];
      CountFromSnoc(Step(acc, notes[0]), notes[1..], note);
    }
  }

  /** Folding over a concatenation is folding over the second part from the
      result of the first. */
  lemma {:induction false} CountFromAppend(acc: nat, a: seq<Note>, b: seq<Note>)
    ensures CountFrom(acc, a + b) == CountFrom(CountFrom(acc, a), b)
    decreases |a|
  {
    if |a| == 0 {
      assert a + b == b;
    } else {
      assert (a + b)[0] == a[0];
      assert (a + b)[1..] == a[1..] + b;
      CountFromAppend(Step(acc, a[0]), a[1..], b);
    }
  }

  /** The starting value only shifts the result. */
  lemma {:induction false} CountFromShift(acc: nat, notes: seq<Note>)
    ensures CountFrom(acc, notes) == acc + CountFrom(0, notes)
    decreases |notes|
  {
    if |notes| > 0 {
      var b := if notes[0].completed then 1 else 0;
      CountFromShift(acc + b, notes[1..]);
      CountFromShift(b, notes[1..]);
    }
  }

  /** The counter equals the number of completed notes. */
  lemma {:induction false} CompletedCountIsNumberCompleted(notes: seq<Note>)
    ensures CompletedCount(notes) == |CompletedPositions(notes)|
    decreases |notes|
  {
    if |notes| == 0 {
      assert CompletedPositions(notes) == {};
    } else {
      var init := notes[..|notes| - 1];
      var last := notes[|notes| - 1];
      assert notes == init + [last];
      CompletedCountIsNumberCompleted(init);
      CountFromSnoc(0, init, last);
      var extra: set<int> := if last.completed then {|notes| - 1} else {};
      assert CompletedPositions(notes) == CompletedPositions(init) + extra;
      assert CompletedPositions(init) !! extra;
    }
  }

  /** An empty list has no completed notes. */
  lemma CompletedCountEmpty()
    ensures CompletedCount([]) == 0
  {
  }

  /** The counter is additive over concatenation. */
  lemma CompletedCountAppend(a: seq<Note>, b: seq<Note>)
    ensures CompletedCount(a + b) == CompletedCount(a) + CompletedCount(b)
  {
    CountFromAppend(0, a, b);
    CountFromShift(CountFrom(0, a), b);
  }

  /** The counter is zero exactly when no note is completed. */
  lemma {:induction false} CompletedCountZero(notes: seq<Note>)
    ensures CompletedCount(notes) == 0 <==> forall i :: 0 <= i < |notes| ==> !notes[i].completed
  {
    CompletedCountIsNumberCompleted(notes);
    if CompletedCount(notes) == 0 {
      forall i | 0 <= i < |notes|
        ensures !notes[i].completed
      {
        assert i !in CompletedPositions(notes);
      }
    } else {
      var i :| i in CompletedPositions(notes);
    }
  }

  /** The counter equals the total exactly when every note is completed. */
  lemma {:induction false} CompletedCountAll(notes: seq<Note>)
    ensures CompletedCount(notes) == |notes| <==> forall i :: 0 <= i < |notes| ==> notes[i].completed
    decreases |notes|
  {
    if |notes| > 0 {
      CompletedCountAll(notes[1..]);
      CompletedCountAppend([notes[0]], notes[1..]);
      assert [notes[0]] + notes[1..] == notes;
      assert forall i :: 0 < i < |notes| ==> notes[i] == notes[1..][i - 1];
    }
  }

}
