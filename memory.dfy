/**
 * `Memory`: an append-only, insertion-ordered store of notes, backed in
 * Java by an `ArrayList` that `save` extends in place.
 */
module MemoryStore {
  import opened Notes

  /**
   * One `save` on a log of notes: the note goes at the end, the log grows by
   * exactly one and every earlier entry stays where it was. No membership
   * check is made, so an equal note already present is kept as well.
   */
  function Append(log: seq<Note>, note: Note): (r: seq<Note>)
    ensures |r| == |log| + 1
    ensures r[|log|] == note
    ensures forall i :: 0 <= i < |log| ==> r[i] == log[i]
    ensures multiset(r)[note] == multiset(log)[note] + 1
  {
    log + [note]
  }

  /** The log after saving each note of `ns`, in order, onto `log`. */
  function SaveAll(log: seq<Note>, ns: seq<Note>): seq<Note>
    decreases |ns|
  {
    if ns == [] then log else SaveAll(Append(log, ns[0]), ns[1..])
  }

  class Memory {
    /** The notes saved so far, oldest first. */
    var notes: seq<Note>

    /** A fresh `Memory` holds no notes. */
    constructor ()
      ensures notes == []
    {
      notes := [];
    }

    /** `save(note)`: appends the note at the end. */
    method Save(note: Note)
      modifies this
      ensures notes == old(notes) + [note]
    {
      notes := notes + [note];
    }

    /**
     * `getNotes()`: every saved note, in insertion order. It changes
     * nothing, so two calls with no `save` in between agree.
     */
    method GetNotes() returns (r: seq<Note>)
      ensures r == notes
    {
      r := notes;
    }
  }

  // ---------------------------------------------------------------------
  // Properties of repeated saves

  /** Saving `ns` one by one onto `log` leaves `log` followed by `ns`. */
  lemma {:induction false} SaveAllAppends(log: seq<Note>, ns: seq<Note>)
    ensures SaveAll(log, ns) == log + ns
    decreases |ns|
  {
    if ns != [] {
      SaveAllAppends(Append(log, ns[0]), ns[1..]);
      assert Append(log, ns[0]) + ns[1..] == log + ns;
    }
  }

  /**
   * On a fresh `Memory`, after `k` saves the notes are exactly the saved
   * ones, in the order they were saved, duplicates included.
   */
  lemma FreshMemoryAfterSaves(ns: seq<Note>)
    ensures SaveAll([], ns) == ns
    ensures |SaveAll([], ns)| == |ns|
  {
    SaveAllAppends([], ns);
  }

  /** Saves only ever extend the log: what was there stays a prefix. */
  lemma SavesPreservePrefix(log: seq<Note>, ns: seq<Note>)
    ensures |SaveAll(log, ns)| == |log| + |ns|
    ensures SaveAll(log, ns)[..|log|] == log
  {
    SaveAllAppends(log, ns);
  }

  /** Saving an equal note twice keeps both copies. */
  lemma SavingTwiceKeepsBoth(log: seq<Note>, a: Note, b: Note)
    requires NoteEquals(a, b)
    ensures |Append(Append(log, a), b)| == |log| + 2
    ensures multiset(Append(Append(log, a), b))[a] == multiset(log)[a] + 2
  {
  }
}
