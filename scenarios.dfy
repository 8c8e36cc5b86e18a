/**
 * Client code of `Memory`, following the repository's behaviour scenarios:
 * what a caller can conclude from the contracts of `Note` and `Memory` alone.
 */
module Scenarios {
  import opened Wrappers
  import opened Notes
  import opened MemoryStore

  /**
   * "We are out of food for the cats; Thomas writes a note about buying cat
   * food; his todo list contains exactly that note."
   */
  method BuyCatFood() returns (actual: seq<Note>)
    ensures |actual| == 1
    ensures NoteEquals(actual[0], NewNote(Some("Buy cat food")))
  {
    var memory := new Memory();
    var note := NewNote(Some("Buy cat food"));
    memory.Save(note);
    actual := memory.GetNotes();
  }

  /** Reading the notes twice with no save in between gives the same list. */
  method ReadTwice(memory: Memory) returns (first: seq<Note>, second: seq<Note>)
    ensures first == second == memory.notes
  {
    first := memory.GetNotes();
    second := memory.GetNotes();
  }

  /** Saving two equal notes into a fresh memory keeps both, in order. */
  method SaveEqualNotesTwice(task: Option<string>) returns (actual: seq<Note>)
    ensures |actual| == 2
    ensures actual[0] == NewNote(task) && actual[1] == NewNote(task)
  {
    var memory := new Memory();
    memory.Save(NewNote(task));
    memory.Save(NewNote(task));
    actual := memory.GetNotes();
  }

  /**
   * Saving each note of `ns`, in order, into a fresh memory leaves exactly
   * those notes, in insertion order: `k` notes after `k` saves.
   */
  method SaveEach(ns: seq<Note>) returns (memory: Memory)
    ensures fresh(memory)
    ensures memory.notes == ns
    ensures memory.notes == SaveAll([], ns)
  {
    memory := new Memory();
    var i := 0;
    while i < |ns|
      invariant 0 <= i <= |ns|
      invariant memory.notes == ns[..i]
    {
      memory.Save(ns[i]);
      assert ns[..i + 1] == ns[..i] + [ns[i]];
      i := i + 1;
    }
    assert ns[..|ns|] == ns;
    FreshMemoryAfterSaves(ns);
  }
}
