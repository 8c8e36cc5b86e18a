# Notes: a verified model of a minimal note store

The system is a tiny to-do utility in Java. A `Note` is a value object that
wraps one `task` string. It has value-based `equals` and a `hashCode`
derived from the same field. A `Memory` is an append-only, insertion-ordered
list of notes with two operations: `save(note)` and `getNotes()`.

The model has four modules:

- `Wrappers` (`wrappers.dfy`) defines `Option`. It stands for a Java reference that may be null.
- `Notes` (`notes.dfy`) models `Note.java`, which is pure code.
  - A note is `datatype Note = Note(task: Option<string>)`, so a null task is `None`.
  - The argument of `equals(Object)` is `Object = Null | NoteObject(note) | OtherObject`.
  - `Equals` follows the source's three steps: the identity short cut, the null or other-class test, then `Objects.equals` on the tasks.
  - `HashCode` is `Objects.hash(task)` computed as the JDK defines it: `31 * 1 + (task == null ? 0 : task.hashCode())`. `String.hashCode` is `h = 31 * h + c`. All of it is in 32-bit `int` arithmetic, written out by `Int32`.
  - Lemmas state the equality contract: reflexive, symmetric and transitive; never equal to null or to another class; equal exactly when the tasks are equal; consistent with the hash. A further lemma proves that the step-by-step wrapped hash equals the exact base-31 polynomial reduced once to `int`.
- `MemoryStore` (`memory.dfy`) models `Memory.java`, which is imperative.
  - `class Memory` has a `notes: seq<Note>` field in place of the `ArrayList`. The constructor leaves it empty. `Save` has `modifies this` and appends.
  - `GetNotes` is a method that only reads.
  - The pure function `Append` specifies one save. `SaveAll` is a sequence of saves. The lemmas prove that saves keep insertion order, keep duplicates and only ever extend the log.
- `Scenarios` (`scenarios.dfy`) holds client methods that drive `Memory` the way the behaviour scenarios do. One saves "Buy cat food" into a fresh memory and reads back exactly that note. Others read the notes twice, save an equal note twice, and save a whole sequence of notes one by one into a fresh memory.

Test code (`NotesSteps`, `MemoryHelper`) calls `memory.getSavedNote()`, which
`Memory.java` does not define; the model has no such operation.

## Model

| member | source | states |
|---|---|---|
| `Notes.NewNote` | src/main/java/se/thinkcode/notes/Note.java:8-10 | the constructor stores the given task unchanged, null included |
| `Notes.ObjectsEquals` | src/main/java/se/thinkcode/notes/Note.java:17 | the null-safe `Objects.equals` on two tasks holds exactly when both are null or both hold the same string |
| `Notes.Equals` | src/main/java/se/thinkcode/notes/Note.java:13-18 | `equals(o)` is true exactly when `o` is a `Note` whose task equals this task; it is false for null and for any other class |
| `Notes.Int32` | src/main/java/se/thinkcode/notes/Note.java:21-23 | Java `int` arithmetic: the result lies in the 32-bit signed range, agrees with the exact value modulo 2^32, and is the exact value when that is in range |
| `Notes.StringHash` | src/main/java/se/thinkcode/notes/Note.java:22 | the task's `hashCode` is a 32-bit `int`, and 0 for the empty string |
| `Notes.HashCode` | src/main/java/se/thinkcode/notes/Note.java:21-23 | `Objects.hash(task)` is a 32-bit `int`; it is 31 for a null task and `31 + task.hashCode()` wrapped to `int` otherwise |
| `Notes.EqualsReflexive` | src/main/java/se/thinkcode/notes/Note.java:14 | a note always equals itself |
| `Notes.NeverEqualsNullOrOtherClass` | src/main/java/se/thinkcode/notes/Note.java:15 | a note never equals null or an object of a different class |
| `Notes.EqualsIffSameTask` | src/main/java/se/thinkcode/notes/Note.java:17 | two notes are equal exactly when their tasks are equal; two null tasks are equal; a null and a non-null task are not |
| `Notes.EqualsSymmetric` | src/main/java/se/thinkcode/notes/Note.java:13-18 | `a.equals(b)` holds exactly when `b.equals(a)` does |
| `Notes.EqualsTransitive` | src/main/java/se/thinkcode/notes/Note.java:13-18 | if `a` equals `b` and `b` equals `c`, then `a` equals `c` |
| `Notes.HashConsistentWithEquals` | src/main/java/se/thinkcode/notes/Note.java:17-23 | equal notes have equal hash codes |
| `Notes.StringHashIsWrappedPolynomial` | src/main/java/se/thinkcode/notes/Note.java:22 | wrapping to `int` after every step of the task hash gives the exact base-31 polynomial of the characters reduced once modulo 2^32 |
| `MemoryStore.Append` | src/main/java/se/thinkcode/notes/Memory.java:10 | one save grows the log by exactly one; the new note is last; every earlier entry is unchanged at its position; the note's count in the log rises by one, so no membership check is made |
| `MemoryStore.Memory.constructor` | src/main/java/se/thinkcode/notes/Memory.java:7 | a fresh `Memory` holds no notes |
| `MemoryStore.Memory.Save` | src/main/java/se/thinkcode/notes/Memory.java:9-11 | `save(n)` changes only this memory, and its notes become the old notes followed by `n` |
| `MemoryStore.Memory.GetNotes` | src/main/java/se/thinkcode/notes/Memory.java:13-15 | `getNotes()` returns the stored notes, in insertion order, and changes no state |
| `MemoryStore.SaveAllAppends` | src/main/java/se/thinkcode/notes/Memory.java:9-11 | saving a sequence of notes one by one leaves the previous notes followed by the saved ones, in order |
| `MemoryStore.FreshMemoryAfterSaves` | src/main/java/se/thinkcode/notes/Memory.java:7-15 | after `k` saves on a fresh memory the notes are exactly the saved ones in insertion order, so there are `k` of them |
| `MemoryStore.SavesPreservePrefix` | src/main/java/se/thinkcode/notes/Memory.java:10 | saves only extend the log: its length grows by the number of saves and the old notes remain its prefix |
| `MemoryStore.SavingTwiceKeepsBoth` | src/main/java/se/thinkcode/notes/Memory.java:10 | saving two equal notes keeps both copies |
| `Scenarios.BuyCatFood` | src/test/java/se/thinkcode/notes/NoteSteps.java:14-32 | on a fresh memory, after saving `Note("Buy cat food")`, `getNotes()` holds exactly one note, equal to `Note("Buy cat food")` |
| `Scenarios.ReadTwice` | src/main/java/se/thinkcode/notes/Memory.java:13-15 | two `getNotes()` calls with no save in between return equal sequences, both the stored notes |
| `Scenarios.SaveEach` | src/main/java/se/thinkcode/notes/Memory.java:7-15 | a fresh `Memory` after saving each note of a sequence in turn holds exactly those notes in order, `k` of them after `k` saves, as the repeated-save function `SaveAll` predicts |
| `Scenarios.SaveEqualNotesTwice` | src/main/java/se/thinkcode/notes/Memory.java:9-11 | saving the same note twice into a fresh memory leaves both copies, in order |

## Left out

- `getSavedNote()`: test code calls it, but `Memory` does not define it. There is no behaviour to model, and none is invented.
- The Cucumber step classes and `MemoryHelper`: they are test glue with no logic of their own. Only the "buy cat food" scenario is modelled, as `Scenarios.BuyCatFood`.
- `MemoryStore.Memory.GetNotes`: returns a value snapshot of the notes. Java returns the internal mutable `ArrayList` itself, so a caller could change the store through it. That aliasing is not modelled.
- `Notes.Equals`: Java's reference identity (`this == o`) is modelled as equality of values. Identity implies value equality, and the answer of `equals` is the same either way. The model has no object identity for notes.
- `Notes.Object`: the runtime class is reduced to "a `Note`" or "some other class". A subclass of `Note` counts as another class, as `getClass()` makes it. Reflection and subclass behaviour are not modelled.
- `Notes.StringHash`: a Dafny `char` is a Unicode scalar value, but a Java `char` is a UTF-16 code unit. The hash therefore agrees with Java only for strings whose characters are all Basic Multilingual Plane characters other than surrogates. Java hashes a supplementary character as two surrogate units.
- `Notes.ObjectsEquals`: a Java string may hold an unpaired surrogate (0xD800 to 0xDFFF), which a Dafny `string` cannot represent. Such tasks are outside the model, for equality as for hashing.
- `MemoryStore.Memory.Save`: a null note reference is not modelled. Java's `save(null)` adds null to the `ArrayList`, and `getNotes()` then returns a list holding null. In the model every stored element is a `Note`.
- There is no concurrency, I/O or persistence in the source, and none in the model.
