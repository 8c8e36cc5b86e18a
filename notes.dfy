/**
 * The `Note` value object: one `task` string, value-based equality on that
 * string, and a hash code derived from the same field.
 *
 * Java allows the task to be null, so the field is an `Option<string>`:
 * `None` stands for a null task.
 */
module Notes {
  import opened Wrappers

  /** A note; `None` models a null `task` reference. */
  datatype Note = Note(task: Option<string>)

  /**
   * The argument of `equals(Object o)`: a null reference, a `Note`, or an
   * instance of any other runtime class (a subclass of `Note` included,
   * since `getClass()` then differs).
   */
  datatype Object = Null | NoteObject(note: Note) | OtherObject

  const TWO_POW_32: int := 0x1_0000_0000
  const TWO_POW_31: int := 0x8000_0000

  /** Java's `new Note(task)`: the task is stored as given, null included. */
  function NewNote(task: Option<string>): (n: Note)
    ensures n.task == task
  {
    Note(task)
  }

  /**
   * `java.util.Objects.equals(a, b)` on two strings: true when both are
   * null, otherwise `a != null && a.equals(b)`, and `String.equals(null)`
   * is false.
   */
  function ObjectsEquals(a: Option<string>, b: Option<string>): (r: bool)
    ensures r <==> a == b
  {
    match a
    case None => b.None?
    case Some(s) => b.Some? && s == b.value
  }

  /**
   * `Note.equals(Object o)`, branch by branch: the identity short cut, the
   * null / different-class test, then `Objects.equals` on the two tasks.
   * Java reference identity is modelled by equality of values, which it
   * implies.
   */
  function Equals(self: Note, o: Object): (r: bool)
    ensures r <==> o.NoteObject? && o.note.task == self.task
    ensures o.Null? || o.OtherObject? ==> !r
  {
    if o == NoteObject(self) then true
    else if o.Null? || o.OtherObject? then false
    else ObjectsEquals(self.task, o.note.task)
  }

  /** Equality between two notes, as seen by a caller of `a.equals(b)`. */
  predicate NoteEquals(a: Note, b: Note) {
    Equals(a, NoteObject(b))
  }

  /**
   * Reduction of an unbounded integer to Java's 32-bit two's-complement
   * `int`, as every `int` addition and multiplication performs.
   */
  function Int32(x: int): (r: int)
    ensures -TWO_POW_31 <= r < TWO_POW_31
    ensures (x - r) % TWO_POW_32 == 0
    ensures -TWO_POW_31 <= x < TWO_POW_31 ==> r == x
  {
    (x + TWO_POW_31) % TWO_POW_32 - TWO_POW_31
  }

  /**
   * `String.hashCode()`: `h = 31 * h + c` over the characters, in `int`
   * arithmetic; the empty string hashes to 0.
   */
  function StringHash(s: string): (h: int)
    ensures -TWO_POW_31 <= h < TWO_POW_31
    ensures s == [] ==> h == 0
  {
    if s == [] then 0
    else Int32(31 * StringHash(s[..|s| - 1]) + s[|s| - 1] as int)
  }

  /**
   * `Note.hashCode()`, that is `Objects.hash(task)`: the one-element array
   * hash `31 * 1 + (task == null ? 0 : task.hashCode())` in `int` arithmetic.
   */
  function HashCode(n: Note): (h: int)
    ensures -TWO_POW_31 <= h < TWO_POW_31
    ensures n.task.None? ==> h == 31
    ensures n.task.Some? ==> h == Int32(31 + StringHash(n.task.value))
  {
    Int32(31 + match n.task { case None => 0 case Some(s) => StringHash(s) })
  }

  /** The same hash computed without wrap-around: s[0]*31^(n-1) + ... + s[n-1]. */
  function Polynomial(s: string): int {
    if s == [] then 0 else 31 * Polynomial(s[..|s| - 1]) + s[|s| - 1] as int
  }

  // ---------------------------------------------------------------------
  // The equality contract

  /** A note always equals itself. */
  lemma EqualsReflexive(n: Note)
    ensures NoteEquals(n, n)
  {
  }

  /** A note never equals null nor an object of a different class. */
  lemma NeverEqualsNullOrOtherClass(n: Note)
    ensures !Equals(n, Null)
    ensures !Equals(n, OtherObject)
  {
  }

  /** Two notes are equal exactly when their tasks are, two null tasks included. */
  lemma EqualsIffSameTask(a: Note, b: Note)
    ensures NoteEquals(a, b) <==> a.task == b.task
    ensures a.task.None? && b.task.None? ==> NoteEquals(a, b)
    ensures a.task.None? != b.task.None? ==> !NoteEquals(a, b)
  {
  }

  /** Equality is symmetric. */
  lemma EqualsSymmetric(a: Note, b: Note)
    ensures NoteEquals(a, b) <==> NoteEquals(b, a)
  {
  }

  /** Equality is transitive. */
  lemma EqualsTransitive(a: Note, b: Note, c: Note)
    requires NoteEquals(a, b) && NoteEquals(b, c)
    ensures NoteEquals(a, c)
  {
  }

  /** Equal notes have equal hash codes. */
  lemma HashConsistentWithEquals(a: Note, b: Note)
    requires NoteEquals(a, b)
    ensures HashCode(a) == HashCode(b)
  {
  }

  // ---------------------------------------------------------------------
  // The hash as a polynomial

  /** Two integers that agree modulo 2^32 reduce to the same `int`. */
  lemma Int32Congruent(x: int, y: int, k: int)
    requires x - y == k * TWO_POW_32
    ensures Int32(x) == Int32(y)
  {
  }

  /**
   * Wrapping after every step of `h = 31 * h + c` gives the same `int` as
   * wrapping the exact polynomial once at the end.
   */
  lemma {:induction false} StringHashIsWrappedPolynomial(s: string)
    ensures StringHash(s) == Int32(Polynomial(s))
  {
    if s != [] {
      var p, c := s[..|s| - 1], s[|s| - 1] as int;
      StringHashIsWrappedPolynomial(p);
      var h := StringHash(p);
      var q := (Polynomial(p) - h) / TWO_POW_32;
      assert Polynomial(p) == h + q * TWO_POW_32;
      assert 31 * Polynomial(p) + c - (31 * h + c) == (31 * q) * TWO_POW_32;
      Int32Congruent(31 * Polynomial(p) + c, 31 * h + c, 31 * q);
    }
  }
}
