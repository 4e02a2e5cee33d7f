/**
 * The two random-access cursor classes of ptr_vector, `_ptr_vec_itr` (mutable)
 * and `_ptr_vec_const_itr` (read-only). Each wraps one position of the backing
 * vector and does all its arithmetic and comparisons on that position, so a
 * cursor is modelled as an offset from begin() plus the access it grants.
 * Dereference needs the container and lives in module PtrVec.
 */
module Cursors {

  /** Which of the two cursor classes a cursor belongs to. */
  datatype Access = Mutable | ReadOnly

  datatype Cursor = Cursor(index: int, access: Access) {

    /** Number of steps from `rhs` to this cursor (`a - b`, a difference_type). */
    function Distance(rhs: Cursor): (d: int)
      ensures rhs.index + d == index
      ensures d == 0 <==> index == rhs.index
      ensures d > 0 <==> index > rhs.index
    {
      index - rhs.index
    }

    /** The widening conversion from a mutable cursor to a read-only one; there is none back. */
    function AsReadOnly(): (r: Cursor)
      requires access == Mutable
      ensures r.access == ReadOnly && r.Distance(this) == 0
    {
      Cursor(index, ReadOnly)
    }

    /** `++it` (and the position `it++` leaves behind). */
    function Next(): (r: Cursor)
      ensures r.access == access && r.Distance(this) == 1
    {
      Cursor(index + 1, access)
    }

    /** `--it` as it is meant to behave for both cursor classes (and the position `it--` leaves behind). */
    function Prev(): (r: Cursor)
      ensures r.access == access && r.Distance(this) == -1
    {
      Cursor(index - 1, access)
    }

    /**
     * `--it` as the source writes it: the read-only cursor's decrement operators
     * step forward instead of backward.
     */
    function PrevAsWritten(): (r: Cursor)
      ensures access == ReadOnly ==> r.Distance(this) == 1
      ensures access == Mutable ==> r == Prev()
    {
      if access == ReadOnly then Cursor(index + 1, access) else Prev()
    }

    /** `it += n` and `it + n` / `n + it`: `n` steps forward. */
    function Advance(n: nat): (r: Cursor)
      ensures r.access == access && r.Distance(this) == n
    {
      Cursor(index + n, access)
    }

    /** `it -= n` and `it - n`: `n` steps back. */
    function Retreat(n: nat): (r: Cursor)
      ensures r.access == access && this.Distance(r) == n
    {
      Cursor(index - n, access)
    }

    /** `a < b`. */
    function Less(rhs: Cursor): (b: bool)
      ensures b <==> Distance(rhs) < 0
    {
      index < rhs.index
    }

    /** `a > b`. */
    function Greater(rhs: Cursor): (b: bool)
      ensures b <==> Distance(rhs) > 0
    {
      index > rhs.index
    }

    /** `a <= b`, written as the negation of `>`. */
    function LessEq(rhs: Cursor): (b: bool)
      ensures b <==> Distance(rhs) <= 0
      ensures b <==> Less(rhs) || Equal(rhs)
    {
      !Greater(rhs)
    }

    /** `a >= b`, written as the negation of `<`. */
    function GreaterEq(rhs: Cursor): (b: bool)
      ensures b <==> Distance(rhs) >= 0
      ensures b <==> Greater(rhs) || Equal(rhs)
    {
      !Less(rhs)
    }

    /** `a != b`: the two cursors stand at different positions. */
    function NotEqual(rhs: Cursor): (b: bool)
      ensures b <==> Distance(rhs) != 0
    {
      index != rhs.index
    }

    /** `a == b`, written as the negation of `!=`. */
    function Equal(rhs: Cursor): (b: bool)
      ensures b <==> Distance(rhs) == 0
    {
      !NotEqual(rhs)
    }
  }

  /** Decrement undoes increment, and the other way round, for either cursor class. */
  lemma PrevUndoesNext(c: Cursor)
    ensures c.Next().Prev() == c && c.Prev().Next() == c
  {
  }

  /** As written, decrementing a read-only cursor right after incrementing it does not return to it. */
  lemma PrevAsWrittenDoesNotUndoNext(c: Cursor)
    requires c.access == ReadOnly
    ensures c.Next().PrevAsWritten().Distance(c) == 2
    ensures c.Next().PrevAsWritten() != c
  {
  }

  /** `-= n` undoes `+= n`, `+=` composes by adding the offsets, and `+= 1` is `++`. */
  lemma AdvanceRetreat(c: Cursor, m: nat, n: nat)
    ensures c.Advance(n).Retreat(n) == c
    ensures c.Advance(1) == c.Next()
    ensures c.Advance(m).Advance(n) == c.Advance(m + n)
  {
  }

  /** The difference of two cursors counts the steps between them, with a sign for the direction. */
  lemma DistanceMeasuresSteps(a: Cursor, b: Cursor)
    ensures a.Distance(b) == -b.Distance(a)
    ensures a.Distance(b) >= 0 ==> b.Advance(a.Distance(b)).index == a.index
    ensures a.Distance(b) <= 0 ==> b.Retreat(b.Distance(a)).index == a.index
  {
  }

  /** Exactly one of `<`, `==`, `>` holds between two cursors. */
  lemma Trichotomy(a: Cursor, b: Cursor)
    ensures a.Less(b) || a.Equal(b) || a.Greater(b)
    ensures !(a.Less(b) && a.Greater(b))
    ensures a.Equal(b) ==> !a.Less(b) && !a.Greater(b)
    ensures a.Less(b) <==> b.Greater(a)
  {
  }
}
