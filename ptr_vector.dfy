/**
 * ptr_vector<T>: an owning, random-access sequence whose slots are owning
 * handles to heap-allocated elements, but whose accessors and cursors hand out
 * the elements themselves. The backing std::vector of handles is the field
 * `slots`, a sequence of references to heap cells; a cell is one element.
 * Every mutator rewrites `slots` in place and touches nothing but `this`,
 * so elements already owned are never changed by a structural mutation.
 */
module PtrVec {
  import opened Slots
  import opened Cursors

  /** The one recoverable failure: a checked index not below size(). */
  datatype Error = OutOfRange

  datatype Result<R> = Ok(value: R) | Err(error: Error)

  datatype Outcome = Pass | Fail(error: Error)

  /** One heap-allocated element, owned by exactly one slot through a unique_ptr. */
  class Cell<T> {
    var val: T

    constructor (v: T)
      ensures val == v
    {
      val := v;
    }
  }

  /** The element values of a run of cells, in slot order: what iteration yields. */
  function ValuesOf<T>(s: seq<Cell<T>>): (r: seq<T>)
    reads s
    ensures |r| == |s|
    ensures forall i :: 0 <= i < |s| ==> r[i] == s[i].val
  {
    seq(|s|, i reads s requires 0 <= i < |s| => s[i].val)
  }

  /** The values of spliced cells are the spliced values. */
  lemma ValuesOfSpliced<T>(s: seq<Cell<T>>, k: nat, xs: seq<Cell<T>>)
    requires k <= |s|
    ensures ValuesOf(Spliced(s, k, xs)) == Spliced(ValuesOf(s), k, ValuesOf(xs))
  {
    var a := ValuesOf(Spliced(s, k, xs));
    var b := Spliced(ValuesOf(s), k, ValuesOf(xs));
    SplicedAt(s, k, xs);
    SplicedAt(ValuesOf(s), k, ValuesOf(xs));
    forall i | 0 <= i < |a|
      ensures a[i] == b[i]
    {
      if k <= i < k + |xs| {
        assert a[i] == xs[i - k].val;
      } else if k + |xs| <= i {
        assert a[i] == s[i - |xs|].val;
      }
    }
  }

  /** The values of what is left after an erase are the erased values. */
  lemma ValuesOfErased<T>(s: seq<Cell<T>>, first: nat, last: nat)
    requires first <= last <= |s|
    ensures ValuesOf(Erased(s, first, last)) == Erased(ValuesOf(s), first, last)
  {
    var a := ValuesOf(Erased(s, first, last));
    var b := Erased(ValuesOf(s), first, last);
    ErasedAt(s, first, last);
    ErasedAt(ValuesOf(s), first, last);
    forall i | 0 <= i < |a|
      ensures a[i] == b[i]
    {
      if first <= i {
        assert a[i] == s[i + (last - first)].val;
      }
    }
  }

  class PtrVector<T> {
    /** The backing vector of owning handles, slot 0 first. */
    var slots: seq<Cell<T>>

    /** The ownership invariant: no two slots own the same element (and none is null, by type). */
    ghost predicate Valid()
      reads this
      ensures Valid() <==> forall i, j :: 0 <= i < |slots| && 0 <= j < |slots| && slots[i] == slots[j] ==> i == j
    {
      Distinct(slots)
    }

    /** The element values in slot order. */
    function Values(): (r: seq<T>)
      reads this, slots
      ensures |r| == |slots|
      ensures forall i :: 0 <= i < |slots| ==> r[i] == slots[i].val
    {
      ValuesOf(slots)
    }

    /** A cursor position of this container: begin() through end(). */
    predicate IsPosition(c: Cursor)
      reads this
    {
      0 <= c.index <= |slots|
    }

    /** A cursor that stands on an element. */
    predicate IsDereferenceable(c: Cursor)
      reads this
    {
      0 <= c.index < |slots|
    }

    /** An empty container. */
    constructor ()
      ensures Valid() && slots == []
    {
      slots := [];
    }

    /** Move construction: takes over every slot of `sink`, which is left empty; nothing is copied. */
    constructor Moved(sink: PtrVector<T>)
      requires sink.Valid()
      modifies sink
      ensures Valid() && slots == old(sink.slots)
      ensures sink.Valid() && sink.slots == []
    {
      slots := sink.slots;
      new;
      sink.slots := [];
    }

    /** Move assignment: drops the current elements, takes over every slot of `sink`, which is left empty. */
    method MoveAssign(sink: PtrVector<T>)
      requires sink != this && sink.Valid()
      modifies this, sink
      ensures Valid() && slots == old(sink.slots)
      ensures sink.Valid() && sink.slots == []
    {
      slots := sink.slots;
      sink.slots := [];
    }

    // ---------------------------------------------------------------- access

    /** `at(i)`: the element in slot `i`, or an out-of-range error exactly when `i >= size()`. */
    function At(i: nat): (r: Result<Cell<T>>)
      reads this
      ensures r.Err? <==> i >= |slots|
      ensures r.Err? ==> r.error == OutOfRange
      ensures r.Ok? ==> r.value == slots[i]
    {
      if i < |slots| then Ok(slots[i]) else Err(OutOfRange)
    }

    /** `operator[](i)`: unchecked, and the same element `at(i)` gives. */
    function Index(i: nat): (r: Cell<T>)
      requires i < |slots|
      reads this
      ensures At(i) == Ok(r)
    {
      slots[i]
    }

    /** `front()`: the first element, the one begin() stands on. */
    function Front(): (r: Cell<T>)
      requires |slots| > 0
      reads this
      ensures At(0) == Ok(r)
      ensures r == Deref(Begin())
    {
      slots[0]
    }

    /** `back()`: the last element, the one just before end(). */
    function Back(): (r: Cell<T>)
      requires |slots| > 0
      reads this
      ensures At(|slots| - 1) == Ok(r)
      ensures r == Deref(End().Prev())
    {
      slots[|slots| - 1]
    }

    /** `size()`: the distance from begin() to end(). */
    function Size(): (n: nat)
      reads this
      ensures n == End().Distance(Begin())
      ensures n == |Values()|
    {
      |slots|
    }

    /** `empty()`: begin() equals end(). */
    function Empty(): (b: bool)
      reads this
      ensures b <==> Size() == 0
      ensures b <==> Begin().Equal(End())
    {
      |slots| == 0
    }

    // ---------------------------------------------------------------- cursors

    /** `begin()`: the least position, standing on the first element if there is one. */
    function Begin(): (r: Cursor)
      reads this
      ensures r.access == Mutable && IsPosition(r)
      ensures forall c :: IsPosition(c) ==> r.LessEq(c)
    {
      Cursor(0, Mutable)
    }

    /** `end()`: the greatest position, standing on no element. */
    function End(): (r: Cursor)
      reads this
      ensures r.access == Mutable && IsPosition(r) && !IsDereferenceable(r)
      ensures forall c :: IsPosition(c) ==> c.LessEq(r)
    {
      Cursor(|slots|, Mutable)
    }

    /** `cbegin()` (and `begin() const`): begin() widened to a read-only cursor. */
    function CBegin(): (r: Cursor)
      reads this
      ensures r == Begin().AsReadOnly()
    {
      Cursor(0, ReadOnly)
    }

    /** `cend()` (and `end() const`): end() widened to a read-only cursor. */
    function CEnd(): (r: Cursor)
      reads this
      ensures r == End().AsReadOnly()
    {
      Cursor(|slots|, ReadOnly)
    }

    /** `*it` (and `it->`): the element the cursor stands on, never its handle. */
    function Deref(c: Cursor): (r: Cell<T>)
      requires IsDereferenceable(c)
      reads this
      ensures At(c.index) == Ok(r)
    {
      slots[c.index]
    }

    /** `it[n]`: the element `n` steps after the cursor. */
    function Subscript(c: Cursor, n: nat): (r: Cell<T>)
      requires IsDereferenceable(c.Advance(n))
      reads this
      ensures r == Deref(c.Advance(n))
    {
      slots[c.index + n]
    }

    /** Walking from begin() to end() meets every element once, in slot order. */
    lemma IterationYieldsElements()
      ensures Begin().Advance(Size()) == End()
      ensures forall i: nat :: i < Size() ==> Deref(Begin().Advance(i)) == Index(i)
      ensures forall i: nat :: i < Size() ==> Values()[i] == Index(i).val
    {
    }

    // ---------------------------------------------------------------- mutators

    /** `clear()`: every element is dropped. */
    method Clear()
      requires Valid()
      modifies this
      ensures Valid() && slots == []
    {
      slots := [];
    }

    /**
     * `insert(pos, value)`: a fresh copy of `value` goes in at pos's index; the
     * prefix stays, the suffix moves right by one; the result stands on the copy.
     */
    method Insert(pos: Cursor, value: T) returns (r: Cursor)
      requires Valid() && IsPosition(pos)
      modifies this
      ensures Valid()
      ensures |slots| == |old(slots)| + 1
      ensures fresh(slots[pos.index]) && slots[pos.index].val == value
      ensures slots == Spliced(old(slots), pos.index, [slots[pos.index]])
      ensures Values() == Spliced(old(Values()), pos.index, [value])
      ensures r == Cursor(pos.index, Mutable)
    {
      var c := new Cell(value);
      SplicePreservesDistinct(slots, pos.index, [c]);
      ValuesOfSpliced(slots, pos.index, [c]);
      slots := Spliced(slots, pos.index, [c]);
      r := Cursor(pos.index, Mutable);
    }

    /** `emplace(pos, args...)`: like insert, but the new element is constructed from `args`. */
    method Emplace<A>(pos: Cursor, make: A -> T, args: A) returns (r: Cursor)
      requires Valid() && IsPosition(pos) && pos.access == Mutable
      modifies this
      ensures Valid()
      ensures |slots| == |old(slots)| + 1
      ensures fresh(slots[pos.index]) && slots[pos.index].val == make(args)
      ensures slots == Spliced(old(slots), pos.index, [slots[pos.index]])
      ensures Values() == Spliced(old(Values()), pos.index, [make(args)])
      ensures r == pos
    {
      var c := new Cell(make(args));
      SplicePreservesDistinct(slots, pos.index, [c]);
      ValuesOfSpliced(slots, pos.index, [c]);
      slots := Spliced(slots, pos.index, [c]);
      r := Cursor(pos.index, Mutable);
    }

    /**
     * `insert(pos, count, value)`: `count` fresh copies of `value` go in at pos's
     * index, by inserting one copy at a time at that same index; the other
     * elements keep their order; the result is a mutable cursor at pos's index.
     */
    method InsertCopies(pos: Cursor, count: nat, value: T) returns (r: Cursor)
      requires Valid() && IsPosition(pos)
      modifies this
      ensures Valid()
      ensures |slots| == |old(slots)| + count
      ensures slots == Spliced(old(slots), pos.index, slots[pos.index..pos.index + count])
      ensures forall j :: pos.index <= j < pos.index + count ==> fresh(slots[j]) && slots[j].val == value
      ensures Values() == Spliced(old(Values()), pos.index, Repeat(value, count))
      ensures r == Cursor(pos.index, Mutable)
    {
      var k := pos.index;
      var it := Begin().Advance(k);
      var n: nat := 0;
      ghost var added: seq<Cell<T>> := [];
      while n != count
        invariant n <= count && |added| == n
        invariant Valid() && it == Cursor(k, Mutable)
        invariant slots == Spliced(old(slots), k, added)
        invariant forall j :: 0 <= j < n ==> fresh(added[j]) && added[j].val == value
        invariant Values() == Spliced(old(Values()), k, Repeat(value, n))
      {
        it := Insert(it, value);
        ghost var c := slots[k];
        assert Values() == Spliced(Spliced(old(Values()), k, Repeat(value, n)), k, [value]);
        SpliceTwiceAtSameIndex(old(slots), k, added, [c]);
        SpliceTwiceAtSameIndex(old(Values()), k, Repeat(value, n), [value]);
        RepeatCons(value, n);
        added := [c] + added;
        n := n + 1;
      }
      assert slots[k..k + count] == added;
      r := it;
    }

    /**
     * `erase(pos)`: the element at pos's index is dropped and the later slots
     * move left; the result stands where the element was.
     */
    method Erase(pos: Cursor) returns (r: Cursor)
      requires Valid() && IsDereferenceable(pos)
      modifies this
      ensures Valid()
      ensures slots == Erased(old(slots), pos.index, pos.index + 1)
      ensures Values() == Erased(old(Values()), pos.index, pos.index + 1)
      ensures r == Cursor(pos.index, Mutable)
    {
      ErasePreservesDistinct(slots, pos.index, pos.index + 1);
      ValuesOfErased(slots, pos.index, pos.index + 1);
      slots := Erased(slots, pos.index, pos.index + 1);
      r := Cursor(pos.index, Mutable);
    }

    /**
     * `erase(first, last)`: the elements in the half-open range are dropped and
     * the later slots move left; the result stands at first's index.
     */
    method EraseRange(first: Cursor, last: Cursor) returns (r: Cursor)
      requires Valid() && IsPosition(first) && IsPosition(last) && first.LessEq(last)
      modifies this
      ensures Valid()
      ensures slots == Erased(old(slots), first.index, last.index)
      ensures Values() == Erased(old(Values()), first.index, last.index)
      ensures r == Cursor(first.index, Mutable)
    {
      ErasePreservesDistinct(slots, first.index, last.index);
      ValuesOfErased(slots, first.index, last.index);
      slots := Erased(slots, first.index, last.index);
      r := Cursor(first.index, Mutable);
    }

    /** `push_back(value)`: a fresh copy of `value` becomes the last element. */
    method PushBack(value: T)
      requires Valid()
      modifies this
      ensures Valid()
      ensures |slots| == |old(slots)| + 1 && slots[..|old(slots)|] == old(slots)
      ensures fresh(slots[|old(slots)|]) && slots[|old(slots)|].val == value
      ensures Values() == old(Values()) + [value]
    {
      var c := new Cell(value);
      SplicePreservesDistinct(slots, |slots|, [c]);
      ValuesOfSpliced(slots, |slots|, [c]);
      slots := slots + [c];
    }

    /** `emplace_back(args...)`: an element constructed from `args` becomes the last element. */
    method EmplaceBack<A>(make: A -> T, args: A)
      requires Valid()
      modifies this
      ensures Valid()
      ensures |slots| == |old(slots)| + 1 && slots[..|old(slots)|] == old(slots)
      ensures fresh(slots[|old(slots)|]) && slots[|old(slots)|].val == make(args)
      ensures Values() == old(Values()) + [make(args)]
    {
      var c := new Cell(make(args));
      SplicePreservesDistinct(slots, |slots|, [c]);
      ValuesOfSpliced(slots, |slots|, [c]);
      slots := slots + [c];
    }

    /** `pop_back()`: the last element is dropped (undefined on an empty container). */
    method PopBack()
      requires Valid() && |slots| > 0
      modifies this
      ensures Valid()
      ensures slots == old(slots)[..|old(slots)| - 1]
      ensures Values() == old(Values())[..|old(slots)| - 1]
    {
      ErasePreservesDistinct(slots, |slots| - 1, |slots|);
      ValuesOfErased(slots, |slots| - 1, |slots|);
      slots := slots[..|slots| - 1];
    }

    /**
     * `resize(count, value)`: pops from the back while there are more than
     * `count` elements, otherwise pushes fresh copies of `value` until there are
     * `count`; the first min(count, size) slots are untouched.
     */
    method Resize(count: nat, value: T)
      requires Valid()
      modifies this
      ensures Valid() && |slots| == count
      ensures count <= |old(slots)| ==> slots == old(slots)[..count]
      ensures count >= |old(slots)| ==> slots[..|old(slots)|] == old(slots)
      ensures forall j :: |old(slots)| <= j < count ==> fresh(slots[j]) && slots[j].val == value
      ensures Values() == if count <= |old(slots)| then old(Values())[..count]
                          else old(Values()) + Repeat(value, count - |old(slots)|)
    {
      if |slots| > count {
        var n: nat := |slots| - count;
        while n != 0
          invariant Valid() && slots == old(slots)[..count + n]
          invariant Values() == old(Values())[..count + n]
        {
          PopBack();
          n := n - 1;
        }
      } else {
        var n: nat := count - |slots|;
        ghost var added: seq<Cell<T>> := [];
        while n != 0
          invariant Valid() && slots == old(slots) + added
          invariant |added| + n == count - |old(slots)|
          invariant forall j :: 0 <= j < |added| ==> fresh(added[j]) && added[j].val == value
          invariant Values() == old(Values()) + Repeat(value, |added|)
        {
          PushBack(value);
          added := added + [slots[|slots| - 1]];
          n := n - 1;
        }
      }
    }

    /** `swap(other)`: the two containers exchange their whole slot sequences; no element is built or dropped. */
    method Swap(other: PtrVector<T>)
      requires Valid() && other.Valid()
      modifies this, other
      ensures Valid() && other.Valid()
      ensures slots == old(other.slots) && other.slots == old(slots)
    {
      slots, other.slots := other.slots, slots;
    }

    /**
     * `reset_at(pos, value)`: bounds-checked like at(); on success only slot
     * `pos` changes, to a fresh copy of `value`; on failure nothing changes.
     */
    method ResetAt(pos: nat, value: T) returns (o: Outcome)
      requires Valid()
      modifies this
      ensures Valid() && |slots| == |old(slots)|
      ensures o.Fail? <==> pos >= |old(slots)|
      ensures o.Fail? ==> o.error == OutOfRange && slots == old(slots)
      ensures o.Pass? ==> fresh(slots[pos]) && slots[pos].val == value && slots == old(slots)[pos := slots[pos]]
      ensures Values() == if o.Pass? then old(Values())[pos := value] else old(Values())
    {
      if pos >= |slots| {
        return Fail(OutOfRange);
      }
      var c := new Cell(value);
      ReplacePreservesDistinct(slots, pos, c);
      slots := slots[pos := c];
      o := Pass;
    }

    /** `emplace_reset_at(pos, args...)`: reset_at with the element constructed from `args`. */
    method EmplaceResetAt<A>(pos: nat, make: A -> T, args: A) returns (o: Outcome)
      requires Valid()
      modifies this
      ensures Valid() && |slots| == |old(slots)|
      ensures o.Fail? <==> pos >= |old(slots)|
      ensures o.Fail? ==> o.error == OutOfRange && slots == old(slots)
      ensures o.Pass? ==> fresh(slots[pos]) && slots[pos].val == make(args) && slots == old(slots)[pos := slots[pos]]
      ensures Values() == if o.Pass? then old(Values())[pos := make(args)] else old(Values())
    {
      if pos >= |slots| {
        return Fail(OutOfRange);
      }
      var c := new Cell(make(args));
      ReplacePreservesDistinct(slots, pos, c);
      slots := slots[pos := c];
      o := Pass;
    }

    /**
     * `push_back_own(p)`: takes ownership of the caller's element without
     * copying; a null pointer is a no-op.
     */
    method PushBackOwn(p: Cell?<T>)
      requires Valid() && p !in slots
      modifies this
      ensures Valid()
      ensures p == null ==> slots == old(slots)
      ensures p != null ==> slots == old(slots) + [p]
      ensures Values() == if p == null then old(Values()) else old(Values()) + [p.val]
    {
      if p != null {
        SplicePreservesDistinct(slots, |slots|, [p]);
        ValuesOfSpliced(slots, |slots|, [p]);
        slots := slots + [p];
      }
    }

    /**
     * `insert_own(itr, p)`: takes ownership of the caller's element at itr's
     * index without copying; a null pointer is a no-op. Either way the result
     * is a mutable cursor at itr's index.
     */
    method InsertOwn(itr: Cursor, p: Cell?<T>) returns (r: Cursor)
      requires Valid() && IsPosition(itr) && itr.access == Mutable && p !in slots
      modifies this
      ensures Valid()
      ensures p == null ==> slots == old(slots)
      ensures p != null ==> slots == Spliced(old(slots), itr.index, [p])
      ensures Values() == if p == null then old(Values()) else Spliced(old(Values()), itr.index, [p.val])
      ensures r == itr
    {
      if p != null {
        SplicePreservesDistinct(slots, itr.index, [p]);
        ValuesOfSpliced(slots, itr.index, [p]);
        slots := Spliced(slots, itr.index, [p]);
      }
      r := itr;
    }
  }
}
