/**
 * A client of ptr_vector that relies only on the containers' contracts: a
 * worked example, stated as what the caller sees.
 */
module Scenario {
  import opened PtrVec
  import Slots

  /** Start empty; push_back(5), push_back(7). */
  method PushFiveSeven() returns (v: PtrVector<int>)
    ensures fresh(v) && v.Valid() && v.Values() == [5, 7]
  {
    v := new PtrVector<int>();
    v.PushBack(5);
    v.PushBack(7);
  }

  /** insert(begin() + 1, 6) on [5, 7]. */
  method InsertSix(v: PtrVector<int>)
    requires v.Valid() && v.Values() == [5, 7]
    modifies v
    ensures v.Valid() && v.Values() == [5, 6, 7]
  {
    var it := v.Insert(v.Begin().Advance(1), 6);
    Slots.SplicedAt([5, 7], 1, [6]);
    assert v.Values()[0] == 5 && v.Values()[1] == 6 && v.Values()[2] == 7;
  }

  /** erase(begin()) on [5, 6, 7]. */
  method EraseFirst(v: PtrVector<int>)
    requires v.Valid() && v.Values() == [5, 6, 7]
    modifies v
    ensures v.Valid() && v.Values() == [6, 7]
  {
    var it := v.Erase(v.Begin());
    Slots.ErasedAt([5, 6, 7], 0, 1);
    assert v.Values()[0] == 6 && v.Values()[1] == 7;
  }

  /** resize(4, 0) on [6, 7]. */
  method GrowWithZeros(v: PtrVector<int>)
    requires v.Valid() && v.Values() == [6, 7]
    modifies v
    ensures v.Valid() && v.Values() == [6, 7, 0, 0]
  {
    v.Resize(4, 0);
    assert v.Values() == [6, 7] + Slots.Repeat(0, 2);
    assert v.Values()[2] == 0 && v.Values()[3] == 0;
  }

  /**
   * A worked example: start empty; push_back(5), push_back(7),
   * insert(begin() + 1, 6) gives [5, 6, 7]; erase(begin()) gives [6, 7];
   * at(5) is out of range; resize(4, 0) gives [6, 7, 0, 0].
   */
  method InsertEraseResize() returns (afterInsert: seq<int>, afterErase: seq<int>,
                                      probe: Result<Cell<int>>, afterResize: seq<int>)
    ensures afterInsert == [5, 6, 7]
    ensures afterErase == [6, 7]
    ensures probe == Err(OutOfRange)
    ensures afterResize == [6, 7, 0, 0]
  {
    var v := PushFiveSeven();
    InsertSix(v);
    afterInsert := v.Values();
    EraseFirst(v);
    afterErase := v.Values();
    probe := v.At(5);
    GrowWithZeros(v);
    afterResize := v.Values();
  }

  /** Ownership transfer keeps identity: the adopted cell is the last element, not a copy of it. */
  method AdoptKeepsIdentity(v: PtrVector<int>, p: Cell<int>) returns (last: Cell<int>)
    requires v.Valid() && p !in v.slots
    modifies v
    ensures last == p && v.Size() == old(v.Size()) + 1
  {
    v.PushBackOwn(p);
    last := v.Back();
  }
}
