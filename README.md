# ptr_vector in Dafny

This project models `ptr_vec::ptr_vector<T>`. It is an owning, random-access sequence. Each slot is an owning handle (`std::unique_ptr<T>`) to one heap-allocated element, but indexing and the cursors hand out the element itself, never the handle. Two cursor classes come with it: `_ptr_vec_itr` (mutable) and `_ptr_vec_const_itr` (read-only).

The model has four modules:

- `Slots` (slots.dfy) gives the pure effect of every rewrite of the backing vector: splice a run in at an index (`Spliced`), cut a half-open range out (`Erased`), and `n` copies of a value (`Repeat`). Its lemmas prove that these rewrites keep the ownership invariant `Distinct` ("no two slots share an element"), that erase undoes insert, and that repeated insertion at one index composes.
- `Cursors` (cursors.dfy) models both cursor classes as one value type `Cursor(index, access)`. `access` is `Mutable` or `ReadOnly`, and the only conversion is the widening `AsReadOnly`. Increment, decrement, `+=`, `-=`, `+`, difference and the six comparisons are arithmetic on the index.
- `PtrVec` (ptr_vector.dfy) holds two classes. `Cell<T>` is one heap element. `PtrVector<T>` keeps the backing vector as the field `slots: seq<Cell<T>>`, which every mutator reassigns in place. The slot type is the non-null `Cell<T>`, so a slot is never null. `Valid()` is the rest of the ownership invariant: the slots are pairwise distinct. No mutator modifies a `Cell`: the container operations modify only the container (`Swap`, `MoveAssign` and the constructor `Moved` also modify the other container), so an element already in the container is never changed by a structural mutation. Every element a mutator creates is `fresh`. Each mutator states the new slot sequence by identity in terms of the old one, and the new element values (`Values()`, what iteration yields) in terms of the old values.
- `Scenario` (scenario.dfy) is a client that uses only the contracts. It performs a worked example, push_back 5, push_back 7, insert 6 at begin()+1, erase begin(), at(5), resize(4, 0), one step per method, and proves the values after each step. It also proves that push_back_own keeps the adopted element's identity.

The `U`-templated overloads and the copy/move overloads each collapse into one method. A subtype element is just another fresh cell. `emplace`, `emplace_back` and `emplace_reset_at` take a constructor function `make` and its arguments `args` in place of a parameter pack.

Where the code does not do what it evidently intends, the model states its choice:

- `insert_own` (ptr_vector.hpp:179, 181) returns nothing on either path, although it is declared to return an iterator. With a non-null element it inserts it and builds an iterator that it then discards; with null the `if` skips everything, so nothing is built. `InsertOwn` returns a mutable cursor at `itr`'s index on both paths. On success the adopted element stands there; on the null no-op the result is `itr` itself.
- `swap` (ptr_vector.hpp:160) passes a `ptr_vector` where `std::vector::swap` expects a `std::vector`, so it does not compile when called. `Swap` models the intended exchange of the two slot sequences.
- The read-only cursor's `operator!=` (ptr_vector.hpp:259) reads `rhs._itr`, a member the read-only cursor does not have, so it does not compile when called. Its `operator==` (ptr_vector.hpp:260) is built on that `!=`, so it does not compile when called either. `NotEqual` and `Equal` model the intended comparison of positions.
- The mutable cursor's `operator-=` (ptr_vector.hpp:215) adds the unsigned negation of `n`. `Retreat` models it as subtracting `n`.

## Model

| member | source | states |
|---|---|---|
| `Slots.Spliced` | ptr_vector.hpp:80-90 | inserting a run of slots at an index grows the vector by the run's length |
| `Slots.SplicedAt` | ptr_vector.hpp:80-90 | after inserting at index k, slots before k are unchanged, the run occupies k.., and the old suffix sits shifted right by the run's length |
| `Slots.Erased` | ptr_vector.hpp:113-116 | erasing [first, last) shrinks the vector by last - first |
| `Slots.ErasedAt` | ptr_vector.hpp:113-116 | after erasing [first, last), slots before first are unchanged and each later slot sits last - first places further left |
| `Slots.Repeat` | ptr_vector.hpp:92-106 | `n` copies of a value: length `n`, every entry that value |
| `Slots.SplicePreservesDistinct` | ptr_vector.hpp:80-90 | inserting elements that are pairwise distinct and not already owned keeps every slot's element unique |
| `Slots.ErasePreservesDistinct` | ptr_vector.hpp:113-116 | erasing any range keeps every slot's element unique |
| `Slots.ReplacePreservesDistinct` | ptr_vector.hpp:162-173 | replacing one slot with an element not already owned keeps every slot's element unique |
| `Slots.EraseUndoesSplice` | ptr_vector.hpp:80-116 | erasing exactly the range just inserted restores the original slot sequence (erase is the inverse of insert) |
| `Slots.SpliceTwiceAtSameIndex` | ptr_vector.hpp:94-96 | inserting at the same index twice puts the later run in front of the earlier one, as one combined insertion |
| `Slots.RepeatCons` | ptr_vector.hpp:94-96 | one more copy in front of `n` copies is `n + 1` copies |
| `PtrVec.ValuesOf` | ptr_vector.hpp:203-204 | dereferencing every handle in slot order gives one value per slot, slot `i` giving its element's value |
| `PtrVec.ValuesOfSpliced` | ptr_vector.hpp:80-90 | the values after inserting cells are the old values with the new cells' values inserted at the same index |
| `PtrVec.ValuesOfErased` | ptr_vector.hpp:113-116 | the values after erasing a range of cells are the old values with the same range erased |
| `PtrVec.PtrVector.Valid` | ptr_vector.hpp:12 | the ownership invariant of the vector of `unique_ptr`s: no two slots own the same element, i.e. an element is found at exactly one slot |
| `PtrVec.PtrVector.Values` | ptr_vector.hpp:203 | the element values the owned handles point to, one per slot, in slot order |
| `PtrVec.PtrVector.constructor` | ptr_vector.hpp:28 | a new container is empty and valid |
| `PtrVec.PtrVector.Moved` | ptr_vector.hpp:30 | move construction takes over exactly the source's slots, elements by identity, and leaves the source empty |
| `PtrVec.PtrVector.MoveAssign` | ptr_vector.hpp:39 | move assignment replaces the slots with exactly the source's slots and leaves the source empty |
| `PtrVec.PtrVector.At` | ptr_vector.hpp:47-48 | at(i) fails with out-of-range exactly when i >= size(); otherwise it returns the element owned by slot i |
| `PtrVec.PtrVector.Index` | ptr_vector.hpp:50-51 | operator[] returns the same element as at(i) for every valid i |
| `PtrVec.PtrVector.Front` | ptr_vector.hpp:55-56 | front() of a non-empty container is at(0) and the element begin() stands on |
| `PtrVec.PtrVector.Back` | ptr_vector.hpp:53-54 | back() of a non-empty container is at(size()-1) and the element one step before end() |
| `PtrVec.PtrVector.Size` | ptr_vector.hpp:72 | size() is the distance from begin() to end() and the number of values iteration yields |
| `PtrVec.PtrVector.Empty` | ptr_vector.hpp:71 | empty() holds exactly when size() is 0, exactly when begin() equals end() |
| `PtrVec.PtrVector.Begin` | ptr_vector.hpp:58 | begin() is a mutable cursor at the least valid position |
| `PtrVec.PtrVector.End` | ptr_vector.hpp:59 | end() is a mutable cursor at the greatest valid position and stands on no element |
| `PtrVec.PtrVector.CBegin` | ptr_vector.hpp:62 | cbegin() is begin() widened to a read-only cursor |
| `PtrVec.PtrVector.CEnd` | ptr_vector.hpp:63 | cend() is end() widened to a read-only cursor |
| `PtrVec.PtrVector.Deref` | ptr_vector.hpp:203-204 | dereferencing a cursor yields the element (not the handle) that at() gives for its index |
| `PtrVec.PtrVector.Subscript` | ptr_vector.hpp:218 | it[n] is the element the cursor n steps ahead stands on |
| `PtrVec.PtrVector.IterationYieldsElements` | ptr_vector.hpp:58-63 | advancing begin() by size() reaches end(), and position i on the way yields slot i's element and value |
| `PtrVec.PtrVector.Clear` | ptr_vector.hpp:78 | clear() leaves no slots |
| `PtrVec.PtrVector.Insert` | ptr_vector.hpp:80-90 | insert adds one slot holding a fresh copy of the value at pos's index, keeps the prefix, shifts the suffix right, and returns a cursor at that index |
| `PtrVec.PtrVector.Emplace` | ptr_vector.hpp:108-111 | emplace adds one slot at pos's index holding a fresh element built from the arguments, shifts the suffix right, and returns a cursor at that index |
| `PtrVec.PtrVector.InsertCopies` | ptr_vector.hpp:92-106 | inserting count copies adds exactly count fresh copies at pos's index, keeps the other elements in order, and returns a cursor at pos's index (pos's own index when count is 0) |
| `PtrVec.PtrVector.Erase` | ptr_vector.hpp:113-114 | erase(pos) removes exactly slot pos, shifts later slots left, and returns a cursor at pos's index |
| `PtrVec.PtrVector.EraseRange` | ptr_vector.hpp:115-116 | erase(first, last) removes exactly the half-open range, shifts later slots left, and returns a cursor at first's index |
| `PtrVec.PtrVector.PushBack` | ptr_vector.hpp:118-124 | push_back appends one slot holding a fresh copy of the value and leaves every other slot alone |
| `PtrVec.PtrVector.EmplaceBack` | ptr_vector.hpp:126-129 | emplace_back appends one slot holding a fresh element built from the arguments |
| `PtrVec.PtrVector.PopBack` | ptr_vector.hpp:131 | pop_back removes exactly the last slot |
| `PtrVec.PtrVector.Resize` | ptr_vector.hpp:133-158 | resize always ends with size() == count; shrinking keeps the first count slots; growing keeps the old slots and appends count - size() fresh copies of the value; equal size changes nothing |
| `PtrVec.PtrVector.Swap` | ptr_vector.hpp:160 | swap exchanges the two containers' slot sequences without building or dropping any element |
| `PtrVec.PtrVector.ResetAt` | ptr_vector.hpp:162-168 | reset_at is bounds-checked like at(); on success only slot pos changes, to a fresh copy of the value, and the size stays; on failure nothing changes |
| `PtrVec.PtrVector.EmplaceResetAt` | ptr_vector.hpp:170-173 | emplace_reset_at is bounds-checked like at(); on success only slot pos changes, to a fresh element built from the arguments |
| `PtrVec.PtrVector.PushBackOwn` | ptr_vector.hpp:175-177 | push_back_own of null changes nothing; otherwise it appends a slot holding exactly that element, by identity, not a copy |
| `PtrVec.PtrVector.InsertOwn` | ptr_vector.hpp:179-181 | insert_own of null changes nothing; otherwise it inserts a slot holding exactly that element at itr's index |
| `Cursors.Cursor.Distance` | ptr_vector.hpp:217 | `a - b` is the number of steps that carries b onto a: zero exactly when they coincide, positive exactly when a stands after b |
| `Cursors.Cursor.AsReadOnly` | ptr_vector.hpp:251 | a mutable cursor widens to a read-only cursor at the same position |
| `Cursors.Cursor.Next` | ptr_vector.hpp:206-207 | increment moves one step forward and keeps the cursor's class |
| `Cursors.Cursor.Prev` | ptr_vector.hpp:211-212 | decrement moves one step back and keeps the cursor's class |
| `Cursors.Cursor.PrevAsWritten` | ptr_vector.hpp:262-263 | the read-only cursor's decrement, as written, moves one step forward |
| `Cursors.Cursor.Advance` | ptr_vector.hpp:225-233 | it + n, n + it and += n move n steps forward |
| `Cursors.Cursor.Retreat` | ptr_vector.hpp:215-216 | it - n and -= n move n steps back |
| `Cursors.Cursor.Less` | ptr_vector.hpp:219 | a < b exactly when a stands before b |
| `Cursors.Cursor.Greater` | ptr_vector.hpp:220 | a > b exactly when a stands after b |
| `Cursors.Cursor.LessEq` | ptr_vector.hpp:221 | a <= b, the negation of >, holds exactly when a < b or a == b |
| `Cursors.Cursor.GreaterEq` | ptr_vector.hpp:222 | a >= b, the negation of <, holds exactly when a > b or a == b |
| `Cursors.Cursor.NotEqual` | ptr_vector.hpp:208 | a != b exactly when the two positions differ |
| `Cursors.Cursor.Equal` | ptr_vector.hpp:209 | a == b, the negation of !=, holds exactly when the positions coincide |
| `Cursors.PrevUndoesNext` | ptr_vector.hpp:206-212 | decrement undoes increment and increment undoes decrement |
| `Cursors.PrevAsWrittenDoesNotUndoNext` | ptr_vector.hpp:257-263 | on a read-only cursor, the as-written decrement after an increment ends two steps ahead instead of where it began |
| `Cursors.AdvanceRetreat` | ptr_vector.hpp:214-216 | -= n undoes += n, two advances add their offsets, and += 1 is ++ |
| `Cursors.DistanceMeasuresSteps` | ptr_vector.hpp:217 | the difference of two cursors is antisymmetric and is the number of steps that carries one onto the other |
| `Cursors.Trichotomy` | ptr_vector.hpp:219-222 | exactly one of <, ==, > holds, and a < b exactly when b > a |
| `Scenario.PushFiveSeven` | ptr_vector.hpp:118 | push_back(5) then push_back(7) on an empty container gives [5, 7] |
| `Scenario.InsertSix` | ptr_vector.hpp:80 | insert(begin() + 1, 6) on [5, 7] gives [5, 6, 7] |
| `Scenario.EraseFirst` | ptr_vector.hpp:113 | erase(begin()) on [5, 6, 7] gives [6, 7] |
| `Scenario.GrowWithZeros` | ptr_vector.hpp:133-144 | resize(4, 0) on [6, 7] gives [6, 7, 0, 0] |
| `Scenario.InsertEraseResize` | ptr_vector.hpp:80-158 | push_back 5, push_back 7, insert 6 at begin()+1 gives [5,6,7]; erase(begin()) gives [6,7]; at(5) is out of range; resize(4, 0) gives [6,7,0,0] |
| `Scenario.AdoptKeepsIdentity` | ptr_vector.hpp:175-177 | after push_back_own(p) the last element is p itself and the size grew by one |

## Findings

| source | as written | input that shows it | evidently intended | confidence | as-written member | corrected member |
|---|---|---|---|---|---|---|
| ptr_vector.hpp:262-263 | the read-only cursor's `operator--` (pre and post) does `++_citr` | any read-only cursor `c`: `--(++c)` ends two steps past `c` | step one position back, as the mutable cursor's `operator--` does (ptr_vector.hpp:211-212) | high, not executed | `Cursors.Cursor.PrevAsWritten` (with `Cursors.PrevAsWrittenDoesNotUndoNext`) | `Cursors.Cursor.Prev` (with `Cursors.PrevUndoesNext`) |

## Left out

- The allocator parameter, `reserve`, `capacity` and `shrink_to_fit` (ptr_vector.hpp:10, 74-76) are growth-policy details of `std::vector` with no logical effect.
- Reverse iterators (ptr_vector.hpp:25-26, 64-69) are standard `std::reverse_iterator` adaptors over the cursors.
- The deleted copy constructor and copy assignments (ptr_vector.hpp:29, 33, 38, 42) define no behaviour.
- The converting move constructor and move assignment from `ptr_vector<U>` (ptr_vector.hpp:36, 45) pass a `ptr_vector` where a `std::vector` is expected, so they do not compile when called.
- Deallocation is not modelled. A dropped element is a cell no slot refers to any more, so "destroyed exactly once" is not tracked. Allocation failure is not modelled.
- Cursor invalidation is not modelled. A cursor is a position, not a reference into the current buffer.
- Post-increment and post-decrement return a copy of the cursor before the step. The model's datatype cursors are values, so that copy is the cursor itself, and `Next`/`Prev` give the position after the step.
- The model does not check that an element is owned by only one container. `PushBackOwn` and `InsertOwn` require only that the adopted element is not already in this container.
- Mixed cursor operations are looser than in the code. The cursor operators (ptr_vector.hpp:208-222, 259-273) take a cursor of their own class, so only the read-only-on-the-left form of a mixed comparison or difference compiles, through the conversion at ptr_vector.hpp:251; `it < cit` and `it - cit` do not. The model's single `Cursor` type accepts either order.
- Indices and sizes are unbounded integers. The 64-bit `size_t` width is not modelled.
- Cursors.Cursor.Retreat: the mutable cursor's `operator-=` (ptr_vector.hpp:215) adds the unsigned negation of `n`. It is modelled as plain subtraction of `n`, which is what that wrap-around amounts to on two's-complement targets.
- PtrVec.PtrVector.MoveAssign: requires the source to be a different container. The result of self-move-assignment of a `std::vector` is unspecified.
- PtrVec.PtrVector.EmplaceBack: `emplace_back` builds its element with braces (ptr_vector.hpp:127), while `emplace` (ptr_vector.hpp:109) and `emplace_reset_at` (ptr_vector.hpp:171) use parentheses. For some types the same arguments build different elements: for `std::vector<int>` and arguments (3, 4), braces give {3, 4} and parentheses give three 4s. The model abstracts the construction form into the caller's `make`, so it does not distinguish the two forms.
