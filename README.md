# Advanced vector: a verified model

This project models `advanced-vector/vector.h`, a hand-written dynamic array built in two layers:

- `RawMemory<T>` owns a block of uninitialised memory sized for `capacity` elements. It allocates nothing when the capacity is 0. It can be moved from and swapped, and it never constructs or destroys an element itself.
- `Vector<T>` owns one `RawMemory<T>` and a `size_`. Slots `[0, size_)` hold live elements and the rest of the block is raw memory.

The model keeps the source's imperative form:

- `Memory.RawMemory` is a class whose `buffer` is a nullable `array<Option<T>>`. The buffer is null exactly when the capacity is 0, as the source's `nullptr`.
- A slot is `None` while it is raw memory and `Some(v)` while it holds the live element `v`. Placement-new fills a raw slot and a destructor call empties a live one.
- `Vectors.Vector` is a class with the fields `data` and `size`. Its methods change the block in place: the left shift of `Erase`, the backward shift of the non-reallocating insertion, and the element transfer loops.
- Each method is proved against the abstract view of the vector. That view is its element sequence `Elements()` and its slot sequence. The invariant `Valid()` says the live slots are exactly the prefix `[0, size)`, and it implies `size <= capacity`.

The specification functions are:

- `Slots`: slot sequences.
- `Edits`: what insertion, erasure and resizing do to a sequence.
- `Growth`: the capacity policy.

`Lifetime` holds the standard uninitialised-memory algorithms that the source calls (`uninitialized_copy_n`, `uninitialized_move_n`, `uninitialized_value_construct_n`, `copy`, `destroy_n`, `move`, `move_backward`) as loops over slots. `Scenarios` is verified client code. It uses only the contracts of `Vector`.

Positions (iterators in the source, which are raw pointers) are indices. The value-initialised element `T()` that `Resize` and the sized constructor build is passed in as the parameter `value`. The source's debug-only `assert`s are `requires` clauses. A variadic emplacement takes the finished element `value`.

How the code behaves at its edges, as the model states it:

- An insertion into a full vector grows the capacity to `size_ * 2`, or 1 when `size_` is 0.
- `Resize` growing within the capacity constructs nothing (see Findings).
- Move assignment is a swap. The source keeps the target's old elements, so it is not emptied.
- `Erase` only asserts `size_ > 0`. The position must also be below `size_`, or the shift reads past the end, so the model requires both.

## Model

| member | source | states |
|---|---|---|
| `Memory.RawMemory.constructor` | advanced-vector/vector.h:16 | allocates `capacity` raw slots, none constructed, and a null buffer exactly when `capacity` is 0 |
| `Memory.RawMemory.Empty` | advanced-vector/vector.h:14 | the default owner has no buffer and capacity 0 |
| `Memory.RawMemory.MoveFrom` | advanced-vector/vector.h:24-25 | takes over the other owner's buffer and capacity without copying; the other owner is left with a null buffer and capacity 0 |
| `Memory.RawMemory.Swap` | advanced-vector/vector.h:43-46 | exchanges buffers and capacities; both owners stay well formed |
| `Memory.RawMemory.Slot` | advanced-vector/vector.h:38-41 | a slot can only be named below the capacity (`index < capacity`), and it need not hold a live element |
| `Memory.RawMemory.Offset` | advanced-vector/vector.h:29-32 | a position may be formed up to one past the last slot (`offset <= capacity`); below the capacity it denotes a real slot |
| `Memory.RawMemory.Allocate` | advanced-vector/vector.h:58 | a zero request allocates nothing (null); any other request yields a fresh block of exactly `n` raw slots |
| `Slots.Filled` | advanced-vector/vector.h:219-220 | the block with `s` in its live prefix satisfies the container invariant, and reading its live prefix gives `s` back |
| `Slots.FilledLive` | advanced-vector/vector.h:219-220 | any block satisfying the invariant is determined by its live elements and capacity, so `Elements()` plus `Capacity()` is a faithful abstraction |
| `Slots.RawSlotsPastPrefix` | advanced-vector/vector.h:130-138 | raising the size above the live prefix without constructing leaves slots `[old size, n)` raw, so the invariant fails |
| `Lifetime.UninitializedCopyN` | advanced-vector/vector.h:182-184 | the `count` live source slots are constructed, in order, into raw target slots; no other target slot and no source slot changes (also lines 82, 116-118 and 273-275, where a move leaves the same value) |
| `Lifetime.CopyN` | advanced-vector/vector.h:178-180 | the `count` live target slots are assigned the live source values in order; nothing else changes (also lines 187-189) |
| `Lifetime.DestroyN` | advanced-vector/vector.h:121 | exactly the `count` live slots from `start` become raw; nothing else changes (also lines 128, 191-192 and 277) |
| `Lifetime.ValueConstructN` | advanced-vector/vector.h:134 | exactly the `count` raw slots from `start` receive the value-initialised element; nothing else changes (also line 78) |
| `Lifetime.MoveRange` | advanced-vector/vector.h:155 | the values of `[first, last)` end up, in order, in `[dFirst, dFirst + last - first)` with `dFirst <= first`; every other slot keeps its content |
| `Lifetime.MoveBackward` | advanced-vector/vector.h:313 | the values of `[first, last)` end up, in order, in the slots ending at `dLast >= last`; every other slot keeps its content |
| `Edits.Inserted` | advanced-vector/vector.h:256-268 | insertion at `i` keeps the elements before `i`, puts `v` at `i` and shifts the rest up one position |
| `Edits.Erased` | advanced-vector/vector.h:151-159 | erasure at `i` keeps the elements before `i` and shifts the rest down one position |
| `Edits.Resized` | advanced-vector/vector.h:125-139 | resizing to `n` keeps the first `min(n, size)` elements and pads with value-initialised elements |
| `Edits.EraseInserted` | advanced-vector/vector.h:151-159 | erasing at the position just inserted at restores the original sequence |
| `Edits.InsertErased` | advanced-vector/vector.h:256-268 | inserting back the element erased at `i` restores the original sequence |
| `Edits.InsertedAtEnd` | advanced-vector/vector.h:259-261 | insertion at `end()` is an append, which is why `Emplace` hands it to `EmplaceBack` |
| `Edits.ErasedLast` | advanced-vector/vector.h:164-168 | removing the last element is erasure at `size - 1` |
| `Edits.ShrinkAfterGrow` | advanced-vector/vector.h:125-139 | growing and then resizing back to the old size restores the original sequence |
| `Edits.ResizedKeepsPrefix` | advanced-vector/vector.h:125-139 | shrinking keeps exactly the first `n` elements; growing keeps all old elements as a prefix |
| `Growth.GrownCapacity` | advanced-vector/vector.h:244-245 | the block allocated by an insertion into a full vector holds more than `size` slots: twice `size`, or 1 for an empty vector (also line 285) |
| `Growth.NextCapacity` | advanced-vector/vector.h:244-245 | after one insertion the capacity exceeds the old size; it is unchanged exactly when there was a spare slot |
| `Growth.ReservedCapacity` | advanced-vector/vector.h:109-113 | reserving `n` yields the larger of the old capacity and `n` |
| `Growth.CapacityAfterAppends` | advanced-vector/vector.h:244-245 | after `n` appends from no storage the capacity is at least `n` |
| `Growth.PowersOfTwoApart` | advanced-vector/vector.h:245 | of two distinct powers of two the larger is at least twice the smaller |
| `Growth.CapacityAfterAppendsIsPowerOfTwo` | advanced-vector/vector.h:244-245 | `n > 0` appends from no storage leave the smallest power of two that is at least `n` as the capacity |
| `Scenarios.AppendsFromEmpty` | advanced-vector/vector.h:244-245 | `n` `PushBack` calls on a new vector leave its elements in order and its capacity at `CapacityAfterAppends(n)`, the least power of two at least `n`, below `2 * n` |
| `Vectors.Vector.Size` | advanced-vector/vector.h:101 | the size is the number of live elements |
| `Vectors.Vector.Capacity` | advanced-vector/vector.h:103 | the capacity is the number of slots in the block and never less than the size |
| `Vectors.Vector.At` | advanced-vector/vector.h:213-216 | reads the element at `index`, which must be below the size |
| `Vectors.Vector.SetAt` | advanced-vector/vector.h:213-216 | writing through the returned reference replaces exactly that element; capacity is unchanged |
| `Vectors.Vector.constructor` | advanced-vector/vector.h:75 | the default vector is empty with capacity 0 |
| `Vectors.Vector.WithSize` | advanced-vector/vector.h:77-79 | `n` value-initialised elements in a block of exactly `n` slots |
| `Vectors.Vector.Copy` | advanced-vector/vector.h:81-83 | the copy has the same elements, capacity exactly the source's size, and storage disjoint from the source |
| `Vectors.Vector.MoveFrom` | advanced-vector/vector.h:85 | takes the source's buffer, elements and capacity into a storage owner of its own; the source is left empty with capacity 0 |
| `Vectors.Vector.Swap` | advanced-vector/vector.h:105 | exchanges buffers, elements and capacities of the two vectors; no element moves |
| `Vectors.Vector.SafeMove` | advanced-vector/vector.h:271-278 | the `count` live elements arrive in order in the raw target slots and their source slots become raw |
| `Vectors.Vector.Reserve` | advanced-vector/vector.h:107-123 | no change when `n <= capacity` (same buffer); otherwise the same elements in order and capacity exactly `n`; when it reallocates, every slot of the block given up is raw, so no element is leaked |
| `Vectors.Vector.ResizeAsWritten` | advanced-vector/vector.h:125-139 | the code as written: shrinking and growing past the capacity behave as `Resize`, but growing within the capacity raises the size over raw slots and breaks the invariant; the buffer is kept whenever `n` fits the capacity; past the capacity, the block given up is left all raw |
| `Vectors.Vector.Resize` | advanced-vector/vector.h:125-139 | the elements become `Resized(old, n, value)`; the capacity becomes `n` only when `n` exceeds it, and otherwise the buffer is kept; past the capacity, the block given up is left all raw |
| `Vectors.Vector.EmplaceBack` | advanced-vector/vector.h:241-254 | the old elements with `value` appended; returns the last position; capacity is `NextCapacity`, and the buffer is kept when there was a spare slot; when it reallocates, the block given up is left all raw |
| `Vectors.Vector.PushBack` | advanced-vector/vector.h:231-239 | the same contract as `EmplaceBack`, to which it delegates, including that the buffer (and so every element reference) is kept when there was a spare slot and that a block given up is left all raw |
| `Vectors.Vector.EmplaceWithReallocate` | advanced-vector/vector.h:280-304 | for a full vector: `value` is inserted at `index` in a block of `GrownCapacity(size)` slots, and `index` is returned; the block given up is left all raw |
| `Vectors.Vector.MoveAround` | advanced-vector/vector.h:286-299 | in a raw block with a spare slot: `value` is built at `index`, the elements before `index` arrive at the front and the rest one slot further on, giving `Filled(Inserted(old, index, value))`; every slot of `from` is raw afterwards |
| `Vectors.Vector.EmplaceWithoutReallocate` | advanced-vector/vector.h:306-318 | with a spare slot and `index < size`: `value` is inserted at `index` in the same buffer by a backward shift; capacity unchanged |
| `Vectors.Vector.ShiftIn` | advanced-vector/vector.h:311-314 | with `index < size` below the block's length: the last element is moved into the first raw slot, the rest of `[index, size - 1)` shifts back one slot, and `value` lands at `index`, giving `Filled(Inserted(old, index, value))` |
| `Vectors.Vector.Emplace` | advanced-vector/vector.h:256-268 | for `index <= size`: the elements become `Inserted(old, index, value)`, capacity is `NextCapacity`, and `index` is returned; the buffer is kept when there was a spare slot, and otherwise the block given up is left all raw |
| `Vectors.Vector.Insert` | advanced-vector/vector.h:147-149 | the same contract as `Emplace`, to which it delegates, including that the buffer is kept when there was a spare slot and that a block given up is left all raw |
| `Vectors.Vector.Erase` | advanced-vector/vector.h:151-159 | for `index < size`: the elements become `Erased(old, index)` in the same buffer; capacity unchanged; `index` is returned |
| `Vectors.Vector.PopBack` | advanced-vector/vector.h:164-168 | for a non-empty vector: drops only the last element; same buffer and capacity |
| `Vectors.Vector.CopyAssign` | advanced-vector/vector.h:170-204 | self-assignment changes nothing; otherwise the elements become the other's; capacity and buffer are kept when they fit, else the capacity becomes the other's size; the other vector is unchanged |
| `Vectors.Vector.AssignInPlace` | advanced-vector/vector.h:174-195 | when the other's elements fit, the same buffer ends up holding exactly them and the capacity is unchanged |
| `Vectors.Vector.MoveAssign` | advanced-vector/vector.h:206-209 | exchanges buffers, contents and capacities, so the source receives the target's old elements |

## Left out

- Exceptions: the `try`/`catch` rollback of `EmplaceWithReallocate` (advanced-vector/vector.h:287-299) and the strong guarantee of every reallocating path are not modelled. No element construction can fail in the model, and there is no allocation failure.
- The `is_nothrow_move_constructible` / `is_copy_constructible` choice between moving and copying (advanced-vector/vector.h:115-119, 272-276) is not modelled. A move and a copy leave the same value in the model, so one transfer covers both. A moved-from element keeps its value.
- `RawMemory::operator=(RawMemory&&)` (advanced-vector/vector.h:27, 63-67) is not modelled. It calls an `Init` that does not exist and is never instantiated.
- The deleted copy operations of `RawMemory` (advanced-vector/vector.h:18, 22) have no counterpart, because nothing in the model copies an owner.
- `GetAddress`, `RawMemory::Capacity`, the const overloads built with `const_cast`, and the iterator typedefs `begin`, `end`, `cbegin` and `cend` (advanced-vector/vector.h:34, 36, 48-52, 72-73, 89-99, 211) are not modelled. They are pointer plumbing, and positions are indices here.
- The destructors and `Deallocate` (advanced-vector/vector.h:20, 60, 87) are not modelled: the model has no deallocation.
- Vectors.Vector.CopyAssign: on the copy-and-swap path (advanced-vector/vector.h:198-199) the block given up stays with the temporary, whose destructor is not modelled, so the contract does not say that its elements are destroyed.
- `size_t` arithmetic is unbounded (`nat`), so the overflow of `size_ * 2` is not modelled.
- Vectors.Vector.EmplaceBack: the element is passed by value, so the contract cannot show why the new element is built before the old ones are transferred (advanced-vector/vector.h:245-247). That order keeps `PushBack(v[i])` safe and gives the strong guarantee. The body keeps the order. The same holds for `EmplaceWithReallocate` (line 286) and for the temporary of `EmplaceWithoutReallocate` (line 311).

## Findings

| source | as written | input that shows it | evidently intended | confidence | as-written member | corrected member |
|---|---|---|---|---|---|---|
| advanced-vector/vector.h:125-139 | `Resize(n)` with `size_ < n <= Capacity()` only sets `size_ = n`. It constructs nothing in slots `[size_, n)`, which are raw memory or destroyed elements. | `Vector<int> v; v.PushBack(7); v.PopBack(); v.Resize(1);` leaves `v[0]` as a destroyed object (see `Scenarios.ResizeOverDestroyedSlot`) | value-initialise `[size_, n)` whenever the vector grows, after reserving `n` only when it exceeds the capacity | high (not executed) | `Vectors.Vector.ResizeAsWritten` | `Vectors.Vector.Resize` |
