/**
 * The dynamic array: one storage owner plus the number of leading slots that hold live
 * elements. Positions (iterators in the C++ code, which are raw pointers) are indices into
 * the block.
 */
module Vectors {
  import opened Wrappers
  import opened Slots
  import opened Edits
  import opened Growth
  import opened Memory
  import opened Lifetime

  class Vector<T> {
    const data: RawMemory<T>
    var size: nat

    /** The objects this vector owns: itself, its storage owner and the block, if any. */
    ghost function Repr(): set<object>
      reads this, data
    {
      {this, data} + data.Footprint()
    }

    /** Slots `[0, size)` hold live elements, the rest of the block is raw, `size <= capacity`. */
    ghost predicate Valid()
      reads this, data, data.buffer
    {
      data.Valid() && Initialised(data.Slots(), size)
    }

    /** The live elements, in order. */
    ghost function Elements(): seq<T>
      reads this, data, data.buffer
      requires Valid()
    {
      Live(data.Slots(), size)
    }

    function Size(): (n: nat)
      reads this, data, data.buffer
      requires Valid()
      ensures n == |Elements()|
    {
      size
    }

    function Capacity(): (n: nat)
      reads this, data, data.buffer
      requires Valid()
      ensures n == |data.Slots()| && Size() <= n
    {
      data.capacity
    }

    /** Reads the element at `index`, which must be one of the live elements. */
    function At(index: nat): (x: T)
      reads this, data, data.buffer
      requires Valid() && index < Size()
      ensures x == Elements()[index]
    {
      assert data.Slots()[0 + index] == Some(Elements()[index]);
      data.Slot(index).value
    }

    /** Writes `x` through the reference to the element at `index`. */
    method SetAt(index: nat, x: T)
      requires Valid() && index < Size()
      modifies data.buffer
      ensures Valid()
      ensures Elements() == old(Elements())[index := x]
      ensures Capacity() == old(Capacity())
    {
      ghost var e := Elements();
      FilledLive(data.Slots(), size);
      data.buffer[index] := Some(x);
      FilledByPoints(data.Slots(), e[index := x]);
    }

    /** The default constructor: no elements and no storage. */
    constructor ()
      ensures Valid() && fresh(Repr())
      ensures Elements() == [] && Capacity() == 0
    {
      data := new RawMemory<T>.Empty();
      size := 0;
    }

    /** Holds `n` value-initialised elements `value` in a block of exactly `n` slots. */
    constructor WithSize(n: nat, value: T)
      ensures Valid() && fresh(Repr())
      ensures Elements() == seq(n, _ => value) && Capacity() == n
    {
      data := new RawMemory<T>(n);
      size := n;
      new;
      ValueConstructN(data.buffer, 0, n, value);
      assert data.Slots() == Filled(seq(n, _ => value), n);
    }

    /**
     * The copy constructor: the same elements in a block of exactly `other.Size()` slots,
     * sharing nothing with `other`, which is left as it was.
     */
    constructor Copy(other: Vector<T>)
      requires other.Valid()
      ensures Valid() && fresh(Repr())
      ensures Elements() == other.Elements() && Capacity() == other.Size()
    {
      data := new RawMemory<T>(other.size);
      size := other.size;
      new;
      UninitializedCopyN(other.data.buffer, 0, other.size, data.buffer, 0);
      assert data.Slots() == Filled(other.Elements(), other.size);
    }

    /**
     * The move constructor: takes over `other`'s block, size and capacity without touching
     * an element, and leaves `other` empty with no storage.
     */
    constructor MoveFrom(other: Vector<T>)
      requires other.Valid()
      modifies other, other.data
      ensures Valid() && other.Valid() && fresh(data)
      ensures data.buffer == old(other.data.buffer)
      ensures Elements() == old(other.Elements()) && Capacity() == old(other.Capacity())
      ensures other.Elements() == [] && other.Capacity() == 0
    {
      data := new RawMemory<T>.MoveFrom(other.data);
      size := other.size;
      new;
      other.size := 0;
    }

    /** Exchanges contents and capacities with `other` by exchanging blocks; no element moves. */
    method Swap(other: Vector<T>)
      requires Valid() && other.Valid()
      requires this == other || Repr() !! other.Repr()
      modifies this, data, other, other.data
      ensures Valid() && other.Valid()
      ensures data.buffer == old(other.data.buffer) && other.data.buffer == old(data.buffer)
      ensures Elements() == old(other.Elements()) && other.Elements() == old(Elements())
      ensures Capacity() == old(other.Capacity()) && other.Capacity() == old(Capacity())
    {
      data.Swap(other.data);
      var s := size;
      size := other.size;
      other.size := s;
    }

    /**
     * Moves the `count` live elements of `from` at `fromStart` into the raw slots of `to` at
     * `toStart`, then destroys the originals.
     */
    static method SafeMove(from: array?<Option<T>>, fromStart: nat, count: nat,
                           to: array?<Option<T>>, toStart: nat)
      requires AllLive(SlotsOf(from), fromStart, count)
      requires AllRaw(SlotsOf(to), toStart, count)
      requires count == 0 || from != to
      modifies from, to
      ensures SlotsOf(to) == Stored(old(SlotsOf(to)), toStart, Values(old(SlotsOf(from)), fromStart, count))
      ensures SlotsOf(from) == Destroyed(old(SlotsOf(from)), fromStart, count)
    {
      UninitializedCopyN(from, fromStart, count, to, toStart);
      DestroyN(from, fromStart, count);
    }

    /**
     * Makes room for at least `n` elements: nothing changes when `n` fits the capacity;
     * otherwise the elements move, in order, into a block of exactly `n` slots.
     */
    method Reserve(n: nat)
      requires Valid()
      modifies Repr()
      ensures Valid() && fresh(Repr() - old(Repr()))
      ensures Elements() == old(Elements())
      ensures Capacity() == ReservedCapacity(old(Capacity()), n)
      ensures n <= old(Capacity()) ==> data.buffer == old(data.buffer)
      ensures old(Capacity()) < n ==> SlotsOf(old(data.buffer)) == Raw(old(Capacity()))
    {
      if n <= data.capacity {
        return;
      }
      ghost var e := Elements();
      var newData := new RawMemory<T>(n);
      SafeMove(data.buffer, 0, size, newData.buffer, 0);
      data.Swap(newData);
      assert data.Slots() == Filled(e, n);
    }

    /**
     * Sets the size to `n` as the C++ code does: shrinking destroys the tail, growing
     * past the capacity reserves exactly `n` and value-initialises the new elements, but
     * growing within the capacity constructs nothing, so the vector no longer satisfies its
     * invariant.
     */
    method ResizeAsWritten(n: nat, value: T)
      requires Valid()
      modifies Repr()
      ensures data.Valid() && fresh(Repr() - old(Repr()))
      ensures n <= old(Capacity()) ==> data.buffer == old(data.buffer)
      ensures old(Capacity()) < n ==> SlotsOf(old(data.buffer)) == Raw(old(Capacity()))
      ensures old(Size()) < n <= old(Capacity()) ==>
        size == n && data.Slots() == old(data.Slots()) && !Valid()
      ensures !(old(Size()) < n <= old(Capacity())) ==>
        && Valid()
        && Elements() == Resized(old(Elements()), n, value)
        && Capacity() == ReservedCapacity(old(Capacity()), n)
    {
      ghost var e := Elements();
      FilledLive(data.Slots(), size);
      if n < size {
        DestroyN(data.buffer, n, size - n);
        assert data.Slots() == Filled(Resized(e, n, value), data.capacity);
      } else {
        if n > data.capacity {
          Reserve(n);
          FilledLive(data.Slots(), size);
          ValueConstructN(data.buffer, size, n - size, value);
          assert data.Slots() == Filled(Resized(e, n, value), n);
        } else if size < n {
          RawSlotsPastPrefix(e, data.capacity, n);
        }
      }
      size := n;
    }

    /**
     * Sets the size to `n`: shrinking keeps the first `n` elements, growing appends
     * value-initialised elements `value`, reserving exactly `n` when they do not fit.
     */
    method Resize(n: nat, value: T)
      requires Valid()
      modifies Repr()
      ensures Valid() && fresh(Repr() - old(Repr()))
      ensures Elements() == Resized(old(Elements()), n, value)
      ensures Capacity() == ReservedCapacity(old(Capacity()), n)
      ensures n <= old(Capacity()) ==> data.buffer == old(data.buffer)
      ensures old(Capacity()) < n ==> SlotsOf(old(data.buffer)) == Raw(old(Capacity()))
    {
      ghost var e := Elements();
      FilledLive(data.Slots(), size);
      if n < size {
        DestroyN(data.buffer, n, size - n);
        assert data.Slots() == Filled(Resized(e, n, value), data.capacity);
      } else {
        if n > data.capacity {
          Reserve(n);
          FilledLive(data.Slots(), size);
        }
        ValueConstructN(data.buffer, size, n - size, value);
        assert data.Slots() == Filled(Resized(e, n, value), data.capacity);
      }
      size := n;
    }

    /**
     * Appends `value` and returns the position of the new last element. A full vector first
     * moves to a block of `GrownCapacity(Size())` slots, building the new element there
     * before the old ones are transferred.
     */
    method EmplaceBack(value: T) returns (index: nat)
      requires Valid()
      modifies Repr()
      ensures Valid() && fresh(Repr() - old(Repr()))
      ensures Elements() == old(Elements()) + [value]
      ensures Capacity() == NextCapacity(old(Size()), old(Capacity()))
      ensures index == old(Size()) && index < Size() && At(index) == value
      ensures old(Size()) < old(Capacity()) ==> data.buffer == old(data.buffer)
      ensures old(Size()) == old(Capacity()) ==> SlotsOf(old(data.buffer)) == Raw(old(Capacity()))
    {
      ghost var e := Elements();
      if size == data.capacity {
        var newData := new RawMemory<T>(GrownCapacity(size));
        MoveAround(data.buffer, size, size, value, newData.buffer);
        data.Swap(newData);
        InsertedAtEnd(e, value);
      } else {
        FilledLive(data.Slots(), size);
        data.buffer[data.Offset(size)] := Some(value);
        FilledByPoints(data.Slots(), e + [value]);
      }
      size := size + 1;
      index := size - 1;
    }

    /** Appends a copy of `value`; the same as `EmplaceBack`. */
    method PushBack(value: T) returns (index: nat)
      requires Valid()
      modifies Repr()
      ensures Valid() && fresh(Repr() - old(Repr()))
      ensures Elements() == old(Elements()) + [value]
      ensures Capacity() == NextCapacity(old(Size()), old(Capacity()))
      ensures index == old(Size()) && index < Size() && At(index) == value
      ensures old(Size()) < old(Capacity()) ==> data.buffer == old(data.buffer)
      ensures old(Size()) == old(Capacity()) ==> SlotsOf(old(data.buffer)) == Raw(old(Capacity()))
    {
      index := EmplaceBack(value);
    }

    /**
     * Inserts `value` at `index` of a full vector: builds it in a block of
     * `GrownCapacity(Size())` slots, then moves the elements before and after it around it.
     */
    method EmplaceWithReallocate(index: nat, value: T) returns (pos: nat)
      requires Valid() && index <= Size() && Size() == Capacity()
      modifies Repr()
      ensures Valid() && fresh(Repr() - old(Repr()))
      ensures Elements() == Inserted(old(Elements()), index, value)
      ensures Capacity() == GrownCapacity(old(Size()))
      ensures pos == index
      ensures SlotsOf(old(data.buffer)) == Raw(old(Capacity()))
    {
      var newData := new RawMemory<T>(GrownCapacity(size));
      MoveAround(data.buffer, size, index, value, newData.buffer);
      data.Swap(newData);
      size := size + 1;
      pos := index;
    }

    /**
     * The transfer step of `EmplaceWithReallocate`: `value` is constructed at `index` of the
     * raw block `to`, and the `size` live elements of `from` move around it, those before
     * `index` to the front and the rest one slot further on.
     */
    static method MoveAround(from: array?<Option<T>>, size: nat, index: nat, value: T,
                             to: array?<Option<T>>)
      requires index <= size < |SlotsOf(to)| && from != to
      requires Initialised(SlotsOf(from), size) && SlotsOf(to) == Raw(|SlotsOf(to)|)
      modifies from, to
      ensures to != null
      ensures to[..] == Filled(Inserted(Live(old(SlotsOf(from)), size), index, value), to.Length)
      ensures SlotsOf(from) == Raw(|SlotsOf(from)|)
    {
      ghost var was := SlotsOf(from);
      ghost var e := Live(was, size);
      FilledLive(was, size);
      to[index] := Some(value);
      SafeMove(from, 0, index, to, 0);
      SafeMove(from, index, size - index, to, index + 1);
      FilledByPoints(to[..], Inserted(e, index, value));
      DestroyedInTwo(was, size, index);
    }

    /**
     * Inserts `value` at `index < Size()` of a vector with a spare slot: the last element is
     * moved into the first raw slot, the elements in `[index, Size() - 1)` are shifted one
     * slot right from the back, and `value` is assigned at `index`.
     */
    method EmplaceWithoutReallocate(index: nat, value: T) returns (pos: nat)
      requires Valid() && index < Size() < Capacity()
      modifies data.buffer, this
      ensures Valid() && data.buffer == old(data.buffer)
      ensures Elements() == Inserted(old(Elements()), index, value)
      ensures Capacity() == old(Capacity())
      ensures pos == index
    {
      ShiftIn(data.buffer, size, index, value);
      size := size + 1;
      pos := index;
    }

    /**
     * The shifting step of `EmplaceWithoutReallocate` on a block whose first `size` slots are
     * live and which has a raw slot after them.
     */
    static method ShiftIn(buf: array?<Option<T>>, size: nat, index: nat, value: T)
      requires index < size < |SlotsOf(buf)| && Initialised(SlotsOf(buf), size)
      modifies buf
      ensures buf != null
      ensures buf[..] == Filled(Inserted(Live(old(buf[..]), size), index, value), buf.Length)
    {
      ghost var e := Live(buf[..], size);
      FilledLive(buf[..], size);
      FilledPoints(e, buf.Length);
      var temp := value;
      buf[size] := buf[size - 1];
      MoveBackward(buf, index, size - 1, size);
      buf[index] := Some(temp);
      FilledByPoints(buf[..], Inserted(e, index, value));
    }

    /**
     * Inserts `value` so that it sits at position `index <= Size()` and returns that position;
     * insertion at the end is `EmplaceBack`.
     */
    method Emplace(index: nat, value: T) returns (pos: nat)
      requires Valid() && index <= Size()
      modifies Repr()
      ensures Valid() && fresh(Repr() - old(Repr()))
      ensures Elements() == Inserted(old(Elements()), index, value)
      ensures Capacity() == NextCapacity(old(Size()), old(Capacity()))
      ensures pos == index
      ensures old(Size()) < old(Capacity()) ==> data.buffer == old(data.buffer)
      ensures old(Size()) == old(Capacity()) ==> SlotsOf(old(data.buffer)) == Raw(old(Capacity()))
    {
      if index == size {
        InsertedAtEnd(Elements(), value);
        pos := EmplaceBack(value);
      } else if size == data.capacity {
        pos := EmplaceWithReallocate(index, value);
      } else {
        pos := EmplaceWithoutReallocate(index, value);
      }
    }

    /** Inserts a copy of `value` at `index`; the same as `Emplace`. */
    method Insert(index: nat, value: T) returns (pos: nat)
      requires Valid() && index <= Size()
      modifies Repr()
      ensures Valid() && fresh(Repr() - old(Repr()))
      ensures Elements() == Inserted(old(Elements()), index, value)
      ensures Capacity() == NextCapacity(old(Size()), old(Capacity()))
      ensures pos == index
      ensures old(Size()) < old(Capacity()) ==> data.buffer == old(data.buffer)
      ensures old(Size()) == old(Capacity()) ==> SlotsOf(old(data.buffer)) == Raw(old(Capacity()))
    {
      pos := Emplace(index, value);
    }

    /**
     * Removes the element at `index` (so the vector is not empty): the elements after it are
     * shifted one slot left, the last slot is destroyed, and `index` now denotes the element
     * that followed the erased one.
     */
    method Erase(index: nat) returns (pos: nat)
      requires Valid() && 0 < Size() && index < Size()
      modifies data.buffer, this
      ensures Valid() && data.buffer == old(data.buffer)
      ensures Elements() == Erased(old(Elements()), index)
      ensures Capacity() == old(Capacity())
      ensures pos == index
    {
      ghost var e := Elements();
      FilledLive(data.Slots(), size);
      FilledPoints(e, data.capacity);
      var buf := data.buffer;
      MoveRange(buf, index + 1, size, index);
      buf[size - 1] := None;
      FilledByPoints(buf[..], Erased(e, index));
      size := size - 1;
      pos := index;
    }

    /** Destroys the last element of a non-empty vector. */
    method PopBack()
      requires Valid() && 0 < Size()
      modifies data.buffer, this
      ensures Valid() && data.buffer == old(data.buffer)
      ensures Elements() == old(Elements())[..old(Size()) - 1]
      ensures Capacity() == old(Capacity())
    {
      ghost var e := Elements();
      FilledLive(data.Slots(), size);
      data.buffer[size - 1] := None;
      FilledByPoints(data.Slots(), e[..size - 1]);
      size := size - 1;
    }

    /**
     * Copy assignment: afterwards this vector holds `other`'s elements. When they fit, the
     * block is reused; otherwise a copy of `other` is built and swapped in, so the capacity
     * becomes exactly `other.Size()`. Self-assignment does nothing.
     */
    method CopyAssign(other: Vector<T>)
      requires Valid() && other.Valid()
      requires this == other || Repr() !! other.Repr()
      modifies Repr()
      ensures Valid() && fresh(Repr() - old(Repr()))
      ensures Elements() == old(other.Elements())
      ensures Capacity() ==
        if this == other || old(other.Size()) <= old(Capacity()) then old(Capacity()) else old(other.Size())
      ensures this == other || old(other.Size()) <= old(Capacity()) ==> data.buffer == old(data.buffer)
      ensures this != other ==>
        other.Valid() && other.Elements() == old(other.Elements()) && other.Capacity() == old(other.Capacity())
    {
      if this != other {
        if other.size <= data.capacity {
          AssignInPlace(other);
        } else {
          var copy := new Vector<T>.Copy(other);
          Swap(copy);
        }
      }
    }

    /**
     * Copy assignment into a block that already has room for `other`'s elements: the common
     * prefix is assigned, then `other`'s extra elements are constructed in raw slots or this
     * vector's extra elements are destroyed.
     */
    method AssignInPlace(other: Vector<T>)
      requires Valid() && other.Valid() && Repr() !! other.Repr()
      requires other.Size() <= Capacity()
      modifies data.buffer, this
      ensures Valid() && data.buffer == old(data.buffer)
      ensures Elements() == other.Elements() && Capacity() == old(Capacity())
    {
      ghost var src := other.Elements();
      ghost var e := Elements();
      FilledLive(data.Slots(), size);
      FilledLive(other.data.Slots(), other.size);
      FilledPoints(e, data.capacity);
      FilledPoints(src, other.data.capacity);
      if size <= other.size {
        CopyN(other.data.buffer, 0, size, data.buffer, 0);
        UninitializedCopyN(other.data.buffer, size, other.size - size, data.buffer, size);
      } else {
        CopyN(other.data.buffer, 0, other.size, data.buffer, 0);
        DestroyN(data.buffer, other.size, size - other.size);
      }
      FilledByPoints(data.Slots(), src);
      size := other.size;
    }

    /** Move assignment: exchanges contents with `other`, which receives this vector's old ones. */
    method MoveAssign(other: Vector<T>)
      requires Valid() && other.Valid()
      requires this == other || Repr() !! other.Repr()
      modifies this, data, other, other.data
      ensures Valid() && other.Valid()
      ensures Elements() == old(other.Elements()) && other.Elements() == old(Elements())
      ensures Capacity() == old(other.Capacity()) && other.Capacity() == old(Capacity())
      ensures data.buffer == old(other.data.buffer) && other.data.buffer == old(data.buffer)
    {
      Swap(other);
    }
  }
}
