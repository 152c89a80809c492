/** Client code that uses only the contracts of `Vector`, as a caller of the container would. */
module Scenarios {
  import opened Edits
  import opened Growth
  import opened Vectors

  /** Appending 1, 2, 3 to an empty vector doubles its capacity: 1, 2, then 4. */
  method AppendDoubles() returns (v: Vector<int>)
    ensures v.Valid() && v.Elements() == [1, 2, 3] && v.Capacity() == 4
    ensures fresh(v.Repr())
  {
    v := new Vector<int>();
    var i := v.PushBack(1);
    assert v.Capacity() == 1;
    i := v.PushBack(2);
    assert v.Capacity() == 2;
    i := v.PushBack(3);
  }

  /**
   * `n` appends to a new vector leave exactly the capacity `CapacityAfterAppends(n)`: the
   * smallest power of two that holds all `n` elements, less than twice their number.
   */
  method AppendsFromEmpty(n: nat) returns (v: Vector<int>)
    ensures v.Valid() && fresh(v.Repr())
    ensures v.Elements() == seq(n, k => k) && v.Capacity() == CapacityAfterAppends(n)
    ensures n > 0 ==> IsPowerOfTwo(v.Capacity()) && n <= v.Capacity() < 2 * n
  {
    v := new Vector<int>();
    var k := 0;
    while k < n
      invariant k <= n
      invariant v.Valid() && fresh(v.Repr())
      invariant v.Elements() == seq(k, j => j) && v.Capacity() == CapacityAfterAppends(k)
    {
      var i := v.PushBack(k);
      k := k + 1;
    }
    if n > 0 {
      CapacityAfterAppendsIsPowerOfTwo(n);
    }
  }

  /**
   * Continuing from `AppendDoubles`: inserting 99 at 1 fits without reallocating; erasing at 0
   * and resizing to 1 keep the capacity at 4.
   */
  method InsertEraseResize() {
    var v := AppendDoubles();
    var p := v.Insert(1, 99);
    assert v.Elements() == [1, 99, 2, 3] && v.Capacity() == 4 && p == 1;
    p := v.Erase(0);
    assert v.Elements() == [99, 2, 3] && p == 0;
    v.Resize(1, 0);
    assert v.Elements() == [99] && v.Capacity() == 4;
  }

  /** A copy shares nothing with its source: growing the copy leaves the source as it was. */
  method CopyIsIndependent(a: Vector<int>)
    requires a.Valid()
  {
    var before := a.Elements();
    var b := new Vector<int>.Copy(a);
    var i := b.PushBack(7);
    b.SetAt(0, 8);
    assert a.Elements() == before;
    assert b.Elements() == (before + [7])[0 := 8];
  }

  /**
   * Moving out of a vector hands its elements over in order and leaves it empty; the new
   * vector owns its storage, so growing it leaves the source empty.
   */
  method MoveEmptiesSource(a: Vector<int>)
    requires a.Valid()
    modifies a.Repr()
  {
    var before := a.Elements();
    var b := new Vector<int>.MoveFrom(a);
    assert b.Elements() == before && a.Elements() == [] && a.Capacity() == 0;
    var i := b.PushBack(1);
    assert a.Valid() && a.Elements() == [] && b.Elements() == before + [1];
  }

  /** Inserting and then erasing at the same position gives back the original elements. */
  method InsertThenErase(v: Vector<int>, i: nat, x: int)
    requires v.Valid() && i <= v.Size()
    modifies v.Repr()
  {
    var before := v.Elements();
    var p := v.Insert(i, x);
    p := v.Erase(p);
    EraseInserted(before, i, x);
    assert v.Elements() == before;
  }

  /**
   * `Resize` as the C++ code writes it, growing within the capacity: after an element is
   * appended and removed, its slot is raw memory, and resizing back to 1 counts it as an
   * element.
   */
  method ResizeOverDestroyedSlot() {
    var v := new Vector<int>();
    var i := v.PushBack(7);
    v.PopBack();
    assert v.Size() == 0 && v.Capacity() == 1;
    v.ResizeAsWritten(1, 0);
    assert !v.Valid();
  }
}
