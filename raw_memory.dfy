/**
 * The storage owner: a fixed-capacity block of raw slots. It allocates, hands over and
 * exchanges its block, and never constructs or destroys an element itself.
 */
module Memory {
  import opened Wrappers
  import opened Slots

  /** The slots of a block; a null block (nothing allocated) has none. */
  ghost function SlotsOf<T>(buf: array?<Option<T>>): seq<Option<T>>
    reads buf
  {
    if buf == null then [] else buf[..]
  }

  class RawMemory<T> {
    var buffer: array?<Option<T>>
    var capacity: nat

    /** A block is allocated exactly when the capacity is positive, and has `capacity` slots. */
    ghost predicate Valid()
      reads this
    {
      && (buffer == null <==> capacity == 0)
      && (buffer != null ==> buffer.Length == capacity)
    }

    ghost function Footprint(): set<object>
      reads this
    {
      if buffer == null then {} else {buffer}
    }

    ghost function Slots(): seq<Option<T>>
      reads this, buffer
    {
      SlotsOf(buffer)
    }

    /** The default constructor: no block at all. */
    constructor Empty()
      ensures Valid() && buffer == null && capacity == 0 && Slots() == []
    {
      buffer := null;
      capacity := 0;
    }

    /** Allocates room for `capacity` elements, all raw; allocates nothing when `capacity` is 0. */
    constructor (capacity: nat)
      ensures Valid() && this.capacity == capacity
      ensures Slots() == Raw(capacity)
      ensures fresh(Footprint())
    {
      var block := RawMemory<T>.Allocate(capacity);
      buffer := block;
      this.capacity := capacity;
    }

    /** The move constructor: takes over `other`'s block and capacity and leaves `other` empty. */
    constructor MoveFrom(other: RawMemory<T>)
      requires other.Valid()
      modifies other
      ensures Valid() && other.Valid()
      ensures buffer == old(other.buffer) && capacity == old(other.capacity)
      ensures other.buffer == null && other.capacity == 0
    {
      buffer := other.buffer;
      capacity := other.capacity;
      new;
      other.buffer := null;
      other.capacity := 0;
    }

    /** Exchanges blocks and capacities with `other`; no slot is touched. */
    method Swap(other: RawMemory<T>)
      requires Valid() && other.Valid()
      modifies this, other
      ensures Valid() && other.Valid()
      ensures buffer == old(other.buffer) && capacity == old(other.capacity)
      ensures other.buffer == old(buffer) && other.capacity == old(capacity)
    {
      var b, c := buffer, capacity;
      buffer, capacity := other.buffer, other.capacity;
      other.buffer, other.capacity := b, c;
    }

    /** The slot at `index`, which need not hold a live element; only slots of the block exist. */
    function Slot(index: nat): (slot: Option<T>)
      reads this, buffer
      requires Valid() && index < capacity
      ensures slot == Slots()[index]
    {
      buffer[index]
    }

    /**
     * The position `offset` slots into the block; unlike `Slot`, the position one past the
     * last slot may be formed.
     */
    function Offset(offset: nat): (p: nat)
      reads this
      requires Valid() && offset <= capacity
      ensures p == offset && (p < capacity ==> buffer != null && p < buffer.Length)
    {
      offset
    }

    /** Allocates a block of `n` raw slots, or nothing at all when `n` is 0. */
    static method Allocate(n: nat) returns (buf: array?<Option<T>>)
      ensures buf == null <==> n == 0
      ensures buf != null ==> fresh(buf) && buf.Length == n
      ensures SlotsOf(buf) == Raw(n)
    {
      if n != 0 {
        buf := new Option<T>[n](_ => None);
      } else {
        buf := null;
      }
    }
  }
}
