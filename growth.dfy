/** The container's capacity policy: exact reservation, and doubling when an insertion finds it full. */
module Growth {

  /** The capacity of the block allocated when an insertion finds `size == capacity`. */
  function GrownCapacity(size: nat): (c: nat)
    ensures size < c
    ensures size > 0 ==> c == 2 * size
  {
    if size == 0 then 1 else size * 2
  }

  /** The capacity after one insertion into a container holding `size` elements in `capacity` slots. */
  function NextCapacity(size: nat, capacity: nat): (c: nat)
    requires size <= capacity
    ensures size < c && capacity <= c
    ensures size < capacity <==> c == capacity
  {
    if size == capacity then GrownCapacity(size) else capacity
  }

  /** The capacity after a request to reserve room for `n` elements. */
  function ReservedCapacity(capacity: nat, n: nat): (c: nat)
    ensures capacity <= c && n <= c
    ensures c == capacity || c == n
  {
    if n <= capacity then capacity else n
  }

  /** The capacity of a container that started empty with no storage after `n` appends. */
  function CapacityAfterAppends(n: nat): (c: nat)
    ensures n <= c
  {
    if n == 0 then 0 else NextCapacity(n - 1, CapacityAfterAppends(n - 1))
  }

  predicate IsPowerOfTwo(p: nat)
    decreases p
  {
    p == 1 || (p > 1 && p % 2 == 0 && IsPowerOfTwo(p / 2))
  }

  /** Of two distinct powers of two, the larger is at least twice the smaller. */
  lemma {:induction false} PowersOfTwoApart(p: nat, q: nat)
    requires IsPowerOfTwo(p) && IsPowerOfTwo(q) && p < q
    ensures 2 * p <= q
    decreases p
  {
    if p > 1 {
      PowersOfTwoApart(p / 2, q / 2);
    }
  }

  /**
   * Appending `n > 0` elements to a container that started with no storage leaves it with
   * the smallest power of two that is at least `n` as its capacity.
   */
  lemma {:induction false} CapacityAfterAppendsIsPowerOfTwo(n: nat)
    requires n > 0
    ensures IsPowerOfTwo(CapacityAfterAppends(n))
    ensures n <= CapacityAfterAppends(n) < 2 * n
    ensures forall p :: IsPowerOfTwo(p) && n <= p ==> CapacityAfterAppends(n) <= p
  {
    var c := CapacityAfterAppends(n);
    if n > 1 {
      CapacityAfterAppendsIsPowerOfTwo(n - 1);
      var prev := CapacityAfterAppends(n - 1);
      if prev == n - 1 {
        assert c == 2 * prev;
        assert (2 * prev) / 2 == prev;
      }
    }
    forall p | IsPowerOfTwo(p) && n <= p
      ensures c <= p
    {
      if p < c {
        PowersOfTwoApart(p, c);
      }
    }
  }
}
