/**
 * Sequences of memory slots. A block of raw memory with room for `capacity` elements is
 * modelled as a sequence of `capacity` slots, each either raw (`None`) or holding a live,
 * constructed element (`Some(v)`). Constructing an element fills a raw slot; destroying it
 * makes the slot raw again.
 */
module Slots {
  import opened Wrappers

  /** A freshly allocated block: `n` slots, none of them constructed. */
  function Raw<T>(n: nat): seq<Option<T>>
  {
    seq(n, _ => None)
  }

  /** Slots `[start, start + count)` exist and all hold live elements. */
  predicate AllLive<T>(slots: seq<Option<T>>, start: nat, count: nat)
  {
    start + count <= |slots| && forall k :: start <= k < start + count ==> slots[k].Some?
  }

  /** Slots `[start, start + count)` exist and are all raw memory. */
  predicate AllRaw<T>(slots: seq<Option<T>>, start: nat, count: nat)
  {
    start + count <= |slots| && forall k :: start <= k < start + count ==> slots[k].None?
  }

  /** The container's invariant on its block: the first `size` slots are live, the rest are raw. */
  predicate Initialised<T>(slots: seq<Option<T>>, size: nat)
  {
    && size <= |slots|
    && (forall k :: 0 <= k < size ==> slots[k].Some?)
    && (forall k :: size <= k < |slots| ==> slots[k].None?)
  }

  /** The elements held by the live slots `[start, start + count)`, in order. */
  function Values<T>(slots: seq<Option<T>>, start: nat, count: nat): (vs: seq<T>)
    requires AllLive(slots, start, count)
    ensures |vs| == count
    ensures forall k :: 0 <= k < count ==> slots[start + k] == Some(vs[k])
  {
    seq(count, k requires 0 <= k < count => slots[start + k].value)
  }

  /** The elements of the live prefix `[0, size)`. */
  function Live<T>(slots: seq<Option<T>>, size: nat): seq<T>
    requires AllLive(slots, 0, size)
  {
    Values(slots, 0, size)
  }

  /** `slots` with the elements `vs` stored, in order, from slot `start` on. */
  function Stored<T>(slots: seq<Option<T>>, start: nat, vs: seq<T>): seq<Option<T>>
    requires start + |vs| <= |slots|
  {
    seq(|slots|, k requires 0 <= k < |slots| =>
      if start <= k < start + |vs| then Some(vs[k - start]) else slots[k])
  }

  /** `slots` with the slots `[start, start + count)` turned back into raw memory. */
  function Destroyed<T>(slots: seq<Option<T>>, start: nat, count: nat): seq<Option<T>>
    requires start + count <= |slots|
  {
    seq(|slots|, k requires 0 <= k < |slots| =>
      if start <= k < start + count then None else slots[k])
  }

  /**
   * The block of `capacity` slots that holds exactly the elements `s` in its prefix.
   * Its live prefix gives `s` back.
   */
  function Filled<T>(s: seq<T>, capacity: nat): (r: seq<Option<T>>)
    requires |s| <= capacity
    ensures |r| == capacity
    ensures Initialised(r, |s|) && Live(r, |s|) == s
  {
    Stored(Raw(capacity), 0, s)
  }

  /** A block that satisfies the invariant is determined by its live elements and its capacity. */
  lemma FilledLive<T>(slots: seq<Option<T>>, size: nat)
    requires Initialised(slots, size)
    ensures Filled(Live(slots, size), |slots|) == slots
  {
    var s := Live(slots, size);
    var r := Filled(s, |slots|);
    forall k | 0 <= k < |slots|
      ensures r[k] == slots[k]
    {
      if k < size {
        assert slots[0 + k] == Some(s[k]);
      }
    }
  }

  /** What each slot of a `Filled` block holds. */
  lemma FilledPoints<T>(s: seq<T>, capacity: nat)
    requires |s| <= capacity
    ensures forall k :: 0 <= k < capacity ==> Filled(s, capacity)[k] == if k < |s| then Some(s[k]) else None
  {
  }

  /** A pointwise description of a block, turned into `Filled`. */
  lemma FilledByPoints<T>(slots: seq<Option<T>>, s: seq<T>)
    requires |s| <= |slots|
    requires forall k :: 0 <= k < |slots| ==> slots[k] == if k < |s| then Some(s[k]) else None
    ensures slots == Filled(s, |slots|)
  {
  }

  /** Destroying the live prefix of a block in two consecutive runs leaves it all raw. */
  lemma DestroyedInTwo<T>(slots: seq<Option<T>>, size: nat, index: nat)
    requires Initialised(slots, size) && index <= size
    ensures Destroyed(Destroyed(slots, 0, index), index, size - index) == Raw(|slots|)
  {
  }

  /**
   * Growing the size of a block over slots it never constructed: once `n` passes the live
   * prefix of a block that satisfies the invariant, slots `[|s|, n)` are raw, so the first `n`
   * slots do not all hold elements.
   */
  lemma RawSlotsPastPrefix<T>(s: seq<T>, capacity: nat, n: nat)
    requires |s| < n <= capacity
    ensures forall k :: |s| <= k < n ==> Filled(s, capacity)[k].None?
    ensures !Initialised(Filled(s, capacity), n)
  {
    var r := Filled(s, capacity);
    assert r[|s|].None?;
  }
}
