/**
 * Element lifetime in raw slots: the uninitialised-memory algorithms the container uses
 * to construct, copy and destroy runs of elements. A block may be null (nothing allocated)
 * as long as the run is empty. In the model a move leaves the same value as a copy, so one
 * transfer serves both.
 */
module Lifetime {
  import opened Wrappers
  import opened Slots
  import opened Memory

  /**
   * Constructs, in the raw slots of `to` from `toStart` on, copies of the `count` live
   * elements of `from` from `fromStart` on (`std::uninitialized_copy_n` and
   * `std::uninitialized_move_n`).
   */
  method UninitializedCopyN<T>(from: array?<Option<T>>, fromStart: nat, count: nat,
                                to: array?<Option<T>>, toStart: nat)
    requires AllLive(SlotsOf(from), fromStart, count)
    requires AllRaw(SlotsOf(to), toStart, count)
    requires count == 0 || from != to
    modifies to
    ensures SlotsOf(to) == Stored(old(SlotsOf(to)), toStart, Values(old(SlotsOf(from)), fromStart, count))
    ensures SlotsOf(from) == old(SlotsOf(from))
  {
    ghost var vs := Values(SlotsOf(from), fromStart, count);
    var k := 0;
    while k < count
      invariant k <= count
      invariant SlotsOf(from) == old(SlotsOf(from))
      invariant SlotsOf(to) == Stored(old(SlotsOf(to)), toStart, vs[..k])
    {
      assert from[fromStart + k] == Some(vs[k]);
      to[toStart + k] := from[fromStart + k];
      k := k + 1;
    }
    assert vs[..count] == vs;
  }

  /**
   * Assigns to the live slots of `to` from `toStart` on the `count` live elements of `from`
   * from `fromStart` on (`std::copy` onto constructed elements).
   */
  method CopyN<T>(from: array?<Option<T>>, fromStart: nat, count: nat,
                  to: array?<Option<T>>, toStart: nat)
    requires AllLive(SlotsOf(from), fromStart, count)
    requires AllLive(SlotsOf(to), toStart, count)
    requires count == 0 || from != to
    modifies to
    ensures SlotsOf(to) == Stored(old(SlotsOf(to)), toStart, Values(old(SlotsOf(from)), fromStart, count))
    ensures SlotsOf(from) == old(SlotsOf(from))
  {
    ghost var vs := Values(SlotsOf(from), fromStart, count);
    var k := 0;
    while k < count
      invariant k <= count
      invariant SlotsOf(from) == old(SlotsOf(from))
      invariant SlotsOf(to) == Stored(old(SlotsOf(to)), toStart, vs[..k])
    {
      assert from[fromStart + k] == Some(vs[k]);
      to[toStart + k] := from[fromStart + k];
      k := k + 1;
    }
    assert vs[..count] == vs;
  }

  /** Destroys the `count` live elements of `buf` from `start` on (`std::destroy_n`). */
  method DestroyN<T>(buf: array?<Option<T>>, start: nat, count: nat)
    requires AllLive(SlotsOf(buf), start, count)
    modifies buf
    ensures SlotsOf(buf) == Destroyed(old(SlotsOf(buf)), start, count)
  {
    var k := 0;
    while k < count
      invariant k <= count
      invariant SlotsOf(buf) == Destroyed(old(SlotsOf(buf)), start, k)
    {
      buf[start + k] := None;
      k := k + 1;
    }
  }

  /**
   * Constructs `count` value-initialised elements `value` in the raw slots of `buf` from
   * `start` on (`std::uninitialized_value_construct_n`).
   */
  method ValueConstructN<T>(buf: array?<Option<T>>, start: nat, count: nat, value: T)
    requires AllRaw(SlotsOf(buf), start, count)
    modifies buf
    ensures SlotsOf(buf) == Stored(old(SlotsOf(buf)), start, seq(count, _ => value))
  {
    ghost var vs := seq(count, _ => value);
    var k := 0;
    while k < count
      invariant k <= count
      invariant SlotsOf(buf) == Stored(old(SlotsOf(buf)), start, vs[..k])
    {
      buf[start + k] := Some(value);
      k := k + 1;
    }
    assert vs[..count] == vs;
  }

  /**
   * Move-assigns the live elements of `[first, last)` one by one, from the front, onto the
   * live slots starting at `dFirst <= first` of the same block (`std::move`).
   */
  method MoveRange<T>(buf: array<Option<T>>, first: nat, last: nat, dFirst: nat)
    requires dFirst <= first <= last <= buf.Length
    requires AllLive(buf[..], dFirst, last - first) && AllLive(buf[..], first, last - first)
    modifies buf
    ensures buf[..] == Stored(old(buf[..]), dFirst, Values(old(buf[..]), first, last - first))
  {
    ghost var was := buf[..];
    var k := first;
    while k < last
      invariant first <= k <= last
      invariant buf[..] == Stored(was, dFirst, Values(was, first, k - first))
    {
      buf[k - first + dFirst] := buf[k];
      k := k + 1;
    }
  }

  /**
   * Move-assigns the live elements of `[first, last)` one by one, from the back, onto the
   * live slots ending just before `dLast >= last` of the same block (`std::move_backward`).
   */
  method MoveBackward<T>(buf: array<Option<T>>, first: nat, last: nat, dLast: nat)
    requires first <= last <= dLast <= buf.Length
    requires AllLive(buf[..], first, last - first) && AllLive(buf[..], dLast - (last - first), last - first)
    modifies buf
    ensures buf[..] == Stored(old(buf[..]), dLast - (last - first), Values(old(buf[..]), first, last - first))
  {
    ghost var was := buf[..];
    var dFirst := dLast - (last - first);
    var k := last;
    while k > first
      invariant first <= k <= last
      invariant buf[..] == Stored(was, k - first + dFirst, Values(was, k, last - k))
    {
      buf[k - 1 - first + dFirst] := buf[k - 1];
      k := k - 1;
    }
    assert Values(was, first, last - first) == Values(was, k, last - k);
  }
}
