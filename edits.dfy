/**
 * What the container's positional operations do to its sequence of elements, stated
 * independently of slots and capacity.
 */
module Edits {

  /** `s` with `v` inserted so that it sits at position `i`. */
  function Inserted<T>(s: seq<T>, i: nat, v: T): (r: seq<T>)
    requires i <= |s|
    ensures |r| == |s| + 1
    ensures forall k :: 0 <= k < |r| ==> r[k] == if k < i then s[k] else if k == i then v else s[k - 1]
  {
    s[..i] + [v] + s[i..]
  }

  /** `s` without the element at position `i`. */
  function Erased<T>(s: seq<T>, i: nat): (r: seq<T>)
    requires i < |s|
    ensures |r| == |s| - 1
    ensures forall k :: 0 <= k < |r| ==> r[k] == if k < i then s[k] else s[k + 1]
  {
    s[..i] + s[i + 1..]
  }

  /**
   * `s` cut down to its first `n` elements, or padded with value-initialised elements
   * `value` up to length `n`.
   */
  function Resized<T>(s: seq<T>, n: nat, value: T): (r: seq<T>)
    ensures |r| == n
    ensures forall k :: 0 <= k < n ==> r[k] == if k < |s| then s[k] else value
  {
    if n <= |s| then s[..n] else s + seq(n - |s|, _ => value)
  }

  /** Erasing the element just inserted at `i` restores the original sequence. */
  lemma {:induction false} EraseInserted<T>(s: seq<T>, i: nat, v: T)
    requires i <= |s|
    ensures Erased(Inserted(s, i, v), i) == s
  {
    var r := Erased(Inserted(s, i, v), i);
    assert forall k :: 0 <= k < |s| ==> r[k] == s[k];
  }

  /** Re-inserting the element erased at `i` restores the original sequence. */
  lemma {:induction false} InsertErased<T>(s: seq<T>, i: nat)
    requires i < |s|
    ensures Inserted(Erased(s, i), i, s[i]) == s
  {
    var r := Inserted(Erased(s, i), i, s[i]);
    assert forall k :: 0 <= k < |s| ==> r[k] == s[k];
  }

  /** Inserting at the end is appending, which is why insertion at `end()` is an append. */
  lemma {:induction false} InsertedAtEnd<T>(s: seq<T>, v: T)
    ensures Inserted(s, |s|, v) == s + [v]
  {
    var r := Inserted(s, |s|, v);
    assert forall k :: 0 <= k < |r| ==> r[k] == (s + [v])[k];
  }

  /** Erasing the last element is dropping it, which is what removing the last element does. */
  lemma {:induction false} ErasedLast<T>(s: seq<T>)
    requires |s| > 0
    ensures Erased(s, |s| - 1) == s[..|s| - 1]
  {
    var r := Erased(s, |s| - 1);
    assert forall k :: 0 <= k < |r| ==> r[k] == s[..|s| - 1][k];
  }

  /** Growing and then shrinking back to the old length restores the original sequence. */
  lemma {:induction false} ShrinkAfterGrow<T>(s: seq<T>, n: nat, value: T)
    requires |s| <= n
    ensures Resized(Resized(s, n, value), |s|, value) == s
  {
    var r := Resized(Resized(s, n, value), |s|, value);
    assert forall k :: 0 <= k < |s| ==> r[k] == s[k];
  }

  /** Resizing keeps the common prefix: the first `min(n, |s|)` elements are untouched. */
  lemma {:induction false} ResizedKeepsPrefix<T>(s: seq<T>, n: nat, value: T)
    ensures n <= |s| ==> Resized(s, n, value) == s[..n]
    ensures |s| <= n ==> Resized(s, n, value)[..|s|] == s
  {
    var r := Resized(s, n, value);
    if n <= |s| {
      assert forall k :: 0 <= k < n ==> r[k] == s[..n][k];
    } else {
      assert forall k :: 0 <= k < |s| ==> r[..|s|][k] == s[k];
    }
  }
}
