/** The counterexample shrinker of the host property suites (tests/host/prop.c). */
module Shrink {

  /** s without the len elements starting at index at. */
  function Without<T>(s: seq<T>, at: nat, len: nat): seq<T>
    requires at + len <= |s|
  {
    s[..at] + s[at + len..]
  }

  /** kept lists, in increasing order, the indices of t that make up s. */
  ghost predicate Selects<T>(kept: seq<nat>, s: seq<T>, t: seq<T>) {
    && |kept| == |s|
    && (forall i :: 0 <= i < |kept| ==> kept[i] < |t| && s[i] == t[kept[i]])
    && (forall i, j :: 0 <= i < j < |kept| ==> kept[i] < kept[j])
  }

  /** s is t with some elements removed and the rest in order. */
  ghost predicate Subsequence<T>(s: seq<T>, t: seq<T>) {
    exists kept: seq<nat> :: Selects(kept, s, t)
  }

  /** The property fails on s, but holds once any single element is removed. */
  ghost predicate OneMinimalFailure<T>(s: seq<T>, holds: seq<T> -> bool) {
    && !holds(s)
    && forall i: nat :: i < |s| ==> holds(Without(s, i, 1))
  }

  /** Removing a block of a subsequence leaves a subsequence. */
  lemma SubsequenceWithout<T>(s: seq<T>, t: seq<T>, at: nat, len: nat)
    requires Subsequence(s, t) && at + len <= |s|
    ensures Subsequence(Without(s, at, len), t)
  {
    var kept: seq<nat> :| Selects(kept, s, t);
    var rest := Without(kept, at, len);
    forall i, j | 0 <= i < j < |rest|
      ensures rest[i] < rest[j]
    {
      assert rest[i] == kept[if i < at then i else i + len];
      assert rest[j] == kept[if j < at then j else j + len];
    }
    assert Selects(rest, Without(s, at, len), t);
  }

  /** Every sequence is its own subsequence. */
  lemma SubsequenceReflexive<T>(s: seq<T>)
    ensures Subsequence(s, s)
  {
    assert Selects(seq(|s|, i => i), s, s);
  }

  /** The two copies that build a trial: everything of items[..n] but the chunk. */
  method CopyWithout<T>(items: array<T>, n: nat, at: nat, len: nat, scratch: array<T>)
    requires at + len <= n <= items.Length && n <= scratch.Length && items != scratch
    modifies scratch
    ensures scratch[..n - len] == Without(items[..n], at, len)
  {
    forall i | 0 <= i < at {
      scratch[i] := items[i];
    }
    forall i | 0 <= i < n - at - len {
      scratch[at + i] := items[at + len + i];
    }
  }

  /** The copy that keeps a failing trial. */
  method CopyBack<T>(items: array<T>, n: nat, scratch: array<T>)
    requires n <= items.Length && n <= scratch.Length && items != scratch
    modifies items
    ensures items[..n] == scratch[..n] && items[n..] == old(items[n..])
  {
    forall i | 0 <= i < n {
      items[i] := scratch[i];
    }
  }

  /** What one pass with chunk size 1 that removed nothing has established so far. */
  ghost predicate PrefixNeeded<T>(s: seq<T>, at: nat, holds: seq<T> -> bool) {
    forall i: nat :: i < at && i < |s| ==> holds(Without(s, i, 1))
  }

  /** One pass: try to remove each chunk in turn, keeping every removal that still fails. */
  method Pass<T>(items: array<T>, count: nat, chunk: nat, scratch: array<T>, holds: seq<T> -> bool)
    returns (n: nat)
    requires 0 < chunk && count <= items.Length && count <= scratch.Length && items != scratch
    requires !holds(items[..count])
    modifies items, scratch
    ensures n <= count
    ensures Subsequence(items[..n], old(items[..count])) && !holds(items[..n])
    ensures n == count && chunk == 1 ==> OneMinimalFailure(items[..n], holds)
    ensures items[count..] == old(items[count..])
  {
    ghost var original := items[..count];
    ghost var current := original;
    SubsequenceReflexive(original);
    n := count;
    var at: nat := 0;
    while at < n
      invariant at <= n <= count && items[..n] == current
      invariant Subsequence(current, original) && !holds(current)
      invariant n == count && chunk == 1 ==> PrefixNeeded(current, at, holds)
      invariant items[count..] == old(items[count..])
      decreases n - at
    {
      var len: nat := if chunk < n - at then chunk else n - at;
      ghost var tail := items[count..];
      CopyWithout(items, n, at, len, scratch);
      if !holds(scratch[..n - len]) {
        SubsequenceWithout(current, original, at, len);
        current := Without(current, at, len);
        n := n - len;
        label kept:
        CopyBack(items, n, scratch);
        assert items[count..] == items[n..][count - n..] == old@kept(items[n..])[count - n..] == tail;
      } else {
        at := at + len;
      }
    }
  }

  /** Subsequences compose. */
  lemma SubsequenceTransitive<T>(s: seq<T>, t: seq<T>, u: seq<T>)
    requires Subsequence(s, t) && Subsequence(t, u)
    ensures Subsequence(s, u)
  {
    var inner: seq<nat> :| Selects(inner, s, t);
    var outer: seq<nat> :| Selects(outer, t, u);
    assert Selects(seq(|inner|, i requires 0 <= i < |inner| => outer[inner[i]]), s, u);
  }

  /**
   * ddmin over items[..count], in place, with scratch as the trial buffer. A pass that removes
   * something is repeated with the chunk capped at the new count; one that removes nothing halves
   * the chunk, so (count, chunk) falls lexicographically.
   */
  method PropShrink<T>(items: array<T>, count: nat, scratch: array<T>, holds: seq<T> -> bool)
    returns (n: nat)
    requires count <= items.Length && count <= scratch.Length && items != scratch
    requires !holds(items[..count])
    modifies items, scratch
    ensures n <= count
    ensures Subsequence(items[..n], old(items[..count]))
    ensures OneMinimalFailure(items[..n], holds)
    ensures items[count..] == old(items[count..])
  {
    ghost var original := items[..count];
    SubsequenceReflexive(original);
    n := count;
    var chunk: nat := if count / 2 != 0 then count / 2 else 1;
    while chunk != 0 && n != 0
      invariant n <= count
      invariant Subsequence(items[..n], original) && !holds(items[..n])
      invariant chunk == 0 && n != 0 ==> OneMinimalFailure(items[..n], holds)
      invariant items[count..] == old(items[count..])
      decreases n, chunk
    {
      ghost var before := items[..n];
      ghost var tail := items[n..];
      var left := Pass(items, n, chunk, scratch, holds);
      SubsequenceTransitive(items[..left], before, original);
      assert items[count..] == items[n..][count - n..];
      assert tail[count - n..] == old(items[count..]);
      var removed := left != n;
      n := left;
      if !removed {
        chunk := chunk / 2;
      } else if chunk > n {
        chunk := n;
      }
    }
  }
}
