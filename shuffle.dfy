/**
 * The outcome of one `random.shuffle` of a list of length `m`, written as
 * the list of original indices: entry `k` of the shuffled list is entry
 * `order[k]` of the list before the shuffle.
 */
module Shuffles {

  /** The indices 0 .. m - 1 in increasing order. */
  function Range(m: nat): (r: seq<nat>)
    ensures |r| == m
    ensures forall k :: 0 <= k < m ==> r[k] == k
  {
    seq(m, k => k)
  }

  /**
   * `order` takes each index below `m` exactly once. The bounds follow from
   * the multiset equation; they are spelled out so that `order[k]` can index
   * lists of length `m`.
   */
  predicate IsShuffle(order: seq<nat>, m: nat)
  {
    |order| == m && (forall k :: 0 <= k < |order| ==> order[k] < m) &&
    multiset(order) == multiset(Range(m))
  }

  /** Every index below `m` occurs once in `Range(m)`, and nothing else occurs. */
  lemma {:induction false} RangeOnce(m: nat, v: nat)
    ensures multiset(Range(m))[v] == if v < m then 1 else 0
  {
    if m > 0 {
      assert Range(m) == Range(m - 1) + [m - 1];
      RangeOnce(m - 1, v);
    }
  }

  /** A shuffle never takes the same index twice. */
  lemma ShuffleInjective(order: seq<nat>, m: nat)
    requires IsShuffle(order, m)
    ensures forall a, b :: 0 <= a < b < |order| ==> order[a] != order[b]
  {
    forall a, b | 0 <= a < b < |order|
      ensures order[a] != order[b]
    {
      if order[a] == order[b] {
        var v := order[a];
        assert order == order[..a] + [v] + order[a + 1..b] + [v] + order[b + 1..];
        assert multiset(order)[v] >= 2;
        RangeOnce(m, v);
      }
    }
  }

  /** The number of entries of `s` below `bound`. */
  function Below(s: seq<nat>, bound: nat): (n: nat)
    ensures n <= |s|
  {
    if s == [] then 0
    else Below(s[..|s| - 1], bound) + (if s[|s| - 1] < bound then 1 else 0)
  }

  lemma {:induction false} BelowConcat(a: seq<nat>, b: seq<nat>, bound: nat)
    ensures Below(a + b, bound) == Below(a, bound) + Below(b, bound)
  {
    if b != [] {
      assert (a + b)[..|a + b| - 1] == a + b[..|b| - 1];
      BelowConcat(a, b[..|b| - 1], bound);
    } else {
      assert a + b == a;
    }
  }

  /** The count below a bound depends only on the multiset of entries. */
  lemma {:induction false} BelowMultiset(a: seq<nat>, b: seq<nat>, bound: nat)
    requires multiset(a) == multiset(b)
    ensures Below(a, bound) == Below(b, bound)
    decreases |a|
  {
    if a == [] {
      assert |b| == |multiset(b)| == 0;
    } else {
      var x := a[|a| - 1];
      var a' := a[..|a| - 1];
      assert a == a' + [x];
      assert x in multiset(b);
      var i :| 0 <= i < |b| && b[i] == x;
      var b' := b[..i] + b[i + 1..];
      assert b == b[..i] + [x] + b[i + 1..];
      assert multiset(b') == multiset(b) - multiset{x} by {
        assert multiset(b) == multiset(b[..i]) + multiset{x} + multiset(b[i + 1..]);
        assert multiset(b') == multiset(b[..i]) + multiset(b[i + 1..]);
      }
      assert multiset(a') == multiset(a) - multiset{x};
      BelowMultiset(a', b', bound);
      BelowConcat(a', [x], bound);
      BelowConcat(b[..i] + [x], b[i + 1..], bound);
      BelowConcat(b[..i], [x], bound);
      BelowConcat(b[..i], b[i + 1..], bound);
    }
  }

  lemma {:induction false} BelowRange(m: nat, bound: nat)
    ensures Below(Range(m), bound) == if bound < m then bound else m
  {
    if m > 0 {
      assert Range(m)[..m - 1] == Range(m - 1);
      BelowRange(m - 1, bound);
    }
  }

  /**
   * Shuffling keeps the number of entries taken from the first `bound`
   * positions: exactly `bound` of them, when `bound <= m`.
   */
  lemma ShuffleKeepsCount(order: seq<nat>, m: nat, bound: nat)
    requires IsShuffle(order, m) && bound <= m
    ensures Below(order, bound) == bound
  {
    BelowMultiset(order, Range(m), bound);
    BelowRange(m, bound);
  }
}
