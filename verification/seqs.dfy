/** The `Vec` and iterator operations both configuration stores use:
    `position`/`find` (first match), `remove(index)` and `retain`. */
module Seqs {
  import opened Wrappers

  /** `k` is the index of the first element of `s` satisfying `p`. */
  predicate IsFirst<T>(s: seq<T>, p: T -> bool, k: nat) {
    k < |s| && p(s[k]) && forall i | 0 <= i < k :: !p(s[i])
  }

  /** `Iterator::position`: the index of the first element satisfying `p`. */
  function FirstIndex<T>(s: seq<T>, p: T -> bool): (r: Option<nat>)
    ensures r.None? <==> forall i | 0 <= i < |s| :: !p(s[i])
    ensures r.Some? ==> IsFirst(s, p, r.value)
  {
    if |s| == 0 then None
    else if p(s[0]) then Some(0)
    else match FirstIndex(s[1..], p)
      case None => None
      case Some(k) => Some(k + 1)
  }

  /** There is at most one first match. */
  lemma FirstIsUnique<T>(s: seq<T>, p: T -> bool, j: nat, k: nat)
    requires IsFirst(s, p, j) && IsFirst(s, p, k)
    ensures j == k
  {
  }

  /** `Vec::remove(i)`: the element at `i` is dropped, the rest keep their
      order. */
  function RemoveAt<T>(s: seq<T>, i: nat): (r: seq<T>)
    requires i < |s|
    ensures |r| == |s| - 1
    ensures forall j | 0 <= j < i :: r[j] == s[j]
    ensures forall j | i <= j < |r| :: r[j] == s[j + 1]
  {
    s[..i] + s[i + 1..]
  }

  /** `Vec::retain`: the elements satisfying `keep`, in their order. */
  function Retain<T>(s: seq<T>, keep: T -> bool): seq<T> {
    if |s| == 0 then []
    else if keep(s[0]) then [s[0]] + Retain(s[1..], keep)
    else Retain(s[1..], keep)
  }

  /** The indices of `s` whose elements `keep` accepts, in increasing order. */
  function KeptIndices<T>(s: seq<T>, keep: T -> bool, from: nat): (idx: seq<nat>)
    requires from <= |s|
    ensures forall k | 0 <= k < |idx| :: from <= idx[k] < |s| && keep(s[idx[k]])
    ensures forall k, l | 0 <= k < l < |idx| :: idx[k] < idx[l]
    ensures forall i | from <= i < |s| && keep(s[i]) :: i in idx
    decreases |s| - from
  {
    if from == |s| then []
    else if keep(s[from]) then [from] + KeptIndices(s, keep, from + 1)
    else KeptIndices(s, keep, from + 1)
  }

  /** What `retain` leaves is exactly the subsequence of `s` at the indices
      whose elements `keep` accepts: nothing else, nothing reordered. */
  lemma {:induction false} RetainIsSubsequence<T>(s: seq<T>, keep: T -> bool)
    ensures var idx := KeptIndices(s, keep, 0);
      |Retain(s, keep)| == |idx| && forall k | 0 <= k < |idx| :: Retain(s, keep)[k] == s[idx[k]]
  {
    RetainFrom(s, keep, 0);
    assert s[0..] == s;
  }

  lemma {:induction false} RetainFrom<T>(s: seq<T>, keep: T -> bool, from: nat)
    requires from <= |s|
    ensures var idx := KeptIndices(s, keep, from);
      |Retain(s[from..], keep)| == |idx| && forall k | 0 <= k < |idx| :: Retain(s[from..], keep)[k] == s[idx[k]]
    decreases |s| - from
  {
    if from < |s| {
      RetainFrom(s, keep, from + 1);
      assert s[from..][1..] == s[from + 1..];
    }
  }

  /** An element survives `retain` exactly when it was there and `keep`
      accepts it. */
  lemma {:induction false} RetainMembers<T>(s: seq<T>, keep: T -> bool, x: T)
    ensures x in Retain(s, keep) <==> x in s && keep(x)
  {
    if |s| > 0 {
      RetainMembers(s[1..], keep, x);
      assert s == [s[0]] + s[1..];
    }
  }

  /** `retain` with a predicate that accepts nothing empties the sequence. */
  lemma {:induction false} RetainRejectingAll<T>(s: seq<T>, keep: T -> bool)
    requires forall x :: !keep(x)
    ensures Retain(s, keep) == []
  {
    if |s| > 0 {
      RetainRejectingAll(s[1..], keep);
    }
  }

  /** `retain` distributes over concatenation. */
  lemma {:induction false} RetainConcat<T>(a: seq<T>, b: seq<T>, keep: T -> bool)
    ensures Retain(a + b, keep) == Retain(a, keep) + Retain(b, keep)
  {
    if |a| > 0 {
      assert (a + b)[1..] == a[1..] + b;
      RetainConcat(a[1..], b, keep);
    } else {
      assert a + b == b;
    }
  }

  /** Removing an element `keep` rejects does not change what `retain` keeps. */
  lemma RetainRemoveAt<T>(s: seq<T>, i: nat, keep: T -> bool)
    requires i < |s| && !keep(s[i])
    ensures Retain(RemoveAt(s, i), keep) == Retain(s, keep)
  {
    assert s == s[..i] + [s[i]] + s[i + 1..];
    RetainConcat(s[..i] + [s[i]], s[i + 1..], keep);
    RetainConcat(s[..i], [s[i]], keep);
    RetainConcat(s[..i], s[i + 1..], keep);
  }

  /** `retain` with a predicate every element satisfies changes nothing. */
  lemma {:induction false} RetainAcceptingAll<T>(s: seq<T>, keep: T -> bool)
    requires forall i | 0 <= i < |s| :: keep(s[i])
    ensures Retain(s, keep) == s
  {
    if |s| > 0 {
      RetainAcceptingAll(s[1..], keep);
      assert s == [s[0]] + s[1..];
    }
  }
}
