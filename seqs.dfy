/** Small sequence vocabulary shared by the other modules. */
module Seqs {

  /** No element occurs twice. */
  predicate Distinct<T(==)>(s: seq<T>) {
    forall i, j | 0 <= i < j < |s| :: s[i] != s[j]
  }

  /** Dropping the head keeps the rest free of repeats, and the head is not
      among them. */
  lemma DistinctTail<T>(s: seq<T>)
    requires Distinct(s) && s != []
    ensures Distinct(s[1..]) && s[0] !in s[1..]
  {
    forall i, j | 0 <= i < j < |s[1..]| ensures s[1..][i] != s[1..][j] {
      assert s[1..][i] == s[i + 1] && s[1..][j] == s[j + 1];
    }
    forall j | 0 <= j < |s[1..]| ensures s[1..][j] != s[0] {
      assert s[1..][j] == s[j + 1];
    }
  }

  /** In a sequence without repeats, the element at `i` is at no other position. */
  lemma DistinctAt<T>(s: seq<T>, i: nat)
    requires Distinct(s) && i < |s|
    ensures forall k | 0 <= k < |s| && k != i :: s[k] != s[i]
  {
  }

  /** A strictly increasing sequence of indices. */
  predicate Increasing(s: seq<nat>) {
    forall i, j | 0 <= i < j < |s| :: s[i] < s[j]
  }

  /** The elements of `s` at the positions `idx`, in the order of `idx`. */
  function Pick<T>(s: seq<T>, idx: seq<nat>): (r: seq<T>)
    requires forall k | 0 <= k < |idx| :: idx[k] < |s|
    ensures |r| == |idx|
    ensures forall k | 0 <= k < |idx| :: r[k] == s[idx[k]]
  {
    seq(|idx|, k requires 0 <= k < |idx| => s[idx[k]])
  }

  /** `sub` is `s` with some elements left out, the rest kept in order. */
  ghost predicate Subsequence<T>(sub: seq<T>, s: seq<T>) {
    exists idx: seq<nat> | Increasing(idx) && (forall k | 0 <= k < |idx| :: idx[k] < |s|) :: sub == Pick(s, idx)
  }

  /** Picking at increasing positions from a sequence without repeats gives a
      sequence without repeats. */
  lemma PickDistinct<T>(s: seq<T>, idx: seq<nat>)
    requires Distinct(s) && Increasing(idx)
    requires forall k | 0 <= k < |idx| :: idx[k] < |s|
    ensures Distinct(Pick(s, idx))
  {
  }

  /** Extending increasing positions, all below `i`, by `i`: the positions stay
      increasing and below any bound above `i`, and the picked elements grow by
      `s[i]`. */
  lemma PickSnoc<T>(s: seq<T>, idx: seq<nat>, i: nat, bound: nat)
    requires Increasing(idx) && forall k | 0 <= k < |idx| :: idx[k] < i
    requires i < bound <= |s|
    ensures Increasing(idx + [i]) && forall k | 0 <= k < |idx + [i]| :: (idx + [i])[k] < bound
    ensures Pick(s, idx + [i]) == Pick(s, idx) + [s[i]]
  {
  }

  /** In a sequence without repeats, the element at a position above all the
      picked ones is not among the picked elements. */
  lemma NotPicked<T>(s: seq<T>, idx: seq<nat>, i: nat)
    requires Distinct(s) && i < |s|
    requires forall k | 0 <= k < |idx| :: idx[k] < i
    ensures s[i] !in Pick(s, idx)
  {
  }

  /** Every position in `idx` contributes its element to the picked ones. */
  lemma PickedAt<T>(s: seq<T>, idx: seq<nat>)
    requires forall k | 0 <= k < |idx| :: idx[k] < |s|
    ensures forall i | 0 <= i < |s| && i in idx :: s[i] in Pick(s, idx)
  {
    forall i | 0 <= i < |s| && i in idx ensures s[i] in Pick(s, idx) {
      var t :| 0 <= t < |idx| && idx[t] == i;
      assert Pick(s, idx)[t] == s[i];
    }
  }

  /** Picking from `s + [x]` at positions below `|s|` picks from `s`, and
      adding the position `|s|` picks `x` as well. */
  lemma PickAppend<T>(s: seq<T>, x: T, idx: seq<nat>)
    requires forall k | 0 <= k < |idx| :: idx[k] < |s|
    ensures Pick(s + [x], idx) == Pick(s, idx)
    ensures Pick(s + [x], idx + [|s|]) == Pick(s, idx) + [x]
  {
    assert Pick(s + [x], idx + [|s|]) == Pick(s + [x], idx) + [x];
  }

  /** Appending one element to `s`, and keeping it or not, extends a
      subsequence of `s` to a subsequence of the longer sequence. */
  lemma SubsequenceSnoc<T>(sub: seq<T>, s: seq<T>, x: T, keep: bool)
    requires Subsequence(sub, s)
    ensures Subsequence(sub + (if keep then [x] else []), s + [x])
  {
    var idx: seq<nat> :| Increasing(idx) && (forall k | 0 <= k < |idx| :: idx[k] < |s|) && sub == Pick(s, idx);
    PickAppend(s, x, idx);
    if keep {
      var idx': seq<nat> := idx + [|s|];
      assert forall k | 0 <= k < |idx'| :: idx'[k] < |s + [x]|;
      assert Increasing(idx');
    } else {
      assert forall k | 0 <= k < |idx| :: idx[k] < |s + [x]|;
    }
  }

  /** In a sequence without repeats, an element is picked only from its own
      position. */
  lemma PickedOnlyAt<T>(s: seq<T>, idx: seq<nat>)
    requires Distinct(s) && forall k | 0 <= k < |idx| :: idx[k] < |s|
    ensures forall i | 0 <= i < |s| && s[i] in Pick(s, idx) :: i in idx
  {
    forall i | 0 <= i < |s| && s[i] in Pick(s, idx) ensures i in idx {
      var t :| 0 <= t < |idx| && Pick(s, idx)[t] == s[i];
      assert s[idx[t]] == s[i];
    }
  }
}
