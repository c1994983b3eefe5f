/** Order facts about sequences shared by the de-duplication and filtering
    parts of the model. */
module Seqs {

  /** `a` can be obtained from `b` by deleting elements (matched from the
      back, which is complete for subsequences). */
  predicate IsSubsequence<T(==)>(a: seq<T>, b: seq<T>)
    decreases |b|
  {
    if a == [] then true
    else if b == [] then false
    else if a[|a| - 1] == b[|b| - 1] then IsSubsequence(a[..|a| - 1], b[..|b| - 1])
    else IsSubsequence(a, b[..|b| - 1])
  }

  /** No element occurs twice. */
  predicate Distinct<T(==)>(s: seq<T>) {
    forall i, j :: 0 <= i < j < |s| ==> s[i] != s[j]
  }

  /** Appending an element to the longer sequence keeps a subsequence. */
  lemma {:induction false} SubsequenceExtend<T>(a: seq<T>, b: seq<T>, x: T)
    requires IsSubsequence(a, b)
    ensures IsSubsequence(a, b + [x])
    decreases |b|, 1
  {
    var b' := b + [x];
    assert b'[..|b'| - 1] == b;
    if a != [] && a[|a| - 1] == x {
      SubsequenceDropLast(a, b);
    }
  }

  /** Dropping the last element of the shorter sequence keeps a subsequence. */
  lemma {:induction false} SubsequenceDropLast<T>(a: seq<T>, b: seq<T>)
    requires a != [] && IsSubsequence(a, b)
    ensures IsSubsequence(a[..|a| - 1], b)
    decreases |b|, 0
  {
    var b0 := b[..|b| - 1];
    assert b == b0 + [b[|b| - 1]];
    if a[|a| - 1] == b[|b| - 1] {
      SubsequenceExtend(a[..|a| - 1], b0, b[|b| - 1]);
    } else {
      SubsequenceDropLast(a, b0);
      SubsequenceExtend(a[..|a| - 1], b0, b[|b| - 1]);
    }
  }

  /** Appending the same element to both keeps a subsequence. */
  lemma SubsequenceSnoc<T>(a: seq<T>, b: seq<T>, x: T)
    requires IsSubsequence(a, b)
    ensures IsSubsequence(a + [x], b + [x])
  {
    assert (a + [x])[..|a|] == a;
    assert (b + [x])[..|b|] == b;
  }

  /** Every element of a subsequence is an element of the sequence. */
  lemma {:induction false} SubsequenceMembers<T>(a: seq<T>, b: seq<T>)
    requires IsSubsequence(a, b)
    ensures forall k :: 0 <= k < |a| ==> a[k] in b
    decreases |b|
  {
    if a != [] {
      var b0 := b[..|b| - 1];
      if a[|a| - 1] == b[|b| - 1] {
        SubsequenceMembers(a[..|a| - 1], b0);
        assert forall k :: 0 <= k < |a| - 1 ==> a[k] == a[..|a| - 1][k];
      } else {
        SubsequenceMembers(a, b0);
      }
    }
  }

  /** Insertion into a JavaScript `Set`, in order: each value at its first
      occurrence. */
  function Dedup<T(==)>(xs: seq<T>): (r: seq<T>)
    ensures |r| <= |xs|
    decreases |xs|
  {
    if xs == [] then []
    else
      var n := |xs| - 1;
      var d := Dedup(xs[..n]);
      if xs[n] in d then d else d + [xs[n]]
  }

  /** The de-duplicated list holds exactly the values of the list, once
      each. */
  lemma {:induction false} DedupMembers<T>(xs: seq<T>)
    ensures forall x :: x in Dedup(xs) <==> x in xs
    ensures Distinct(Dedup(xs))
    decreases |xs|
  {
    if xs != [] {
      var n := |xs| - 1;
      DedupMembers(xs[..n]);
      assert xs == xs[..n] + [xs[n]];
    }
  }

  /** Values keep the order of their first occurrence: de-duplicating a
      prefix gives a prefix of the result, and the result is a subsequence
      of the list. */
  lemma {:induction false} DedupPrefix<T>(xs: seq<T>, m: nat)
    requires m <= |xs|
    ensures var d := Dedup(xs[..m]); |d| <= |Dedup(xs)| && Dedup(xs)[..|d|] == d
    decreases |xs|
  {
    if m < |xs| {
      var n := |xs| - 1;
      assert xs[..n][..m] == xs[..m];
      DedupPrefix(xs[..n], m);
    } else {
      assert xs[..m] == xs;
    }
  }

  lemma {:induction false} DedupSubsequence<T>(xs: seq<T>)
    ensures IsSubsequence(Dedup(xs), xs)
    decreases |xs|
  {
    if xs != [] {
      var n := |xs| - 1;
      DedupSubsequence(xs[..n]);
      assert xs == xs[..n] + [xs[n]];
      var d := Dedup(xs[..n]);
      if xs[n] in d {
        SubsequenceExtend(d, xs[..n], xs[n]);
      } else {
        SubsequenceSnoc(d, xs[..n], xs[n]);
      }
    }
  }

  /** One more value: appended when it was not seen before. */
  lemma DedupSnoc<T>(xs: seq<T>, x: T)
    ensures Dedup(xs + [x]) == if x in Dedup(xs) then Dedup(xs) else Dedup(xs) + [x]
  {
    assert (xs + [x])[..|xs|] == xs;
  }

  /** The total size of the elements, e.g. how many values a sequence of
      calls has drawn from a shared source. */
  function OffsetOf<A>(xs: seq<A>, size: A -> nat): nat
    decreases |xs|
  {
    if xs == [] then 0 else OffsetOf(xs[..|xs| - 1], size) + size(xs[|xs| - 1])
  }

  /** `xs.map(f)` where the k-th call also receives the total size of the
      elements before it. */
  function MapWithOffset<A, B>(xs: seq<A>, size: A -> nat, f: (A, nat) -> B): (r: seq<B>)
    ensures |r| == |xs|
    decreases |xs|
  {
    if xs == [] then []
    else
      var n := |xs| - 1;
      MapWithOffset(xs[..n], size, f) + [f(xs[n], OffsetOf(xs[..n], size))]
  }

  lemma MapWithOffsetSnoc<A, B>(xs: seq<A>, size: A -> nat, f: (A, nat) -> B, i: nat)
    requires i < |xs|
    ensures MapWithOffset(xs[..i + 1], size, f) == MapWithOffset(xs[..i], size, f) + [f(xs[i], OffsetOf(xs[..i], size))]
    ensures OffsetOf(xs[..i + 1], size) == OffsetOf(xs[..i], size) + size(xs[i])
  {
    assert xs[..i + 1][..i] == xs[..i];
  }

  /** Entry k is `f` applied to element k and the size of the elements
      before it. */
  lemma {:induction false} MapWithOffsetEntries<A, B>(xs: seq<A>, size: A -> nat, f: (A, nat) -> B)
    ensures forall k :: 0 <= k < |xs| ==> MapWithOffset(xs, size, f)[k] == f(xs[k], OffsetOf(xs[..k], size))
    decreases |xs|
  {
    if xs != [] {
      var n := |xs| - 1;
      var front := xs[..n];
      var pre := MapWithOffset(front, size, f);
      MapWithOffsetEntries(front, size, f);
      var r := MapWithOffset(xs, size, f);
      assert r == pre + [f(xs[n], OffsetOf(front, size))];
      forall k | 0 <= k < |xs| ensures r[k] == f(xs[k], OffsetOf(xs[..k], size)) {
        if k < n {
          assert r[k] == pre[k];
          assert front[k] == xs[k];
          assert front[..k] == xs[..k];
        }
      }
    }
  }

  /** An element starts at or after the end of every element before it. */
  lemma {:induction false} OffsetOfGrows<A>(xs: seq<A>, size: A -> nat, i: nat, j: nat)
    requires i < j <= |xs|
    ensures OffsetOf(xs[..i], size) + size(xs[i]) <= OffsetOf(xs[..j], size)
    decreases j
  {
    assert xs[..j][..j - 1] == xs[..j - 1];
    if i < j - 1 {
      OffsetOfGrows(xs, size, i, j - 1);
    } else {
      assert xs[..j - 1] == xs[..i];
    }
  }

  /** `xs.map(f)`. */
  function Map<A, B>(xs: seq<A>, f: A -> B): (r: seq<B>)
    ensures |r| == |xs| && forall k :: 0 <= k < |xs| ==> r[k] == f(xs[k])
  {
    seq(|xs|, k requires 0 <= k < |xs| => f(xs[k]))
  }

  /** `xs.filter(keep)`: the elements that pass, in order. */
  function Filter<T>(xs: seq<T>, keep: T -> bool): (r: seq<T>)
    ensures |r| <= |xs|
    ensures forall k :: 0 <= k < |r| ==> keep(r[k])
    decreases |xs|
  {
    if xs == [] then []
    else
      var n := |xs| - 1;
      Filter(xs[..n], keep) + (if keep(xs[n]) then [xs[n]] else [])
  }

  /** An element is in the filtered list exactly when it is in the list and
      passes, and the filtered list keeps the list's order. */
  lemma {:induction false} FilterMembers<T>(xs: seq<T>, keep: T -> bool)
    ensures forall x :: x in Filter(xs, keep) <==> x in xs && keep(x)
    ensures IsSubsequence(Filter(xs, keep), xs)
    decreases |xs|
  {
    if xs != [] {
      var n := |xs| - 1;
      var front := xs[..n];
      FilterMembers(front, keep);
      assert xs == front + [xs[n]];
      if keep(xs[n]) {
        assert Filter(xs, keep) == Filter(front, keep) + [xs[n]];
        SubsequenceSnoc(Filter(front, keep), front, xs[n]);
      } else {
        assert Filter(xs, keep) == Filter(front, keep);
        SubsequenceExtend(Filter(front, keep), front, xs[n]);
      }
    }
  }
}
