/** Facts about sequences shared by the segmenter and the solution list: no
    repeated elements, subsequences, and first occurrences. */
module Seqs {

  /** `a` is `b` with some elements left out, the others kept in order. */
  ghost predicate IsSubsequence<T>(a: seq<T>, b: seq<T>)
    decreases |b|
  {
    || |a| == 0
    || (|b| > 0 &&
        ((a[|a| - 1] == b[|b| - 1] && IsSubsequence(a[..|a| - 1], b[..|b| - 1]))
         || IsSubsequence(a, b[..|b| - 1])))
  }

  /** A subsequence of `b` stays one when `b` grows, and may grow along with it. */
  lemma SubsequenceExtend<T>(a: seq<T>, b: seq<T>, x: T)
    requires IsSubsequence(a, b)
    ensures IsSubsequence(a, b + [x])
    ensures IsSubsequence(a + [x], b + [x])
  {
    assert (b + [x])[..|b|] == b;
    assert (a + [x])[..|a|] == a;
  }

  /** Every element of a subsequence is an element of the whole. */
  lemma {:induction false} SubsequenceMembers<T>(a: seq<T>, b: seq<T>)
    requires IsSubsequence(a, b)
    ensures forall k :: 0 <= k < |a| ==> a[k] in b
    decreases |b|
  {
    if |a| > 0 {
      var b' := b[..|b| - 1];
      if a[|a| - 1] == b[|b| - 1] && IsSubsequence(a[..|a| - 1], b') {
        SubsequenceMembers(a[..|a| - 1], b');
        forall k | 0 <= k < |a|
          ensures a[k] in b
        {
          if k < |a| - 1 {
            assert a[k] == a[..|a| - 1][k];
            assert a[k] in b';
          }
        }
      } else {
        SubsequenceMembers(a, b');
      }
    }
  }

  /** A subsequence of a duplicate-free sequence is duplicate-free. */
  lemma {:induction false} SubsequenceNoDuplicates<T>(a: seq<T>, b: seq<T>)
    requires IsSubsequence(a, b) && NoDuplicates(b)
    ensures NoDuplicates(a)
    decreases |b|
  {
    if |a| > 0 {
      var b' := b[..|b| - 1];
      assert NoDuplicates(b') by {
        assert forall k :: 0 <= k < |b'| ==> b'[k] == b[k];
      }
      if a[|a| - 1] == b[|b| - 1] && IsSubsequence(a[..|a| - 1], b') {
        var a' := a[..|a| - 1];
        SubsequenceNoDuplicates(a', b');
        SubsequenceMembers(a', b');
        assert b[|b| - 1] !in b' by {
          assert forall k :: 0 <= k < |b'| ==> b'[k] == b[k];
        }
        AppendNoDuplicates(a', a[|a| - 1]);
        assert a == a' + [a[|a| - 1]];
      } else {
        SubsequenceNoDuplicates(a, b');
      }
    }
  }

  /** Position of the first occurrence of `x` in `s`. */
  function FirstIndex<T(==)>(s: seq<T>, x: T): (r: nat)
    requires x in s
    ensures r < |s| && s[r] == x && x !in s[..r]
  {
    if s[0] == x then 0
    else
      assert x in s[1..];
      var r := 1 + FirstIndex(s[1..], x);
      assert s[..r] == [s[0]] + s[1..][..r - 1];
      r
  }

  /** No element occurs twice. */
  predicate NoDuplicates<T(==)>(s: seq<T>) {
    forall a, b :: 0 <= a < b < |s| ==> s[a] != s[b]
  }

  /** `x` occurs first at position `p` of `src`. */
  ghost predicate FirstAt<T>(src: seq<T>, p: nat, x: T) {
    p < |src| && src[p] == x && x !in src[..p]
  }

  /** The first occurrence is unique, and it is the one `FirstIndex` finds. */
  lemma FirstAtIndex<T>(src: seq<T>, p: nat, x: T)
    requires FirstAt(src, p, x)
    ensures FirstIndex(src, x) == p
  {
    var f := FirstIndex(src, x);
    forall q | 0 <= q < p
      ensures src[q] != x
    {
      assert src[q] == src[..p][q];
    }
    forall q | 0 <= q < f
      ensures src[q] != x
    {
      assert src[q] == src[..f][q];
    }
  }

  /** Appending an element that is not there yet keeps a sequence duplicate-free. */
  lemma AppendNoDuplicates<T>(out: seq<T>, e: T)
    requires NoDuplicates(out) && e !in out
    ensures NoDuplicates(out + [e])
  {
    var out' := out + [e];
    assert forall a :: 0 <= a < |out| ==> out'[a] == out[a];
  }

  /** Two duplicate-free sequences with no element in common concatenate into a
      duplicate-free one. */
  lemma {:induction false} ConcatNoDuplicates<T>(x: seq<T>, y: seq<T>)
    requires NoDuplicates(x) && NoDuplicates(y)
    requires forall s :: s in x ==> s !in y
    ensures NoDuplicates(x + y)
  {
    var r := x + y;
    forall a, b | 0 <= a < b < |r|
      ensures r[a] != r[b]
    {
      if b < |x| {
        assert r[a] == x[a] && r[b] == x[b];
      } else if a >= |x| {
        assert r[a] == y[a - |x|] && r[b] == y[b - |x|];
      } else {
        assert r[a] == x[a] && r[b] == y[b - |x|];
        assert x[a] in x && y[b - |x|] in y;
      }
    }
  }
}
