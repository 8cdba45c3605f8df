/** Sequence operations of the .NET `List<T>` the vault relies on, and the
    reference notions used to state what its loops achieve. */
module Seqs {
  import opened Wrappers

  /** `List<T>.IndexOf`: the first index holding `x`, if any. */
  function IndexOf<T(==)>(s: seq<T>, x: T): (r: Option<nat>)
    ensures r.None? <==> x !in s
    ensures r.Some? ==> r.value < |s| && s[r.value] == x && x !in s[..r.value]
  {
    if s == [] then None
    else if s[0] == x then Some(0)
    else match IndexOf(s[1..], x)
      case None => None
      case Some(j) =>
        assert s[1..][..j] == s[1..j + 1];
        Some(j + 1)
  }

  /** Extending a sequence does not move the first occurrence of an element
      that it already holds, nor create one of an element the extension lacks. */
  lemma IndexOfExtend<T>(s: seq<T>, t: seq<T>, x: T)
    requires x in s || x !in t
    ensures IndexOf(s + t, x) == IndexOf(s, x)
  {
    if x in s {
      var i := IndexOf(s, x).value;
      assert (s + t)[i] == x;
    } else {
      assert x !in s + t;
    }
  }

  /** `List<T>.Remove(x)`: drops the first element equal to `x`; no change when
      there is none. */
  function RemoveFirst<T(==)>(s: seq<T>, x: T): (r: seq<T>)
    ensures x !in s ==> r == s
    ensures x in s ==> |r| == |s| - 1
  {
    if s == [] then []
    else if s[0] == x then s[1..]
    else [s[0]] + RemoveFirst(s[1..], x)
  }

  /** What `Remove` drops is the element at the first index of `x`. */
  lemma {:induction false} RemoveFirstSlices<T>(s: seq<T>, x: T)
    requires x in s
    ensures var k := IndexOf(s, x).value; RemoveFirst(s, x) == s[..k] + s[k + 1..]
  {
    if s[0] != x {
      assert x in s[1..] by {
        var k := IndexOf(s, x).value;
        assert s[1..][k - 1] == x;
      }
      RemoveFirstSlices(s[1..], x);
      ConsSlices(s, IndexOf(s[1..], x).value);
    }
  }

  lemma AppendAssoc<T>(a: seq<T>, b: seq<T>, c: seq<T>)
    ensures a + (b + c) == (a + b) + c
  {
  }

  /** Removing from a sequence without repeats leaves none, and leaves no copy
      of the removed element. */
  lemma RemoveFirstDistinct<T>(s: seq<T>, x: T)
    requires Distinct(s)
    ensures Distinct(RemoveFirst(s, x)) && x !in RemoveFirst(s, x)
  {
    if x in s {
      var k := IndexOf(s, x).value;
      RemoveFirstSlices(s, x);
      var r := s[..k] + s[k + 1..];
      forall i | 0 <= i < |r|
        ensures r[i] == s[if i < k then i else i + 1]
      {
        if i >= k {
          assert r[i] == s[k + 1..][i - k];
        }
      }
      forall i, j | 0 <= i < j < |r|
        ensures r[i] != r[j]
      {
        var i', j' := if i < k then i else i + 1, if j < k then j else j + 1;
        assert r[i] == s[i'] && r[j] == s[j'];
      }
      forall i | 0 <= i < |r|
        ensures r[i] != x
      {
        var i' := if i < k then i else i + 1;
        assert r[i] == s[i'] && s[k] == x;
      }
    }
  }

  /** The slices of `s[1..]` at `j` are those of `s` at `j + 1`. */
  lemma ConsSlices<T>(s: seq<T>, j: nat)
    requires j + 1 < |s|
    ensures [s[0]] + s[1..][..j] == s[..j + 1] && s[1..][j + 1..] == s[j + 2..]
  {
  }

  /** `s` is the part before index `k`, the element there, and the rest. */
  lemma SplitAt<T>(s: seq<T>, k: nat)
    requires k < |s|
    ensures s == s[..k] + [s[k]] + s[k + 1..]
  {
  }

  /** `Remove` takes away exactly one copy of `x` when there is one. */
  lemma RemoveFirstMultiset<T>(s: seq<T>, x: T)
    ensures multiset(RemoveFirst(s, x)) == if x in s then multiset(s) - multiset{x} else multiset(s)
  {
    if x in s {
      var k := IndexOf(s, x).value;
      RemoveFirstSlices(s, x);
      SplitAt(s, k);
      assert multiset(s) == multiset(s[..k]) + multiset{x} + multiset(s[k + 1..]);
    }
  }

  /** Removing the element at an index where it occurs for the first time is
      removing that index. */
  lemma RemoveFirstAt<T>(s: seq<T>, k: nat)
    requires k < |s| && s[k] !in s[..k]
    ensures RemoveFirst(s, s[k]) == s[..k] + s[k + 1..]
  {
    assert IndexOf(s, s[k]).value == k;
    RemoveFirstSlices(s, s[k]);
  }

  /** No element occurs twice. */
  predicate Distinct<T(==)>(s: seq<T>) {
    forall i, j :: 0 <= i < j < |s| ==> s[i] != s[j]
  }

  /** Appending a new element keeps a sequence free of repeats. */
  lemma DistinctSnoc<T>(s: seq<T>, x: T)
    requires Distinct(s) && x !in s
    ensures Distinct(s + [x])
  {
  }

  /** `a` is `b` with some elements deleted: the elements of `a` occur in `b`
      in the same order. */
  predicate IsSubsequence<T(==)>(a: seq<T>, b: seq<T>)
    decreases |b|
  {
    if a == [] then true
    else if b == [] then false
    else if a[0] == b[0] then IsSubsequence(a[1..], b[1..])
    else IsSubsequence(a, b[1..])
  }

  lemma {:induction false} SubsequenceTail<T>(a: seq<T>, b: seq<T>)
    requires a != [] && IsSubsequence(a, b)
    ensures IsSubsequence(a[1..], b)
    decreases |a| + |b|, 0
  {
    if a[0] == b[0] {
      SubsequenceCons(a[1..], b[1..], b[0]);
      assert [b[0]] + b[1..] == b;
    } else {
      SubsequenceTail(a, b[1..]);
      SubsequenceCons(a[1..], b[1..], b[0]);
      assert [b[0]] + b[1..] == b;
    }
  }

  lemma {:induction false} SubsequenceCons<T>(a: seq<T>, b: seq<T>, x: T)
    requires IsSubsequence(a, b)
    ensures IsSubsequence(a, [x] + b)
    decreases |a| + |b|, 1
  {
    assert ([x] + b)[1..] == b;
    if a != [] && a[0] == x {
      SubsequenceTail(a, b);
    }
  }

  /** The distinct elements of `xs` in order of first occurrence, after those
      already in `seen`. */
  function FirstSeen<T(==)>(seen: seq<T>, xs: seq<T>): (r: seq<T>)
    ensures seen <= r
    decreases |xs|
  {
    if xs == [] then seen
    else FirstSeen(if xs[0] in seen then seen else seen + [xs[0]], xs[1..])
  }

  /** Nothing but `seen` and `xs` is kept, and every element of `xs` is. */
  lemma {:induction false} FirstSeenMembers<T>(seen: seq<T>, xs: seq<T>)
    ensures forall i :: 0 <= i < |FirstSeen(seen, xs)| ==> FirstSeen(seen, xs)[i] in seen || FirstSeen(seen, xs)[i] in xs
    ensures forall i :: 0 <= i < |xs| ==> xs[i] in FirstSeen(seen, xs)
    decreases |xs|
  {
    if xs != [] {
      var seen' := if xs[0] in seen then seen else seen + [xs[0]];
      FirstSeenMembers(seen', xs[1..]);
      assert forall i :: 0 <= i < |xs| ==> xs[i] == xs[0] || xs[i] in xs[1..];
      assert forall y :: y in seen' ==> y in seen || y == xs[0];
      assert xs[0] in seen';
    }
  }

  /** Each distinct element is kept once. */
  lemma {:induction false} FirstSeenDistinct<T>(seen: seq<T>, xs: seq<T>)
    requires Distinct(seen)
    ensures Distinct(FirstSeen(seen, xs))
    decreases |xs|
  {
    if xs != [] {
      var seen' := if xs[0] in seen then seen else seen + [xs[0]];
      FirstSeenDistinct(seen', xs[1..]);
    }
  }
}
