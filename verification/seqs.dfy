/** Small generic sequence helpers shared by the model. */
module Seqs {
  import opened Wrappers

  /** The elements of `s` satisfying `p`, in their original order (JavaScript's `Array.filter`). */
  function Filter<T>(s: seq<T>, p: T -> bool): (r: seq<T>)
    ensures |r| <= |s|
    decreases |s|
  {
    if |s| == 0 then []
    else Filter(s[..|s|-1], p) + (if p(s[|s|-1]) then [s[|s|-1]] else [])
  }

  /** What `Filter` keeps: exactly the elements satisfying `p`, none invented. */
  lemma {:induction false} FilterMembers<T>(s: seq<T>, p: T -> bool)
    ensures forall i :: 0 <= i < |Filter(s, p)| ==> Filter(s, p)[i] in s && p(Filter(s, p)[i])
    ensures forall i :: 0 <= i < |s| && p(s[i]) ==> s[i] in Filter(s, p)
    ensures multiset(Filter(s, p)) <= multiset(s)
    decreases |s|
  {
    if |s| > 0 {
      var s' := s[..|s|-1];
      FilterMembers(s', p);
      assert s == s' + [s[|s|-1]];
    }
  }

  lemma {:induction false} FilterAppend<T>(a: seq<T>, b: seq<T>, p: T -> bool)
    ensures Filter(a + b, p) == Filter(a, p) + Filter(b, p)
    decreases |b|
  {
    if |b| == 0 {
      assert a + b == a;
    } else {
      var b' := b[..|b|-1];
      assert (a + b)[..|a + b| - 1] == a + b';
      assert (a + b)[|a + b| - 1] == b[|b|-1];
      FilterAppend(a, b', p);
    }
  }

  lemma FilterSingleton<T>(x: T, p: T -> bool)
    ensures Filter([x], p) == if p(x) then [x] else []
  {
    assert [x][..0] == [];
  }

  /** Filtering with a predicate every element satisfies changes nothing. */
  lemma {:induction false} FilterAll<T>(s: seq<T>, p: T -> bool)
    requires forall i :: 0 <= i < |s| ==> p(s[i])
    ensures Filter(s, p) == s
    decreases |s|
  {
    if |s| > 0 {
      var s' := s[..|s|-1];
      assert forall i :: 0 <= i < |s'| ==> s'[i] == s[i];
      FilterAll(s', p);
      assert p(s[|s|-1]);
      assert Filter(s, p) == Filter(s', p) + [s[|s|-1]];
      assert s == s' + [s[|s|-1]];
    }
  }

  /** Sum of a sequence of naturals. */
  function Sum(s: seq<nat>): nat
    decreases |s|
  {
    if |s| == 0 then 0 else Sum(s[..|s|-1]) + s[|s|-1]
  }

  lemma {:induction false} SumAppend(a: seq<nat>, b: seq<nat>)
    ensures Sum(a + b) == Sum(a) + Sum(b)
    decreases |b|
  {
    if |b| > 0 {
      assert (a + b)[..|a + b| - 1] == a + b[..|b|-1];
      SumAppend(a, b[..|b|-1]);
    } else {
      assert a + b == a;
    }
  }

  /** Every element is at most the sum. */
  lemma {:induction false} SumBoundsEach(s: seq<nat>)
    ensures forall i :: 0 <= i < |s| ==> s[i] <= Sum(s)
    decreases |s|
  {
    if |s| > 0 {
      SumBoundsEach(s[..|s|-1]);
      assert forall i :: 0 <= i < |s| - 1 ==> s[..|s|-1][i] == s[i];
    }
  }

  /** All elements pairwise different. */
  predicate Distinct<T(==)>(s: seq<T>) {
    forall i, j :: 0 <= i < j < |s| ==> s[i] != s[j]
  }

  /** Both predicates at once. */
  function And<T>(p: T -> bool, q: T -> bool): T -> bool {
    (x: T) => p(x) && q(x)
  }

  lemma {:induction false} FilterFilter<T>(s: seq<T>, p: T -> bool, q: T -> bool)
    ensures Filter(Filter(s, p), q) == Filter(s, And(p, q))
    decreases |s|
  {
    if |s| > 0 {
      var s' := s[..|s|-1];
      var x := s[|s|-1];
      FilterFilter(s', p, q);
      FilterAppend(Filter(s', p), if p(x) then [x] else [], q);
      if p(x) {
        FilterSingleton(x, q);
      }
    }
  }

  lemma {:induction false} FilterNone<T>(s: seq<T>, p: T -> bool)
    requires forall i :: 0 <= i < |s| ==> !p(s[i])
    ensures Filter(s, p) == []
    decreases |s|
  {
    if |s| > 0 {
      FilterNone(s[..|s|-1], p);
    }
  }

  /** The first element kept by `Filter` is the first element satisfying `p`. */
  lemma {:induction false} FilterFirst<T>(s: seq<T>, p: T -> bool, i: nat)
    requires i < |s| && p(s[i])
    requires forall j :: 0 <= j < i ==> !p(s[j])
    ensures |Filter(s, p)| > 0 && Filter(s, p)[0] == s[i]
    decreases |s|
  {
    var s' := s[..|s|-1];
    if i < |s| - 1 {
      FilterFirst(s', p, i);
    } else {
      FilterNone(s', p);
    }
  }

  /** The least index whose element satisfies `p`, when there is one. */
  function FirstIndex<T>(s: seq<T>, p: T -> bool): (i: nat)
    requires exists k :: 0 <= k < |s| && p(s[k])
    ensures i < |s| && p(s[i])
    ensures forall j :: 0 <= j < i ==> !p(s[j])
    decreases |s|
  {
    if p(s[0]) then 0
    else
      assert exists k :: 0 <= k < |s[1..]| && p(s[1..][k]) by {
        var k :| 0 <= k < |s| && p(s[k]);
        assert s[1..][k - 1] == s[k];
      }
      1 + FirstIndex(s[1..], p)
  }

  /** A sequence is what lies before, at and after any of its positions. */
  lemma SplitAt<T>(b: seq<T>, k: nat)
    requires k < |b|
    ensures b == b[..k] + [b[k]] + b[k+1..]
    ensures multiset(b) == multiset(b[..k] + b[k+1..]) + multiset{b[k]}
  {
    assert b == b[..k] + [b[k]] + b[k+1..];
    assert multiset(b[..k] + b[k+1..]) == multiset(b[..k]) + multiset(b[k+1..]);
  }

  /** The last element of `a` sits somewhere in a rearrangement `b` of it,
      and removing both leaves rearrangements of each other. */
  lemma PermutationSplit<T>(a: seq<T>, b: seq<T>) returns (k: nat)
    requires multiset(a) == multiset(b) && |a| > 0
    ensures k < |b| && b[k] == a[|a|-1]
    ensures b == b[..k] + [b[k]] + b[k+1..]
    ensures multiset(a[..|a|-1]) == multiset(b[..k] + b[k+1..])
  {
    var n := |a| - 1;
    var x := a[n];
    SplitAt(a, n);
    assert a[..n] + a[n+1..] == a[..n];
    assert x in b by {
      assert x in multiset(a);
    }
    k :| 0 <= k < |b| && b[k] == x;
    SplitAt(b, k);
    AddCancel(multiset(a[..n]), multiset(b[..k] + b[k+1..]), x);
  }

  /** Adding the same element to two multisets keeps them apart or equal. */
  lemma AddCancel<T>(m: multiset<T>, m': multiset<T>, x: T)
    requires m + multiset{x} == m' + multiset{x}
    ensures m == m'
  {
    forall y
      ensures m[y] == m'[y]
    {
      assert (m + multiset{x})[y] == (m' + multiset{x})[y];
    }
  }

  /** Filtering two rearrangements of each other gives rearrangements of each other. */
  lemma {:induction false} FilterPermutation<T>(a: seq<T>, b: seq<T>, p: T -> bool)
    requires multiset(a) == multiset(b)
    ensures multiset(Filter(a, p)) == multiset(Filter(b, p))
    decreases |a|
  {
    if |a| > 0 {
      var k := PermutationSplit(a, b);
      var x := a[|a|-1];
      var pre, post := b[..k], b[k+1..];
      FilterPermutation(a[..|a|-1], pre + post, p);
      FilterAppend(pre, post, p);
      FilterAppend(pre + [x], post, p);
      FilterAppend(pre, [x], p);
      FilterSingleton(x, p);
    } else {
      assert b == [];
    }
  }

  /** Sequences of one length that agree at every index are equal. */
  lemma SameElements<T>(a: seq<T>, b: seq<T>)
    requires |a| == |b| && forall i :: 0 <= i < |a| ==> a[i] == b[i]
    ensures a == b
  {
  }

  /** `s.map(f)`. */
  function MapSeq<A, B>(f: A -> B, s: seq<A>): (r: seq<B>)
    ensures |r| == |s|
    ensures forall i :: 0 <= i < |s| ==> r[i] == f(s[i])
  {
    seq(|s|, i requires 0 <= i < |s| => f(s[i]))
  }

  lemma MapSeqAppend<A, B>(f: A -> B, a: seq<A>, b: seq<A>)
    ensures MapSeq(f, a + b) == MapSeq(f, a) + MapSeq(f, b)
  {
  }

  /** The sum of a mapped sequence grows by the mapped value of an appended element. */
  lemma SumMapAppend<A>(f: A -> nat, s: seq<A>, x: A)
    ensures Sum(MapSeq(f, s + [x])) == Sum(MapSeq(f, s)) + f(x)
  {
    var m := MapSeq(f, s + [x]);
    assert m[..|m| - 1] == MapSeq(f, s);
  }

  /** Removing one position before or after mapping is the same. */
  lemma MapSeqRemove<A, B>(f: A -> B, b: seq<A>, k: nat)
    requires k < |b|
    ensures multiset(MapSeq(f, b)) == multiset(MapSeq(f, b[..k] + b[k+1..])) + multiset{f(b[k])}
  {
    var m := MapSeq(f, b);
    SplitAt(m, k);
    assert m[..k] + m[k+1..] == MapSeq(f, b[..k] + b[k+1..]);
  }

  lemma {:induction false} MapSeqPermutation<A, B>(f: A -> B, a: seq<A>, b: seq<A>)
    requires multiset(a) == multiset(b)
    ensures multiset(MapSeq(f, a)) == multiset(MapSeq(f, b))
    decreases |a|
  {
    if |a| > 0 {
      var k := PermutationSplit(a, b);
      var n := |a| - 1;
      MapSeqPermutation(f, a[..n], b[..k] + b[k+1..]);
      MapSeqRemove(f, b, k);
      MapSeqRemove(f, a, n);
      assert a[..n] + a[n+1..] == a[..n];
    } else {
      assert b == [];
    }
  }

  /** The values `f` yields, in order, skipping the elements it yields none for. */
  function Collect<A, B>(f: A -> Option<B>, s: seq<A>): (r: seq<B>)
    ensures |r| <= |s|
    decreases |s|
  {
    if |s| == 0 then []
    else Collect(f, s[..|s| - 1]) + (if f(s[|s| - 1]).Some? then [f(s[|s| - 1]).value] else [])
  }

  /** Every collected value was yielded by some element. */
  lemma {:induction false} CollectSource<A, B>(f: A -> Option<B>, s: seq<A>, i: nat) returns (j: nat)
    requires i < |Collect(f, s)|
    ensures j < |s| && f(s[j]) == Some(Collect(f, s)[i])
    decreases |s|
  {
    var init := s[..|s| - 1];
    if i < |Collect(f, init)| {
      j := CollectSource(f, init, i);
      assert s[j] == init[j];
    } else {
      j := |s| - 1;
    }
  }

  /** Every yielded value is collected. */
  lemma {:induction false} CollectComplete<A, B>(f: A -> Option<B>, s: seq<A>, j: nat)
    requires j < |s| && f(s[j]).Some?
    ensures f(s[j]).value in Collect(f, s)
    decreases |s|
  {
    var init := s[..|s| - 1];
    if j < |init| {
      assert init[j] == s[j];
      CollectComplete(f, init, j);
    }
  }
}
