/** Stable sorting, as JavaScript's `Array.prototype.sort` with a comparator
    (stable since ES2019). Every comparator in the source orders by a key — a
    position, a zone rank then a position, a step number, or a path — so the
    model sorts by a key of type `seq<real>` compared lexicographically: a
    single number is a one-element key, a pair is a two-element key, and a
    string is the sequence of its code points. */
module Sorting {
  import opened Seqs

  type Key = seq<real>

  /** Strict lexicographic order on keys; a proper prefix comes first. */
  predicate LexLess(a: Key, b: Key)
    decreases |a|
  {
    if |a| == 0 then |b| > 0
    else if |b| == 0 then false
    else a[0] < b[0] || (a[0] == b[0] && LexLess(a[1..], b[1..]))
  }

  lemma {:induction false} LexIrreflexive(a: Key)
    ensures !LexLess(a, a)
    decreases |a|
  {
    if |a| > 0 {
      LexIrreflexive(a[1..]);
    }
  }

  lemma {:induction false} LexTransitive(a: Key, b: Key, c: Key)
    requires LexLess(a, b) && LexLess(b, c)
    ensures LexLess(a, c)
    decreases |a|
  {
    if |a| > 0 && a[0] == b[0] && b[0] == c[0] {
      LexTransitive(a[1..], b[1..], c[1..]);
    }
  }

  lemma {:induction false} LexTotal(a: Key, b: Key)
    ensures a == b || LexLess(a, b) || LexLess(b, a)
    decreases |a|
  {
    if |a| > 0 && |b| > 0 && a[0] == b[0] {
      LexTotal(a[1..], b[1..]);
      if a[1..] == b[1..] {
        assert a == [a[0]] + a[1..] && b == [b[0]] + b[1..];
      }
    }
  }

  /** Not greater: the order a sorted sequence keeps between any two positions. */
  predicate LexLeq(a: Key, b: Key) {
    !LexLess(b, a)
  }

  lemma LexLeqTransitive(a: Key, b: Key, c: Key)
    requires LexLeq(a, b) && LexLeq(b, c)
    ensures LexLeq(a, c)
  {
    if LexLess(c, a) {
      LexTotal(a, b);
      if LexLess(a, b) {
        LexTransitive(c, a, b);
      }
    }
  }

  predicate SortedBy<T>(s: seq<T>, key: T -> Key) {
    forall i, j :: 0 <= i < j < |s| ==> LexLeq(key(s[i]), key(s[j]))
  }

  /** Places `x` into `s` behind every element whose key is not greater than `x`'s. */
  function Insert<T>(x: T, s: seq<T>, key: T -> Key): (r: seq<T>)
    ensures multiset(r) == multiset(s) + multiset{x}
    ensures |r| == |s| + 1
    decreases |s|
  {
    if |s| == 0 then [x]
    else if LexLess(key(x), key(s[|s| - 1])) then
      assert s == s[..|s| - 1] + [s[|s| - 1]];
      Insert(x, s[..|s| - 1], key) + [s[|s| - 1]]
    else s + [x]
  }

  /** Stable insertion sort by key. */
  function SortBy<T>(s: seq<T>, key: T -> Key): (r: seq<T>)
    ensures multiset(r) == multiset(s)
    ensures |r| == |s|
    decreases |s|
  {
    if |s| == 0 then []
    else
      assert s == s[..|s| - 1] + [s[|s| - 1]];
      Insert(s[|s| - 1], SortBy(s[..|s| - 1], key), key)
  }

  lemma LexLessAsymmetric(a: Key, b: Key)
    requires LexLess(a, b)
    ensures LexLeq(a, b)
  {
    if LexLess(b, a) {
      LexTransitive(a, b, a);
      LexIrreflexive(a);
    }
  }

  lemma {:induction false} InsertSorted<T>(x: T, s: seq<T>, key: T -> Key)
    requires SortedBy(s, key)
    ensures SortedBy(Insert(x, s, key), key)
    decreases |s|
  {
    if |s| == 0 {
    } else {
      var last := s[|s| - 1];
      var s' := s[..|s| - 1];
      if LexLess(key(x), key(last)) {
        InsertSorted(x, s', key);
        var r' := Insert(x, s', key);
        var r := r' + [last];
        forall i | 0 <= i < |r'|
          ensures LexLeq(key(r'[i]), key(last))
        {
          assert r'[i] in multiset(r');
          if r'[i] == x {
            LexLessAsymmetric(key(x), key(last));
          } else {
            assert r'[i] in multiset(s');
            var j :| 0 <= j < |s'| && s'[j] == r'[i];
            assert s[j] == r'[i];
          }
        }
        assert SortedBy(r, key);
      } else {
        forall i | 0 <= i < |s|
          ensures LexLeq(key(s[i]), key(x))
        {
          if i < |s| - 1 {
            LexLeqTransitive(key(s[i]), key(last), key(x));
          }
        }
      }
    }
  }

  /** The output of `SortBy` is ordered by key. */
  lemma {:induction false} SortBySorted<T>(s: seq<T>, key: T -> Key)
    ensures SortedBy(SortBy(s, key), key)
    decreases |s|
  {
    if |s| > 0 {
      SortBySorted(s[..|s| - 1], key);
      InsertSorted(s[|s| - 1], SortBy(s[..|s| - 1], key), key);
    }
  }

  /** Selects the elements whose key is `k`. */
  function HasKey<T>(key: T -> Key, k: Key): T -> bool {
    (y: T) => key(y) == k
  }

  lemma {:induction false} InsertStable<T>(x: T, s: seq<T>, key: T -> Key, k: Key)
    ensures Filter(Insert(x, s, key), HasKey(key, k)) == Filter(s + [x], HasKey(key, k))
    decreases |s|
  {
    var p := HasKey(key, k);
    if |s| > 0 && LexLess(key(x), key(s[|s| - 1])) {
      var last := s[|s| - 1];
      var s' := s[..|s| - 1];
      assert s == s' + [last];
      assert Insert(x, s, key) == Insert(x, s', key) + [last];
      InsertStable(x, s', key, k);
      LexIrreflexive(key(x));
      if !p(x) {
        FilterSkip(s, x, p);
        FilterSkip(s', x, p);
        FilterAppend(Insert(x, s', key), [last], p);
        FilterAppend(s', [last], p);
      } else {
        assert !p(last);
        FilterSkip(Insert(x, s', key), last, p);
        FilterSkip(s', last, p);
        FilterAppend(s, [x], p);
        FilterAppend(s', [x], p);
      }
    }
  }

  /** An element the filter refuses can be dropped from the end. */
  lemma FilterSkip<T>(a: seq<T>, y: T, p: T -> bool)
    requires !p(y)
    ensures Filter(a + [y], p) == Filter(a, p)
  {
    FilterAppend(a, [y], p);
    FilterSingleton(y, p);
  }

  /** Stability: for every key, the elements carrying it keep their input order. */
  lemma {:induction false} SortByStable<T>(s: seq<T>, key: T -> Key, k: Key)
    ensures Filter(SortBy(s, key), HasKey(key, k)) == Filter(s, HasKey(key, k))
    decreases |s|
  {
    if |s| > 0 {
      var p := HasKey(key, k);
      var s' := s[..|s| - 1];
      var x := s[|s| - 1];
      var t := SortBy(s', key);
      assert s == s' + [x];
      assert SortBy(s, key) == Insert(x, t, key);
      SortByStable(s', key, k);
      InsertStable(x, t, key, k);
      FilterAppend(t, [x], p);
      FilterAppend(s', [x], p);
      assert Filter(t, p) == Filter(s', p);
    }
  }

  /** A sorted sequence whose keys are pairwise different is fixed by its set of
      elements: sorting any arrangement of the same elements gives the same result. */
  lemma {:induction false} SortedUnique<T>(a: seq<T>, b: seq<T>, key: T -> Key)
    requires SortedBy(a, key) && SortedBy(b, key)
    requires multiset(a) == multiset(b)
    requires DistinctKeys(a, key)
    ensures a == b
    decreases |a|
  {
    assert |b| == |multiset(b)| == |a|;
    if |a| > 0 {
      var n := |a| - 1;
      SortedSameLast(a, b, key);
      var a' := a[..n];
      var b' := b[..n];
      PrefixFacts(a, b, key);
      SortedUnique(a', b', key);
      assert a == a' + [a[n]] && b == b' + [b[n]];
    }
  }

  predicate DistinctKeys<T>(s: seq<T>, key: T -> Key) {
    forall i, j :: 0 <= i < j < |s| ==> key(s[i]) != key(s[j])
  }

  lemma PrefixFacts<T>(a: seq<T>, b: seq<T>, key: T -> Key)
    requires SortedBy(a, key) && SortedBy(b, key)
    requires multiset(a) == multiset(b) && |a| == |b| > 0
    requires DistinctKeys(a, key)
    requires a[|a| - 1] == b[|b| - 1]
    ensures SortedBy(a[..|a| - 1], key) && SortedBy(b[..|b| - 1], key)
    ensures multiset(a[..|a| - 1]) == multiset(b[..|b| - 1])
    ensures DistinctKeys(a[..|a| - 1], key)
  {
    var n := |a| - 1;
    var x := a[n];
    var a' := a[..n];
    var b' := b[..n];
    assert a == a' + [x] && b == b' + [x];
    AddCancel(multiset(a'), multiset(b'), x);
    SortedPrefix(a, n, key);
    SortedPrefix(b, n, key);
    assert DistinctKeys(a', key) by {
      forall i, j | 0 <= i < j < |a'|
        ensures key(a'[i]) != key(a'[j])
      {
        assert a'[i] == a[i] && a'[j] == a[j];
      }
    }
  }

  lemma SortedPrefix<T>(s: seq<T>, n: nat, key: T -> Key)
    requires SortedBy(s, key) && n <= |s|
    ensures SortedBy(s[..n], key)
  {
    forall i, j | 0 <= i < j < n
      ensures LexLeq(key(s[..n][i]), key(s[..n][j]))
    {
      assert s[..n][i] == s[i] && s[..n][j] == s[j];
    }
  }

  lemma SortedSameLast<T>(a: seq<T>, b: seq<T>, key: T -> Key)
    requires SortedBy(a, key) && SortedBy(b, key)
    requires multiset(a) == multiset(b) && |a| == |b| > 0
    requires DistinctKeys(a, key)
    ensures a[|a| - 1] == b[|b| - 1]
  {
    var n := |a| - 1;
    var x := a[n];
    var y := b[n];
    assert x in multiset(b);
    var jx :| 0 <= jx < |b| && b[jx] == x;
    assert y in multiset(a);
    var jy :| 0 <= jy < |a| && a[jy] == y;
    LastIsGreatest(a, key, y, jy);
    LastIsGreatest(b, key, x, jx);
    LexTotal(key(x), key(y));
    assert key(x) == key(y);
    assert jy == n;
  }

  lemma LastIsGreatest<T>(s: seq<T>, key: T -> Key, y: T, j: nat)
    requires SortedBy(s, key) && j < |s| && s[j] == y
    ensures LexLeq(key(y), key(s[|s| - 1]))
  {
    if j == |s| - 1 {
      LexIrreflexive(key(y));
    }
  }

  /** Rearranging a sequence keeps its keys pairwise different. */
  lemma {:induction false} DistinctKeysPermutation<T>(s: seq<T>, t: seq<T>, key: T -> Key)
    requires DistinctKeys(s, key) && multiset(s) == multiset(t)
    ensures DistinctKeys(t, key)
    decreases |t|
  {
    if |t| > 0 {
      var n := |t| - 1;
      var y := t[n];
      var t' := t[..n];
      assert t == t' + [y];
      assert y in multiset(s);
      var k :| 0 <= k < |s| && s[k] == y;
      var s' := RemoveAt(s, k);
      RemoveAtFacts(s, k, key);
      AddCancel(multiset(s'), multiset(t'), y);
      DistinctKeysPermutation(s', t', key);
      LastKeyFresh(s, t, key, k);
    }
  }

  function RemoveAt<T>(s: seq<T>, k: nat): seq<T>
    requires k < |s|
  {
    s[..k] + s[k + 1..]
  }

  lemma RemoveAtFacts<T>(s: seq<T>, k: nat, key: T -> Key)
    requires k < |s| && DistinctKeys(s, key)
    ensures multiset(RemoveAt(s, k)) + multiset{s[k]} == multiset(s)
    ensures DistinctKeys(RemoveAt(s, k), key)
    ensures forall m :: 0 <= m < |s| - 1 ==> key(RemoveAt(s, k)[m]) != key(s[k])
  {
    var s' := RemoveAt(s, k);
    SplitAt(s, k);
    forall i, j | 0 <= i < j < |s'|
      ensures key(s'[i]) != key(s'[j])
    {
      var i' := if i < k then i else i + 1;
      var j' := if j < k then j else j + 1;
      assert s'[i] == s[i'] && s'[j] == s[j'];
    }
    forall m | 0 <= m < |s'|
      ensures key(s'[m]) != key(s[k])
    {
      var m' := if m < k then m else m + 1;
      assert s'[m] == s[m'];
    }
  }

  lemma LastKeyFresh<T>(s: seq<T>, t: seq<T>, key: T -> Key, k: nat)
    requires |t| > 0 && k < |s| && s[k] == t[|t| - 1]
    requires multiset(RemoveAt(s, k)) == multiset(t[..|t| - 1])
    requires forall m :: 0 <= m < |s| - 1 ==> key(RemoveAt(s, k)[m]) != key(s[k])
    requires DistinctKeys(t[..|t| - 1], key)
    ensures DistinctKeys(t, key)
  {
    var s' := RemoveAt(s, k);
    var t' := t[..|t| - 1];
    forall i | 0 <= i < |t'|
      ensures key(t[i]) != key(s[k])
    {
      assert t'[i] in multiset(s');
      var m :| 0 <= m < |s'| && s'[m] == t'[i];
    }
  }

  /** A string's sort key: its code points, compared lexicographically. */
  function TextKey(s: string): (k: Key)
    ensures |k| == |s|
  {
    seq(|s|, i requires 0 <= i < |s| => (s[i] as int) as real)
  }

  /** Different strings have different keys. */
  lemma TextKeyInjective(a: string, b: string)
    requires TextKey(a) == TextKey(b)
    ensures a == b
  {
    forall i | 0 <= i < |a|
      ensures a[i] == b[i]
    {
      assert TextKey(a)[i] == TextKey(b)[i];
    }
  }

  lemma TextKeyAppend(a: string, b: string)
    ensures TextKey(a + b) == TextKey(a) + TextKey(b)
  {
  }

  /** A common prefix does not change the order. */
  lemma {:induction false} LexLessCommonPrefix(p: Key, a: Key, b: Key)
    ensures LexLess(p + a, p + b) <==> LexLess(a, b)
    decreases |p|
  {
    if |p| > 0 {
      assert (p + a)[1..] == p[1..] + a;
      assert (p + b)[1..] == p[1..] + b;
      LexLessCommonPrefix(p[1..], a, b);
    } else {
      assert p + a == a && p + b == b;
    }
  }

  /** Inserting commutes with a mapping that keeps keys. */
  lemma {:induction false} InsertMap<A, B>(x: A, s: seq<A>, k1: A -> Key, f: A -> B, k2: B -> Key)
    requires forall a :: k2(f(a)) == k1(a)
    ensures Insert(f(x), MapSeq(f, s), k2) == MapSeq(f, Insert(x, s, k1))
    decreases |s|
  {
    var ms := MapSeq(f, s);
    if |s| == 0 {
      assert MapSeq(f, [x]) == [f(x)];
    } else {
      var init, last := s[..|s| - 1], s[|s| - 1];
      assert ms[..|ms| - 1] == MapSeq(f, init);
      assert ms[|ms| - 1] == f(last);
      if LexLess(k1(x), k1(last)) {
        InsertMap(x, init, k1, f, k2);
        MapSeqAppend(f, Insert(x, init, k1), [last]);
      } else {
        MapSeqAppend(f, s, [x]);
      }
    }
  }

  /** Sorting commutes with a mapping that keeps keys. */
  lemma {:induction false} SortByMap<A, B>(s: seq<A>, k1: A -> Key, f: A -> B, k2: B -> Key)
    requires forall a :: k2(f(a)) == k1(a)
    ensures SortBy(MapSeq(f, s), k2) == MapSeq(f, SortBy(s, k1))
    decreases |s|
  {
    if |s| > 0 {
      var init, last := s[..|s| - 1], s[|s| - 1];
      var ms := MapSeq(f, s);
      assert ms[..|ms| - 1] == MapSeq(f, init);
      assert ms[|ms| - 1] == f(last);
      assert SortBy(ms, k2) == Insert(f(last), SortBy(MapSeq(f, init), k2), k2);
      assert SortBy(s, k1) == Insert(last, SortBy(init, k1), k1);
      SortByMap(init, k1, f, k2);
      InsertMap(last, SortBy(init, k1), k1, f, k2);
    }
  }

  /** Two-part keys compare by the first part, then the second. */
  lemma PairOrder(a1: real, a2: real, b1: real, b2: real)
    ensures LexLeq([a1, a2], [b1, b2]) <==> a1 < b1 || (a1 == b1 && a2 <= b2)
  {
    var a, b: Key := [a1, a2], [b1, b2];
    assert a[1..] == [a2] && b[1..] == [b2];
    var ta, tb: Key := [a2], [b2];
    assert ta[1..] == [] && tb[1..] == [];
    assert LexLess(tb, ta) == (b2 < a2 || (b2 == a2 && LexLess([], [])));
    assert LexLess(b, a) == (b1 < a1 || (b1 == a1 && LexLess(tb, ta)));
  }
}
