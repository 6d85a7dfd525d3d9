/** Sequence helpers shared by the models: filtering, Python slicing, counting,
    and the stable descending sort that Python's `sorted(..., reverse=True)` performs. */
module Seqs {

  /** `b` contains the elements of `a`, in order, possibly with others in between. */
  ghost predicate IsSubseq<T>(a: seq<T>, b: seq<T>)
    decreases |b|
  {
    if a == [] then true
    else if b == [] then false
    else if a[0] == b[0] then IsSubseq(a[1..], b[1..])
    else IsSubseq(a, b[1..])
  }

  lemma {:induction false} SubseqRefl<T>(a: seq<T>)
    ensures IsSubseq(a, a)
    decreases |a|
  {
    if a != [] {
      SubseqRefl(a[1..]);
    }
  }

  lemma {:induction false} SubseqDropHead<T>(a: seq<T>, b: seq<T>)
    requires a != [] && IsSubseq(a, b)
    ensures IsSubseq(a[1..], b)
    decreases |b|, 0
  {
    if a[0] == b[0] {
      SubseqSkip(a[1..], b[1..], b[0]);
      assert [b[0]] + b[1..] == b;
    } else {
      SubseqDropHead(a, b[1..]);
      SubseqSkip(a[1..], b[1..], b[0]);
      assert [b[0]] + b[1..] == b;
    }
  }

  /** An extra element in front of the longer sequence keeps the relation. */
  lemma {:induction false} SubseqSkip<T>(a: seq<T>, b: seq<T>, x: T)
    requires IsSubseq(a, b)
    ensures IsSubseq(a, [x] + b)
    decreases |b|, 1
  {
    if a != [] {
      assert ([x] + b)[1..] == b;
      if a[0] == x {
        SubseqDropHead(a, b);
      }
    }
  }

  /** Python's list comprehension `[x for x in s if f(x)]`. */
  function Filter<T>(f: T -> bool, s: seq<T>): (r: seq<T>)
    ensures |r| <= |s|
    ensures forall i :: 0 <= i < |r| ==> f(r[i]) && r[i] in s
    decreases |s|
  {
    if s == [] then [] else (if f(s[0]) then [s[0]] else []) + Filter(f, s[1..])
  }

  /** Filtering keeps every occurrence of a selected element and none of the others. */
  lemma {:induction false} FilterMultiset<T>(f: T -> bool, s: seq<T>, x: T)
    ensures multiset(Filter(f, s))[x] == if f(x) then multiset(s)[x] else 0
    decreases |s|
  {
    if s != [] {
      FilterMultiset(f, s[1..], x);
      var h := if f(s[0]) then [s[0]] else [];
      assert Filter(f, s) == h + Filter(f, s[1..]);
      assert multiset(Filter(f, s)) == multiset(h) + multiset(Filter(f, s[1..]));
      assert s == [s[0]] + s[1..];
      assert multiset(s) == multiset([s[0]]) + multiset(s[1..]);
    }
  }

  lemma {:induction false} FilterIsSubseq<T>(f: T -> bool, s: seq<T>)
    ensures IsSubseq(Filter(f, s), s)
    decreases |s|
  {
    if s != [] {
      FilterIsSubseq(f, s[1..]);
      if f(s[0]) {
        assert Filter(f, s)[0] == s[0];
        assert Filter(f, s)[1..] == Filter(f, s[1..]);
      } else {
        assert Filter(f, s) == Filter(f, s[1..]);
        SubseqSkip(Filter(f, s[1..]), s[1..], s[0]);
        assert [s[0]] + s[1..] == s;
      }
    }
  }

  lemma {:induction false} FilterAppend<T>(f: T -> bool, a: seq<T>, b: seq<T>)
    ensures Filter(f, a + b) == Filter(f, a) + Filter(f, b)
    decreases |a|
  {
    if a == [] {
      assert a + b == b;
    } else {
      assert (a + b)[0] == a[0];
      assert (a + b)[1..] == a[1..] + b;
      FilterAppend(f, a[1..], b);
    }
  }

  /** One more element of `s` adds itself to the filter when selected. */
  lemma FilterSnoc<T>(f: T -> bool, s: seq<T>, i: nat)
    requires i < |s|
    ensures Filter(f, s[..i + 1]) == Filter(f, s[..i]) + (if f(s[i]) then [s[i]] else [])
  {
    assert s[..i + 1] == s[..i] + [s[i]];
    FilterAppend(f, s[..i], [s[i]]);
    assert [s[i]][1..] == [];
  }

  /** A property of every element survives a permutation. */
  lemma PermutationKeeps<T>(s: seq<T>, r: seq<T>, P: T -> bool)
    requires multiset(r) == multiset(s)
    requires forall i :: 0 <= i < |s| ==> P(s[i])
    ensures forall i :: 0 <= i < |r| ==> P(r[i])
  {
    forall i | 0 <= i < |r| ensures P(r[i]) {
      assert r[i] in multiset(s);
    }
  }

  /** Filtering with a predicate that every element satisfies keeps the whole sequence. */
  lemma {:induction false} FilterAll<T>(f: T -> bool, s: seq<T>)
    requires forall i :: 0 <= i < |s| ==> f(s[i])
    ensures Filter(f, s) == s
    decreases |s|
  {
    if s != [] {
      FilterAll(f, s[1..]);
    }
  }

  /** Filtering with a predicate that no element satisfies leaves nothing. */
  lemma {:induction false} FilterNone<T>(f: T -> bool, s: seq<T>)
    requires forall i :: 0 <= i < |s| ==> !f(s[i])
    ensures Filter(f, s) == []
    decreases |s|
  {
    if s != [] {
      FilterNone(f, s[1..]);
    }
  }

  /** Python's `all(f(x) == g(x) for x in s)` makes the two filters agree. */
  lemma {:induction false} FilterCongruent<T>(f: T -> bool, g: T -> bool, s: seq<T>)
    requires forall i :: 0 <= i < |s| ==> f(s[i]) == g(s[i])
    ensures Filter(f, s) == Filter(g, s)
    decreases |s|
  {
    if s != [] {
      FilterCongruent(f, g, s[1..]);
    }
  }

  // ----- sequences ordered by a strict relation --------------------------------------

  /** Every element is related by `lt` to every later one. */
  ghost predicate SortedBy<T>(s: seq<T>, lt: (T, T) -> bool)
  {
    forall i, j :: 0 <= i < j < |s| ==> lt(s[i], s[j])
  }

  /** Filtering keeps a sequence ordered. */
  lemma {:induction false} FilterSortedBy<T>(f: T -> bool, s: seq<T>, lt: (T, T) -> bool)
    requires SortedBy(s, lt)
    ensures SortedBy(Filter(f, s), lt)
    decreases |s|
  {
    if s != [] {
      var rest := Filter(f, s[1..]);
      FilterSortedBy(f, s[1..], lt);
      if f(s[0]) {
        forall j | 0 <= j < |rest| ensures lt(s[0], rest[j]) {
          var k :| 0 <= k < |s[1..]| && s[1..][k] == rest[j];
          assert s[k + 1] == rest[j];
        }
        assert Filter(f, s) == [s[0]] + rest;
      }
    }
  }

  /** Two selected elements of `s` are ordered as the filtered sequence orders them. */
  lemma {:induction false} OrderWithinFilter<T>(f: T -> bool, s: seq<T>, lt: (T, T) -> bool, i: nat, j: nat)
    requires SortedBy(Filter(f, s), lt)
    requires i < j < |s| && f(s[i]) && f(s[j])
    ensures lt(s[i], s[j])
    decreases |s|
  {
    var rest := Filter(f, s[1..]);
    if i == 0 {
      var k := FilterPosition(f, s[1..], j - 1);
      FilterHeadFirst(f, s, lt, k);
    } else {
      var h := if f(s[0]) then [s[0]] else [];
      assert Filter(f, s) == h + rest;
      SortedBySuffix(h, rest, lt);
      OrderWithinFilter(f, s[1..], lt, i - 1, j - 1);
    }
  }

  /** Where a selected element sits in the filter. */
  lemma {:induction false} FilterPosition<T>(f: T -> bool, s: seq<T>, i: nat) returns (k: nat)
    requires i < |s| && f(s[i])
    ensures k < |Filter(f, s)| && Filter(f, s)[k] == s[i]
    decreases |s|
  {
    FilterUnfold(f, s);
    if i == 0 {
      k := 0;
    } else {
      var k' := FilterPosition(f, s[1..], i - 1);
      k := if f(s[0]) then k' + 1 else k';
    }
  }

  /** A selected head comes before everything the rest of the sequence contributes. */
  lemma FilterHeadFirst<T>(f: T -> bool, s: seq<T>, lt: (T, T) -> bool, k: nat)
    requires s != [] && f(s[0]) && SortedBy(Filter(f, s), lt) && k < |Filter(f, s[1..])|
    ensures lt(s[0], Filter(f, s[1..])[k])
  {
    FilterUnfold(f, s);
    HeadBeforeRest(Filter(f, s), s[0], Filter(f, s[1..]), k, lt);
  }

  /** In a sorted sequence the head comes before everything else in it. */
  lemma HeadBeforeRest<T>(s: seq<T>, h: T, rest: seq<T>, k: nat, lt: (T, T) -> bool)
    requires s == [h] + rest && SortedBy(s, lt) && k < |rest|
    ensures lt(h, rest[k])
  {
    assert s[0] == h && s[k + 1] == rest[k];
  }

  /** A property every element of `t` has, and `x` too, holds across `[x] + t`. */
  lemma ConsAll<T>(P: T -> bool, x: T, t: seq<T>)
    requires P(x) && forall i :: 0 <= i < |t| ==> P(t[i])
    ensures forall i :: 0 <= i < |[x] + t| ==> P(([x] + t)[i])
  {
    forall i | 0 <= i < |[x] + t| ensures P(([x] + t)[i]) {
      if i > 0 {
        assert ([x] + t)[i] == t[i - 1];
      }
    }
  }

  /** A property every element of `a` and of `b` has holds across `a + b`. */
  lemma AppendAll<T>(P: T -> bool, a: seq<T>, b: seq<T>)
    requires forall i :: 0 <= i < |a| ==> P(a[i])
    requires forall i :: 0 <= i < |b| ==> P(b[i])
    ensures forall i :: 0 <= i < |a + b| ==> P((a + b)[i])
  {
    forall i | 0 <= i < |a + b| ensures P((a + b)[i]) {
      if i >= |a| {
        assert (a + b)[i] == b[i - |a|];
      }
    }
  }

  /** What follows a prefix of a sorted sequence is sorted. */
  lemma SortedBySuffix<T>(h: seq<T>, rest: seq<T>, lt: (T, T) -> bool)
    requires SortedBy(h + rest, lt)
    ensures SortedBy(rest, lt)
  {
    forall a, b | 0 <= a < b < |rest| ensures lt(rest[a], rest[b]) {
      assert rest[a] == (h + rest)[a + |h|] && rest[b] == (h + rest)[b + |h|];
    }
  }

  /** Counting on by one commutes with taking the remainder by `n`. */
  lemma ModNext(a: int, n: int)
    requires n > 0
    ensures (a % n + 1) % n == (a + 1) % n
  {
    var q := a / n;
    var r := a % n;
    assert a == q * n + r;
    if r + 1 < n {
      ModOfMultiplePlus(q, n, r + 1);
    } else {
      assert a + 1 == (q + 1) * n;
      ModOfMultiplePlus(q + 1, n, 0);
    }
  }

  /** The remainder of `q * n + s` by `n`, for `0 <= s < n`, is `s`. */
  lemma ModOfMultiplePlus(q: int, n: int, s: int)
    requires n > 0 && 0 <= s < n
    ensures (q * n + s) % n == s
  {
    var m := q * n + s;
    var d := m / n;
    var x := q - d;
    assert x * n == m % n - s by {
      assert m == d * n + m % n;
      assert q * n - d * n == (q - d) * n;
    }
    if x > 0 {
      assert x * n == (x - 1) * n + n;
      NonNegativeProduct(x - 1, n);
    } else if x < 0 {
      assert x * n == -((-x - 1) * n) - n;
      NonNegativeProduct(-x - 1, n);
    }
  }

  lemma NonNegativeProduct(a: int, b: int)
    requires a >= 0 && b >= 0
    ensures a * b >= 0
  {
  }

  function Min(a: int, b: int): int { if a <= b then a else b }

  function Max(a: int, b: int): int { if a >= b then a else b }

  /** Python's slice `s[:n]`: a negative `n` counts from the end. */
  function PyTake<T>(s: seq<T>, n: int): (r: seq<T>)
    ensures |r| <= |s| && r == s[..|r|]
    ensures n >= 0 ==> |r| == Min(n, |s|)
    ensures n < 0 ==> |r| == Max(0, |s| + n)
  {
    if n >= 0 then (if n <= |s| then s[..n] else s)
    else if |s| + n >= 0 then s[..|s| + n]
    else []
  }

  /** The first `n` elements, or all of them when there are fewer (slicing with `n >= 0`). */
  function Take<T>(s: seq<T>, n: nat): (r: seq<T>)
    ensures |r| == Min(n, |s|) && r == s[..|r|]
  {
    if n <= |s| then s[..n] else s
  }

  /** The number of elements satisfying `f`. */
  function Count<T>(f: T -> bool, s: seq<T>): nat
  {
    |Filter(f, s)|
  }

  function Sum(s: seq<nat>): nat
    decreases |s|
  {
    if s == [] then 0 else s[0] + Sum(s[1..])
  }

  lemma {:induction false} SumZero(s: seq<nat>)
    requires forall i :: 0 <= i < |s| ==> s[i] == 0
    ensures Sum(s) == 0
    decreases |s|
  {
    if s != [] {
      SumZero(s[1..]);
    }
  }

  /** The two halves of a concatenation are recovered by slicing. */
  lemma ConcatSlices<T>(a: seq<T>, b: seq<T>, n: nat)
    requires n <= |b|
    ensures (a + b)[..|a|] == a
    ensures (a + b)[|a|..|a| + n] == b[..n]
  {
    assert forall k :: 0 <= k < n ==> (a + b)[|a|..|a| + n][k] == b[k];
  }

  function Map<T, U>(f: T -> U, s: seq<T>): (r: seq<U>)
    ensures |r| == |s|
    ensures forall i :: 0 <= i < |s| ==> r[i] == f(s[i])
    decreases |s|
  {
    if s == [] then [] else [f(s[0])] + Map(f, s[1..])
  }

  // ----- stable descending sort -------------------------------------------------

  ghost predicate SortedDesc<T>(s: seq<T>, key: T -> real)
  {
    forall i, j :: 0 <= i < j < |s| ==> key(s[i]) >= key(s[j])
  }

  /** The predicate "has key value v", used to state stability. */
  function KeyIs<T>(key: T -> real, v: real): T -> bool
  {
    x => key(x) == v
  }

  /** Inserts `x` after every element whose key is at least `key(x)`, so that an element
      inserted later stays behind earlier ones of equal key. */
  function InsertDesc<T>(s: seq<T>, x: T, key: T -> real): (r: seq<T>)
    requires SortedDesc(s, key)
    ensures SortedDesc(r, key)
    ensures multiset(r) == multiset(s) + multiset{x}
    ensures |r| == |s| + 1
    ensures r[0] == x || (s != [] && r[0] == s[0])
    decreases |s|
  {
    if s == [] then [x]
    else if key(s[0]) >= key(x) then
      var t := InsertDesc(s[1..], x, key);
      InsertBehindHead(s, x, t, key);
      [s[0]] + t
    else
      ConsSortedDesc(x, s, key);
      [x] + s
  }

  /** The head of `s` stays in front of `t`, the insertion of `x` into the rest of `s`. */
  lemma InsertBehindHead<T>(s: seq<T>, x: T, t: seq<T>, key: T -> real)
    requires s != [] && SortedDesc(s, key) && key(s[0]) >= key(x)
    requires SortedDesc(t, key) && multiset(t) == multiset(s[1..]) + multiset{x}
    requires t[0] == x || (s[1..] != [] && t[0] == s[1..][0])
    requires |t| == |s|
    ensures SortedDesc([s[0]] + t, key)
    ensures multiset([s[0]] + t) == multiset(s) + multiset{x}
  {
    assert s == [s[0]] + s[1..];
    ConsSortedDesc(s[0], t, key);
  }

  /** An element with a key at least that of a descending sequence's head can go in front. */
  lemma ConsSortedDesc<T>(x: T, s: seq<T>, key: T -> real)
    requires SortedDesc(s, key) && (s != [] ==> key(x) >= key(s[0]))
    ensures SortedDesc([x] + s, key)
  {
    var r := [x] + s;
    forall i, j | 0 <= i < j < |r| ensures key(r[i]) >= key(r[j]) {
      assert r[j] == s[j - 1];
      if i > 0 {
        assert r[i] == s[i - 1];
      }
    }
  }

  lemma {:induction false} InsertDescStable<T>(s: seq<T>, x: T, key: T -> real, v: real)
    requires SortedDesc(s, key)
    ensures Filter(KeyIs(key, v), InsertDesc(s, x, key)) == Filter(KeyIs(key, v), s) + Filter(KeyIs(key, v), [x])
    decreases |s|
  {
    if s == [] {
    } else if key(s[0]) >= key(x) {
      InsertDescStable(s[1..], x, key, v);
      InsertDescStableStep(s, x, InsertDesc(s, x, key), InsertDesc(s[1..], x, key), KeyIs(key, v));
    } else {
      InsertDescStableFront(s, x, key, v);
    }
  }

  /** The step of `InsertDescStable` when `x` goes behind the head: `r` is the head
      followed by `t`, the insertion into the rest. */
  lemma InsertDescStableStep<T>(s: seq<T>, x: T, r: seq<T>, t: seq<T>, P: T -> bool)
    requires s != [] && r == [s[0]] + t
    requires Filter(P, t) == Filter(P, s[1..]) + Filter(P, [x])
    ensures Filter(P, r) == Filter(P, s) + Filter(P, [x])
  {
    FilterConsStep(P, s[0], t, s[1..], [x]);
    assert [s[0]] + s[1..] == s;
  }

  /** Putting the same element in front of two sequences keeps a relation between their
      filters. */
  lemma FilterConsStep<T>(P: T -> bool, h: T, t: seq<T>, rest: seq<T>, extra: seq<T>)
    requires Filter(P, t) == Filter(P, rest) + Filter(P, extra)
    ensures Filter(P, [h] + t) == Filter(P, [h] + rest) + Filter(P, extra)
  {
    calc {
      Filter(P, [h] + t);
      == { FilterAppend(P, [h], t); }
      Filter(P, [h]) + Filter(P, t);
      Filter(P, [h]) + (Filter(P, rest) + Filter(P, extra));
      (Filter(P, [h]) + Filter(P, rest)) + Filter(P, extra);
      == { FilterAppend(P, [h], rest); }
      Filter(P, [h] + rest) + Filter(P, extra);
    }
  }

  /** The case of `InsertDescStable` when `x` goes in front: every element of `s` has a
      smaller key, so none shares the key of `x`. */
  lemma InsertDescStableFront<T>(s: seq<T>, x: T, key: T -> real, v: real)
    requires SortedDesc(s, key) && s != [] && key(s[0]) < key(x)
    ensures Filter(KeyIs(key, v), InsertDesc(s, x, key)) == Filter(KeyIs(key, v), s) + Filter(KeyIs(key, v), [x])
  {
    var P := KeyIs(key, v);
    assert InsertDesc(s, x, key) == [x] + s;
    FilterAppend(P, [x], s);
    if P(x) {
      FilterNone(P, s);
    } else {
      assert Filter(P, [x]) == [];
    }
  }

  /** Insertion sort, processing elements left to right: a stable descending sort. */
  function SortDesc<T>(s: seq<T>, key: T -> real): (r: seq<T>)
    ensures SortedDesc(r, key)
    ensures multiset(r) == multiset(s)
    ensures |r| == |s|
    decreases |s|
  {
    if s == [] then []
    else
      assert s == s[..|s| - 1] + [s[|s| - 1]];
      var r := InsertDesc(SortDesc(s[..|s| - 1], key), s[|s| - 1], key);
      assert |r| == |multiset(r)|;
      r
  }

  /** Stability: the elements of each key value keep their input order. */
  lemma {:induction false} SortDescStable<T>(s: seq<T>, key: T -> real, v: real)
    ensures Filter(KeyIs(key, v), SortDesc(s, key)) == Filter(KeyIs(key, v), s)
    decreases |s|
  {
    if s != [] {
      var init := s[..|s| - 1];
      var last := s[|s| - 1];
      SortDescStable(init, key, v);
      InsertDescStable(SortDesc(init, key), last, key, v);
      SortStableStep(KeyIs(key, v), s, SortDesc(init, key), SortDesc(s, key));
    }
  }

  /** The step of `SortDescStable`: `r` takes the last element into the sorted `sortedInit`. */
  lemma SortStableStep<T>(P: T -> bool, s: seq<T>, sortedInit: seq<T>, r: seq<T>)
    requires s != []
    requires Filter(P, sortedInit) == Filter(P, s[..|s| - 1])
    requires Filter(P, r) == Filter(P, sortedInit) + Filter(P, [s[|s| - 1]])
    ensures Filter(P, r) == Filter(P, s)
  {
    assert s == s[..|s| - 1] + [s[|s| - 1]];
    FilterAppend(P, s[..|s| - 1], [s[|s| - 1]]);
  }

  lemma FilterUnfold<T>(f: T -> bool, s: seq<T>)
    requires s != []
    ensures Filter(f, s) == (if f(s[0]) then [s[0]] else []) + Filter(f, s[1..])
  {
  }

  lemma HeadKeyPresent<T>(s: seq<T>, key: T -> real)
    requires s != []
    ensures Filter(KeyIs(key, key(s[0])), s) != []
  {
    FilterUnfold(KeyIs(key, key(s[0])), s);
  }

  /** An element with key `v` in a descending sequence has a key no larger than the head's. */
  lemma HeadIsLargest<T>(s: seq<T>, key: T -> real, v: real)
    requires SortedDesc(s, key) && Filter(KeyIs(key, v), s) != []
    ensures v <= key(s[0])
  {
    var y := Filter(KeyIs(key, v), s)[0];
    assert y in s && KeyIs(key, v)(y);
    var j :| 0 <= j < |s| && s[j] == y;
    assert j == 0 || key(s[0]) >= key(s[j]);
  }

  /** Two sequences sorted by `key` with the same elements in the same order within
      every key value are equal: the stable sort has exactly one possible result. */
  lemma {:induction false} StableSortUnique<T>(a: seq<T>, b: seq<T>, key: T -> real)
    requires SortedDesc(a, key) && SortedDesc(b, key)
    requires forall v :: Filter(KeyIs(key, v), a) == Filter(KeyIs(key, v), b)
    ensures a == b
    decreases |a|
  {
    if a == [] || b == [] {
      if a != [] {
        HeadKeyPresent(a, key);
        assert false;
      } else if b != [] {
        HeadKeyPresent(b, key);
        assert false;
      }
    } else {
      SameHead(a, b, key);
      forall u
        ensures Filter(KeyIs(key, u), a[1..]) == Filter(KeyIs(key, u), b[1..])
      {
        SameTailFilter(a, b, KeyIs(key, u));
      }
      StableSortUnique(a[1..], b[1..], key);
    }
  }

  /** Both sequences open with the first element of the largest key. */
  lemma SameHead<T>(a: seq<T>, b: seq<T>, key: T -> real)
    requires a != [] && b != []
    requires SortedDesc(a, key) && SortedDesc(b, key)
    requires forall v :: Filter(KeyIs(key, v), a) == Filter(KeyIs(key, v), b)
    ensures a[0] == b[0]
  {
    var v := key(a[0]);
    var w := key(b[0]);
    FilterUnfold(KeyIs(key, v), a);
    FilterUnfold(KeyIs(key, w), b);
    HeadIsLargest(b, key, v);
    HeadIsLargest(a, key, w);
    assert v == w;
    FilterUnfold(KeyIs(key, v), b);
  }

  /** Dropping a common head keeps two equal filters equal. */
  lemma SameTailFilter<T>(a: seq<T>, b: seq<T>, K: T -> bool)
    requires a != [] && b != [] && a[0] == b[0]
    requires Filter(K, a) == Filter(K, b)
    ensures Filter(K, a[1..]) == Filter(K, b[1..])
  {
    FilterUnfold(K, a);
    FilterUnfold(K, b);
    var h: seq<T> := if K(a[0]) then [a[0]] else [];
    assert Filter(K, a[1..]) == Filter(K, a)[|h|..];
    assert Filter(K, b[1..]) == Filter(K, b)[|h|..];
  }
}
