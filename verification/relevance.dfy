/** Relevance selection: scaling the keyword similarities of a batch to scores from 0 to
    10, and choosing the papers for the digest. The similarities themselves (TF-IDF and
    cosine similarity) are an input. */
module Relevance {
  import opened Wrappers
  import opened Seqs
  import opened Papers

  /** `round(x, 2)`, read as rounding half up to hundredths on exact reals. */
  function Round2(x: real): real
  {
    ((x * 100.0 + 0.5).Floor as real) / 100.0
  }

  /** Rounding never reverses an order. */
  lemma Round2Monotone(x: real, y: real)
    requires x <= y
    ensures Round2(x) <= Round2(y)
  {
    var u := x * 100.0 + 0.5;
    var v := y * 100.0 + 0.5;
    assert u <= v;
    var a := u.Floor;
    var b := v.Floor;
    assert a as real <= u && v < b as real + 1.0;
    assert a <= b;
    assert a as real / 100.0 <= b as real / 100.0;
  }

  /** A multiple of a hundredth is kept as it is. */
  lemma Round2Exact(n: int)
    ensures Round2(n as real / 100.0) == n as real / 100.0
  {
    var x := n as real / 100.0;
    assert x * 100.0 + 0.5 == n as real + 0.5;
    assert (n as real + 0.5).Floor == n;
  }

  /** The largest similarity of a non-empty batch. */
  function SeqMax(s: seq<real>): (m: real)
    requires s != []
    ensures forall i :: 0 <= i < |s| ==> s[i] <= m
    ensures exists i :: 0 <= i < |s| && s[i] == m
    decreases |s|
  {
    if |s| == 1 then s[0]
    else
      var m := SeqMax(s[1..]);
      assert forall i :: 1 <= i < |s| ==> s[i] == s[1..][i - 1];
      if s[0] >= m then s[0] else m
  }

  /** `max_sim`: the largest similarity when it is positive, otherwise 1.0. */
  function Divisor(sims: seq<real>): (d: real)
    requires sims != []
    ensures d > 0.0
  {
    if SeqMax(sims) > 0.0 then SeqMax(sims) else 1.0
  }

  function Score(p: Paper): real { p.relevanceScore }

  /** The score of a similarity: its share of the divisor, times 10, rounded. */
  function ScoreOf(sim: real, divisor: real): real
    requires divisor > 0.0
  {
    Round2((sim / divisor) * 10.0)
  }

  /** The scoring step of `compute_relevance`. `sims` is the similarity of each paper to
      the keyword document, or `None` when vectorisation failed. */
  function ComputeRelevance(papers: seq<Paper>, sims: Option<seq<real>>): (r: seq<Paper>)
    requires sims.Some? ==> |sims.value| == |papers|
    ensures |r| == |papers|
    ensures forall i :: 0 <= i < |r| ==> r[i] == papers[i].(relevanceScore := r[i].relevanceScore)
    ensures papers == [] || sims.None? ==> r == papers
    ensures papers != [] && sims.Some? ==>
      forall i :: 0 <= i < |r| ==> r[i].relevanceScore == ScoreOf(sims.value[i], Divisor(sims.value))
  {
    if papers == [] then []
    else if sims.None? then papers
    else
      var d := Divisor(sims.value);
      seq(|papers|, i requires 0 <= i < |papers| => papers[i].(relevanceScore := ScoreOf(sims.value[i], d)))
  }

  /** The paper with the largest positive similarity scores exactly 10. */
  lemma MaxScoresTen(papers: seq<Paper>, sims: seq<real>, i: nat)
    requires |sims| == |papers| && i < |papers|
    requires sims[i] == SeqMax(sims) && sims[i] > 0.0
    ensures ComputeRelevance(papers, Some(sims))[i].relevanceScore == 10.0
  {
    var m := sims[i];
    assert Divisor(sims) == m;
    ScoreOfItself(m);
  }

  /** A similarity equal to the divisor scores 10. */
  lemma ScoreOfItself(m: real)
    requires m > 0.0
    ensures ScoreOf(m, m) == 10.0
  {
    assert (m / m) * 10.0 == 1000 as real / 100.0;
    Round2Exact(1000);
  }

  /** With non-negative similarities every score lies between 0 and 10. */
  lemma ScoresInRange(papers: seq<Paper>, sims: seq<real>)
    requires |sims| == |papers|
    requires forall i :: 0 <= i < |sims| ==> sims[i] >= 0.0
    ensures forall i :: 0 <= i < |papers| ==>
      0.0 <= ComputeRelevance(papers, Some(sims))[i].relevanceScore <= 10.0
  {
    if papers != [] {
      var d := Divisor(sims);
      var m := SeqMax(sims);
      forall i | 0 <= i < |papers|
        ensures 0.0 <= ComputeRelevance(papers, Some(sims))[i].relevanceScore <= 10.0
      {
        assert sims[i] <= d;
        ScoreOfInRange(sims[i], d);
      }
    }
  }

  /** A similarity between 0 and the divisor scores between 0 and 10. */
  lemma ScoreOfInRange(sim: real, d: real)
    requires 0.0 <= sim <= d && d > 0.0
    ensures 0.0 <= ScoreOf(sim, d) <= 10.0
  {
    var x := (sim / d) * 10.0;
    RatioAtMostOne(sim, d);
    Round2Monotone(0.0, x);
    Round2Monotone(x, 10.0);
    Round2Exact(0);
    Round2Exact(1000);
  }

  lemma RatioAtMostOne(a: real, b: real)
    requires 0.0 <= a <= b && b > 0.0
    ensures 0.0 <= a / b <= 1.0
  {
  }

  /** When every similarity is zero the divisor is 1.0 and every score is 0. */
  lemma AllZeroScoresZero(papers: seq<Paper>, sims: seq<real>)
    requires |sims| == |papers| && papers != []
    requires forall i :: 0 <= i < |sims| ==> sims[i] == 0.0
    ensures Divisor(sims) == 1.0
    ensures forall i :: 0 <= i < |papers| ==> ComputeRelevance(papers, Some(sims))[i].relevanceScore == 0.0
  {
    Round2Exact(0);
  }

  // ----- selection ---------------------------------------------------------------------

  function AtLeast(threshold: real): Paper -> bool
  {
    (p: Paper) => p.relevanceScore >= threshold
  }

  /** The choice `filter_papers` makes from the ranked papers: the first `maxPapers` of
      those kept (Python slicing, so a negative bound drops from the end), or, when none
      is kept, the first five ranked ones. */
  function ChooseTop<T>(ranked: seq<T>, keep: T -> bool, maxPapers: int): (r: seq<T>)
    ensures var kept := Filter(keep, ranked);
      kept != [] ==>
        && |r| == (if maxPapers >= 0 then Min(maxPapers, |kept|) else Max(0, |kept| + maxPapers))
        && r == kept[..|r|]
        && (forall i :: 0 <= i < |r| ==> keep(r[i]))
    ensures Filter(keep, ranked) == [] ==> |r| == Min(5, |ranked|) && r == ranked[..|r|]
    ensures ranked != [] && maxPapers >= 1 ==> r != []
  {
    var kept := Filter(keep, ranked);
    if kept != [] then PyTake(kept, maxPapers) else PyTake(ranked, 5)
  }

  /** `filter_papers` with `max_papers` and `relevance_threshold` given: score, sort by
      score descending (stably), keep the first `maxPapers` papers at or above the
      threshold, or, when none is, the first five. */
  function FilterPapers(papers: seq<Paper>, sims: Option<seq<real>>, maxPapers: int, threshold: real): (r: seq<Paper>)
    requires sims.Some? ==> |sims.value| == |papers|
    ensures papers == [] ==> r == []
    ensures papers != [] && maxPapers >= 1 ==> r != []
  {
    if papers == [] then [] else ChooseTop(Ranked(papers, sims), AtLeast(threshold), maxPapers)
  }

  /** When some paper reaches the threshold, the choice is the first `maxPapers` of those
      that do, in ranked order. */
  lemma FilterPapersRelevant(papers: seq<Paper>, sims: Option<seq<real>>, maxPapers: int, threshold: real)
    requires sims.Some? ==> |sims.value| == |papers|
    requires Filter(AtLeast(threshold), Ranked(papers, sims)) != []
    ensures var relevant := Filter(AtLeast(threshold), Ranked(papers, sims));
      var r := FilterPapers(papers, sims, maxPapers, threshold);
      && |r| == (if maxPapers >= 0 then Min(maxPapers, |relevant|) else Max(0, |relevant| + maxPapers))
      && r == relevant[..|r|]
      && (forall i :: 0 <= i < |r| ==> r[i].relevanceScore >= threshold)
  {
  }

  /** When no paper reaches the threshold, the choice is the five best ranked papers. */
  lemma FilterPapersFallback(papers: seq<Paper>, sims: Option<seq<real>>, maxPapers: int, threshold: real)
    requires sims.Some? ==> |sims.value| == |papers|
    requires Filter(AtLeast(threshold), Ranked(papers, sims)) == []
    ensures var r := FilterPapers(papers, sims, maxPapers, threshold);
      |r| == Min(5, |papers|) && r == Ranked(papers, sims)[..|r|]
  {
  }

  /** A filtered descending sequence stays descending. */
  lemma {:induction false} FilterSortedDesc<T>(f: T -> bool, s: seq<T>, key: T -> real)
    requires SortedDesc(s, key)
    ensures SortedDesc(Filter(f, s), key)
    decreases |s|
  {
    if s != [] {
      var rest := Filter(f, s[1..]);
      FilterSortedDesc(f, s[1..], key);
      if f(s[0]) {
        forall j | 0 <= j < |rest| ensures key(s[0]) >= key(rest[j]) {
          var k :| 0 <= k < |s[1..]| && s[1..][k] == rest[j];
          assert s[k + 1] == rest[j];
        }
        assert Filter(f, s) == [s[0]] + rest;
      }
    }
  }

  /** The papers `filter_papers` chooses from: scored, then sorted by score. */
  function Ranked(papers: seq<Paper>, sims: Option<seq<real>>): (r: seq<Paper>)
    requires sims.Some? ==> |sims.value| == |papers|
    ensures SortedDesc(r, Score) && |r| == |papers|
  {
    SortDesc(ComputeRelevance(papers, sims), Score)
  }

  /** The choice keeps the ranked order and takes nothing from elsewhere. */
  lemma ChooseTopSorted<T>(ranked: seq<T>, keep: T -> bool, maxPapers: int, key: T -> real)
    requires SortedDesc(ranked, key)
    ensures var r := ChooseTop(ranked, keep, maxPapers);
      SortedDesc(r, key) && forall i :: 0 <= i < |r| ==> r[i] in ranked
  {
    var kept := Filter(keep, ranked);
    FilterSortedDesc(keep, ranked, key);
    var r := ChooseTop(ranked, keep, maxPapers);
    if kept != [] {
      assert r == kept[..|r|];
    } else {
      assert r == ranked[..|r|];
    }
  }

  /** Either way the choice is in descending score and made of scored papers. */
  lemma FilterPapersSorted(papers: seq<Paper>, sims: Option<seq<real>>, maxPapers: int, threshold: real)
    requires sims.Some? ==> |sims.value| == |papers|
    ensures var r := FilterPapers(papers, sims, maxPapers, threshold);
      && SortedDesc(r, Score)
      && forall i :: 0 <= i < |r| ==> r[i] in ComputeRelevance(papers, sims)
  {
    if papers != [] {
      var scored := ComputeRelevance(papers, sims);
      var sorted := Ranked(papers, sims);
      var r := FilterPapers(papers, sims, maxPapers, threshold);
      ChooseTopSorted(sorted, AtLeast(threshold), maxPapers, Score);
      forall i | 0 <= i < |r| ensures r[i] in scored {
        assert r[i] in sorted;
        assert r[i] in multiset(sorted);
      }
    }
  }
}
