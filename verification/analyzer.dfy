/** The deterministic parts of the Gemini analysis step: the abstract as the prompt shows
    it, the two-attempt retry policy over given call outcomes, the per-paper merge of the
    model's answer, and the briefing built without the model. The model's replies and the
    JSON decoder are inputs. */
module Analyzer {
  import opened Wrappers
  import opened Text
  import opened Seqs
  import opened Papers

  // ----- the prompt --------------------------------------------------------------------

  const NoAbstract: string := "(초록 없음)"

  /** The abstract shown for a paper in the prompt: a placeholder when it is empty, its
      first 300 characters and "..." when longer than that. */
  function PromptAbstract(a: string): (r: string)
    ensures a == "" ==> r == NoAbstract
    ensures 0 < |a| <= 300 ==> r == a
    ensures |a| > 300 ==> |r| == 303 && r[..300] == a[..300] && r[300..] == "..."
  {
    var t := if a == "" then NoAbstract else a;
    if |t| > 300 then t[..300] + "..." else t
  }

  /** The prompt never shows more than 303 characters of an abstract, and always begins
      with the abstract itself when there is one. */
  lemma PromptAbstractBounded(a: string)
    ensures |PromptAbstract(a)| <= 303
    ensures a != "" ==> var n := Min(|a|, 300); PromptAbstract(a)[..n] == a[..n]
  {
  }

  // ----- the API call ------------------------------------------------------------------

  /** What one `generate_content` call gives: the response text or the exception text. */
  datatype Outcome = Reply(text: string) | Failure(message: string)

  /** An error that retrying cannot cure: quota exhausted. */
  predicate IsQuotaError(e: string)
  {
    Contains(e, "429") || Contains(LowerAscii(e), "quota") || Contains(e, "ResourceExhausted")
  }

  /** The result of `_call_gemini`: the text, the attempts made (each adds one to
      `api_calls`), and the errors recorded, each cut to 150 characters. */
  datatype Call = Call(text: Option<string>, attempts: nat, errors: seq<string>)

  /** The text `_call_gemini` ends with, case by case: the first reply, unless the first
      error was a quota error or both attempts failed. */
  function ExpectedText(outcomes: seq<Outcome>): Option<string>
    requires |outcomes| == 2
  {
    match outcomes[0]
    case Reply(t) => Some(t)
    case Failure(m) =>
      if IsQuotaError(m) then None
      else if outcomes[1].Reply? then Some(outcomes[1].text)
      else None
  }

  /** `_call_gemini`, with `outcomes[k]` standing for what attempt `k` would get. */
  method CallGemini(outcomes: seq<Outcome>) returns (r: Call)
    requires |outcomes| == 2
    ensures r.text == ExpectedText(outcomes)
    ensures 1 <= r.attempts <= 2
    ensures r.attempts == 2 <==> outcomes[0].Failure? && !IsQuotaError(outcomes[0].message)
    ensures |r.errors| == (if r.text.Some? then r.attempts - 1 else r.attempts)
    ensures forall k :: 0 <= k < |r.errors| ==>
      outcomes[k].Failure? && r.errors[k] == Take(outcomes[k].message, 150)
  {
    var errors: seq<string> := [];
    var attempt := 0;
    while attempt < 2
      invariant 0 <= attempt <= 2
      invariant |errors| == attempt
      invariant forall k :: 0 <= k < attempt ==>
        outcomes[k].Failure? && errors[k] == Take(outcomes[k].message, 150)
      invariant attempt >= 1 ==> !IsQuotaError(outcomes[0].message)
      invariant attempt == 2 ==> !IsQuotaError(outcomes[1].message)
    {
      var o := outcomes[attempt];
      if o.Reply? {
        return Call(Some(o.text), attempt + 1, errors);
      }
      errors := errors + [Take(o.message, 150)];
      if IsQuotaError(o.message) {
        return Call(None, attempt + 1, errors);
      }
      attempt := attempt + 1;
    }
    r := Call(None, 2, errors);
  }

  // ----- merging the per-paper results -------------------------------------------------

  /** The `summary_kr` value: a list of lines, or any other value as `str()` renders it. */
  datatype Summary = Lines(lines: seq<string>) | Scalar(text: string)

  /** One item of the reply's `papers` list; a missing key is `None`. */
  datatype PaperResult = PaperResult(
    index: Option<int>,
    summaryKr: Option<Summary>,
    novelty: Option<string>,
    relevance: Option<int>,
    tags: Option<seq<string>>)

  /** The decoded reply, its missing keys already read as their defaults. */
  datatype Response = Response(
    papers: seq<PaperResult>,
    overview: string,
    themes: seq<Theme>,
    actionItems: seq<string>,
    trendKeywords: seq<string>)

  /** The key an item is filed under: its `index`, else its position. */
  function KeyOf(results: seq<PaperResult>, j: nat): int
    requires j < |results|
  {
    results[j].index.GetOr(j)
  }

  /** `result_map`, built from the first `n` items: a later item with the same key
      replaces an earlier one. Its keys are exactly the items' keys, and each is mapped to
      an item filed under it. */
  function ResultMap(results: seq<PaperResult>, n: nat): (r: map<int, PaperResult>)
    requires n <= |results|
    ensures r.Keys == set j | 0 <= j < n :: KeyOf(results, j)
    ensures forall k :: k in r ==> r[k] in results[..n]
  {
    if n == 0 then map[] else ResultMap(results, n - 1)[KeyOf(results, n - 1) := results[n - 1]]
  }

  /** The position of the last of the first `n` items filed under `i`. */
  function LastFor(results: seq<PaperResult>, i: int, n: nat): (r: Option<nat>)
    requires n <= |results|
    ensures r.Some? ==> r.value < n && KeyOf(results, r.value) == i
    ensures r.Some? ==> forall j :: r.value < j < n ==> KeyOf(results, j) != i
    ensures r.None? ==> forall j :: 0 <= j < n ==> KeyOf(results, j) != i
  {
    if n == 0 then None
    else if KeyOf(results, n - 1) == i then Some(n - 1)
    else LastFor(results, i, n - 1)
  }

  /** The dictionary holds, for each key, the last item filed under it, and no other key. */
  lemma {:induction false} ResultMapLastWins(results: seq<PaperResult>, n: nat, i: int)
    requires n <= |results|
    ensures i in ResultMap(results, n) <==> LastFor(results, i, n).Some?
    ensures i in ResultMap(results, n) ==> ResultMap(results, n)[i] == results[LastFor(results, i, n).value]
  {
    if n > 0 {
      ResultMapLastWins(results, n - 1, i);
    }
  }

  /** Paper `i` is updated: an item is filed under `i` and it has `summary_kr`. */
  predicate Applies(results: seq<PaperResult>, i: int)
  {
    var last := LastFor(results, i, |results|);
    last.Some? && results[last.value].summaryKr.Some?
  }

  function SummaryText(s: Summary): string
  {
    match s
    case Lines(lines) => Join("\n", lines)
    case Scalar(t) => t
  }

  /** The update of one paper from its item: summary, novelty, PPEL score and tags are
      taken over, the keywords are the first three tags, and nothing else changes. */
  function Apply(p: Paper, pr: PaperResult): (r: Paper)
    requires pr.summaryKr.Some?
    ensures r.summary == SummaryText(pr.summaryKr.value) && r.novelty == pr.novelty.GetOr("")
    ensures r.ppelScore == pr.relevance.GetOr(0) && r.tags == pr.tags.GetOr([])
    ensures |r.keywords| == Min(3, |r.tags|) && r.keywords == r.tags[..|r.keywords|]
    ensures r == p.(summary := r.summary, novelty := r.novelty, ppelScore := r.ppelScore,
                    tags := r.tags, keywords := r.keywords)
  {
    var tags := pr.tags.GetOr([]);
    p.(summary := SummaryText(pr.summaryKr.value), novelty := pr.novelty.GetOr(""),
       ppelScore := pr.relevance.GetOr(0), tags := tags, keywords := Take(tags, 3))
  }

  /** What paper `i` becomes after the merge. */
  function Merged(papers: seq<Paper>, results: seq<PaperResult>, i: nat): Paper
    requires i < |papers|
  {
    if Applies(results, i) then Apply(papers[i], results[LastFor(results, i, |results|).value])
    else papers[i]
  }

  function AppliedBelow(results: seq<PaperResult>, n: nat): set<nat>
  {
    set i: nat | i < n && Applies(results, i)
  }

  /** The merge loop of `analyze_all`: each paper takes the item filed under its position,
      if that item has `summary_kr`; `success_count` counts the updated papers. */
  method MergeResults(papers: seq<Paper>, results: seq<PaperResult>) returns (merged: seq<Paper>, successCount: nat)
    ensures |merged| == |papers|
    ensures forall i :: 0 <= i < |papers| ==> merged[i] == Merged(papers, results, i)
    ensures successCount == |AppliedBelow(results, |papers|)|
  {
    var resultMap := ResultMap(results, |results|);
    merged := [];
    successCount := 0;
    var i := 0;
    while i < |papers|
      invariant 0 <= i <= |papers|
      invariant |merged| == i
      invariant forall k :: 0 <= k < i ==> merged[k] == Merged(papers, results, k)
      invariant successCount == |AppliedBelow(results, i)|
    {
      MergeStep(papers, results, resultMap, i);
      var p := papers[i];
      AppliedStep(results, i);
      if i in resultMap && resultMap[i].summaryKr.Some? {
        p := Apply(p, resultMap[i]);
        successCount := successCount + 1;
      }
      merged := merged + [p];
      i := i + 1;
    }
  }

  /** The updated positions below `i + 1`: those below `i`, and `i` if it is updated. */
  lemma AppliedStep(results: seq<PaperResult>, i: nat)
    ensures |AppliedBelow(results, i + 1)|
      == |AppliedBelow(results, i)| + (if Applies(results, i) then 1 else 0)
  {
    if Applies(results, i) {
      assert AppliedBelow(results, i + 1) == AppliedBelow(results, i) + {i};
    } else {
      assert AppliedBelow(results, i + 1) == AppliedBelow(results, i);
    }
  }

  /** One step of the merge: the dictionary lookup decides `Applies` and gives `Merged`. */
  lemma MergeStep(papers: seq<Paper>, results: seq<PaperResult>, resultMap: map<int, PaperResult>, i: nat)
    requires i < |papers| && resultMap == ResultMap(results, |results|)
    ensures (i in resultMap && resultMap[i].summaryKr.Some?) <==> Applies(results, i)
    ensures i in resultMap && resultMap[i].summaryKr.Some? ==> Apply(papers[i], resultMap[i]) == Merged(papers, results, i)
    ensures !(i in resultMap && resultMap[i].summaryKr.Some?) ==> papers[i] == Merged(papers, results, i)
  {
    ResultMapLastWins(results, |results|, i);
  }

  // ----- the briefing without the model ------------------------------------------------

  /** One theme of a briefing. */
  datatype Theme = Theme(title: string, summary: string, ppelRelevance: string, level: string, indices: seq<nat>)

  /** The briefing: absent (`{}`) for an empty batch. */
  datatype Briefing =
    | NoBriefing
    | Briefing(overview: string, themes: seq<Theme>, actionItems: seq<string>, hotKeywords: seq<string>)

  /** `_relevance_label`. */
  function RelevanceLabel(score: real): (r: string)
    ensures r == "High" <==> score >= 7.0
    ensures r == "Medium" <==> 4.0 <= score < 7.0
    ensures r == "Low" <==> score < 4.0
  {
    if score >= 7.0 then "High" else if score >= 4.0 then "Medium" else "Low"
  }

  function LabelRank(name: string): nat
  {
    if name == "High" then 2 else if name == "Medium" then 1 else 0
  }

  /** A higher score never gets a lower label. */
  lemma RelevanceLabelMonotone(s: real, t: real)
    requires s <= t
    ensures LabelRank(RelevanceLabel(s)) <= LabelRank(RelevanceLabel(t))
  {
  }

  /** Paper indices of one journal, in order of first appearance. */
  datatype JournalGroup = JournalGroup(journal: string, indices: seq<nat>)

  /** The positions below `n` of the papers of `journal`, ascending. */
  function IndicesOf(papers: seq<Paper>, journal: string, n: nat): (r: seq<nat>)
    requires n <= |papers|
    ensures forall k :: 0 <= k < |r| ==> r[k] < n && papers[r[k]].journal == journal
    ensures forall a, b :: 0 <= a < b < |r| ==> r[a] < r[b]
  {
    if n == 0 then []
    else IndicesOf(papers, journal, n - 1) + (if papers[n - 1].journal == journal then [n - 1] else [])
  }

  /** The position of the group of `journal`, if there is one. */
  function FindGroup(gs: seq<JournalGroup>, journal: string): (r: Option<nat>)
    ensures r.Some? ==> r.value < |gs| && gs[r.value].journal == journal
    ensures r.None? ==> forall k :: 0 <= k < |gs| ==> gs[k].journal != journal
  {
    if gs == [] then None
    else if gs[|gs| - 1].journal == journal then Some(|gs| - 1)
    else FindGroup(gs[..|gs| - 1], journal)
  }

  /** `journal_groups[journal].append(i)` on a `defaultdict(list)`. */
  function AddTo(gs: seq<JournalGroup>, journal: string, i: nat): seq<JournalGroup>
  {
    match FindGroup(gs, journal)
    case Some(k) => gs[k := JournalGroup(journal, gs[k].indices + [i])]
    case None => gs + [JournalGroup(journal, [i])]
  }

  /** The groups after the first `n` papers. */
  function GroupsOf(papers: seq<Paper>, n: nat): seq<JournalGroup>
    requires n <= |papers|
  {
    if n == 0 then [] else AddTo(GroupsOf(papers, n - 1), papers[n - 1].journal, n - 1)
  }

  function JournalsOf(gs: seq<JournalGroup>): set<string>
  {
    set k | 0 <= k < |gs| :: gs[k].journal
  }

  /** No journal has two groups. */
  ghost predicate DistinctJournals(gs: seq<JournalGroup>)
  {
    forall a, b :: 0 <= a < b < |gs| ==> gs[a].journal != gs[b].journal
  }

  /** Each group holds exactly its journal's positions below `n`, and at least one. */
  ghost predicate ExactGroups(papers: seq<Paper>, n: nat, gs: seq<JournalGroup>)
    requires n <= |papers|
  {
    forall k :: 0 <= k < |gs| ==> gs[k].indices == IndicesOf(papers, gs[k].journal, n) && gs[k].indices != []
  }

  /** Every paper below `n` has a group. */
  ghost predicate CoversPapers(papers: seq<Paper>, n: nat, gs: seq<JournalGroup>)
    requires n <= |papers|
  {
    forall i :: 0 <= i < n ==> papers[i].journal in JournalsOf(gs)
  }

  /** The groups come in order of their first paper. */
  ghost predicate FirstAppearanceOrder(gs: seq<JournalGroup>)
  {
    forall a, b :: 0 <= a < b < |gs| ==> gs[a].indices != [] && gs[b].indices != [] ==> gs[a].indices[0] < gs[b].indices[0]
  }

  /** The grouping is right: one group per journal, holding exactly that journal's
      positions, the groups in order of first appearance. */
  ghost predicate GroupedBelow(papers: seq<Paper>, n: nat, gs: seq<JournalGroup>)
    requires n <= |papers|
  {
    DistinctJournals(gs) && ExactGroups(papers, n, gs) && CoversPapers(papers, n, gs) && FirstAppearanceOrder(gs)
  }

  lemma {:induction false} IndicesOfAbsent(papers: seq<Paper>, journal: string, n: nat)
    requires n <= |papers|
    requires forall i :: 0 <= i < n ==> papers[i].journal != journal
    ensures IndicesOf(papers, journal, n) == []
  {
    if n > 0 {
      IndicesOfAbsent(papers, journal, n - 1);
    }
  }

  lemma AddToExistingExact(papers: seq<Paper>, n: nat, gs: seq<JournalGroup>, k: nat)
    requires 0 < n <= |papers| && ExactGroups(papers, n - 1, gs) && DistinctJournals(gs)
    requires k < |gs| && gs[k].journal == papers[n - 1].journal
    ensures ExactGroups(papers, n, gs[k := JournalGroup(gs[k].journal, gs[k].indices + [n - 1])])
  {
    var j := papers[n - 1].journal;
    var r := gs[k := JournalGroup(j, gs[k].indices + [n - 1])];
    forall m | 0 <= m < |r|
      ensures r[m].indices == IndicesOf(papers, r[m].journal, n) && r[m].indices != []
    {
      assert r[m].journal == gs[m].journal;
      assert IndicesOf(papers, gs[m].journal, n) ==
        IndicesOf(papers, gs[m].journal, n - 1) + (if j == gs[m].journal then [n - 1] else []);
      if m != k {
        assert gs[m].journal != j;
      }
    }
  }

  /** Appending paper `n - 1` to the group of its journal keeps the grouping right. */
  lemma AddToExisting(papers: seq<Paper>, n: nat, gs: seq<JournalGroup>, k: nat)
    requires 0 < n <= |papers| && GroupedBelow(papers, n - 1, gs)
    requires k < |gs| && gs[k].journal == papers[n - 1].journal
    ensures GroupedBelow(papers, n, gs[k := JournalGroup(gs[k].journal, gs[k].indices + [n - 1])])
  {
    var j := papers[n - 1].journal;
    var r := gs[k := JournalGroup(j, gs[k].indices + [n - 1])];
    AddToExistingExact(papers, n, gs, k);
    UpdateKeepsShape(gs, k, r[k]);
    assert JournalsOf(r) == JournalsOf(gs);
  }

  /** Replacing a group by one of the same journal and the same first position keeps the
      journals, their distinctness and the order of first appearance. */
  lemma UpdateKeepsShape(gs: seq<JournalGroup>, k: nat, g: JournalGroup)
    requires k < |gs| && g.journal == gs[k].journal
    requires gs[k].indices != [] && g.indices != [] && g.indices[0] == gs[k].indices[0]
    ensures JournalsOf(gs[k := g]) == JournalsOf(gs)
    ensures DistinctJournals(gs) ==> DistinctJournals(gs[k := g])
    ensures FirstAppearanceOrder(gs) ==> FirstAppearanceOrder(gs[k := g])
  {
    var r := gs[k := g];
    assert forall m :: 0 <= m < |r| ==> r[m].journal == gs[m].journal;
    assert forall m :: 0 <= m < |r| ==> r[m].indices != [] ==> gs[m].indices != [] && r[m].indices[0] == gs[m].indices[0];
  }

  lemma AddToNewExact(papers: seq<Paper>, n: nat, gs: seq<JournalGroup>)
    requires 0 < n <= |papers| && ExactGroups(papers, n - 1, gs) && CoversPapers(papers, n - 1, gs)
    requires forall k :: 0 <= k < |gs| ==> gs[k].journal != papers[n - 1].journal
    ensures ExactGroups(papers, n, gs + [JournalGroup(papers[n - 1].journal, [n - 1])])
  {
    var j := papers[n - 1].journal;
    var r := gs + [JournalGroup(j, [n - 1])];
    assert forall i :: 0 <= i < n - 1 ==> papers[i].journal != j by {
      forall i | 0 <= i < n - 1 ensures papers[i].journal != j {
        var m :| 0 <= m < |gs| && gs[m].journal == papers[i].journal;
      }
    }
    IndicesOfAbsent(papers, j, n - 1);
    forall m | 0 <= m < |r|
      ensures r[m].indices == IndicesOf(papers, r[m].journal, n) && r[m].indices != []
    {
      assert IndicesOf(papers, r[m].journal, n) ==
        IndicesOf(papers, r[m].journal, n - 1) + (if j == r[m].journal then [n - 1] else []);
      if m < |gs| {
        assert r[m] == gs[m];
      }
    }
  }

  /** Opening a group for a journal not seen before keeps the grouping right. */
  lemma AddToNew(papers: seq<Paper>, n: nat, gs: seq<JournalGroup>)
    requires 0 < n <= |papers| && GroupedBelow(papers, n - 1, gs)
    requires forall k :: 0 <= k < |gs| ==> gs[k].journal != papers[n - 1].journal
    ensures GroupedBelow(papers, n, gs + [JournalGroup(papers[n - 1].journal, [n - 1])])
  {
    var g := JournalGroup(papers[n - 1].journal, [n - 1]);
    AddToNewExact(papers, n, gs);
    forall m | 0 <= m < |gs| && gs[m].indices != [] ensures gs[m].indices[0] < g.indices[0] {
      assert gs[m].indices == IndicesOf(papers, gs[m].journal, n - 1);
    }
    AppendKeepsShape(gs, g);
  }

  /** Adding a group of a new journal whose first position comes after every group's
      first position keeps the journals distinct and the order of first appearance. */
  lemma AppendKeepsShape(gs: seq<JournalGroup>, g: JournalGroup)
    requires forall k :: 0 <= k < |gs| ==> gs[k].journal != g.journal
    requires g.indices != []
    requires forall k :: 0 <= k < |gs| && gs[k].indices != [] ==> gs[k].indices[0] < g.indices[0]
    ensures JournalsOf(gs + [g]) == JournalsOf(gs) + {g.journal}
    ensures DistinctJournals(gs) ==> DistinctJournals(gs + [g])
    ensures FirstAppearanceOrder(gs) ==> FirstAppearanceOrder(gs + [g])
  {
    var r := gs + [g];
    assert forall m :: 0 <= m < |gs| ==> r[m] == gs[m];
    assert r[|gs|] == g;
  }

  lemma {:induction false} GroupsOfCorrect(papers: seq<Paper>, n: nat)
    requires n <= |papers|
    ensures GroupedBelow(papers, n, GroupsOf(papers, n))
  {
    if n > 0 {
      GroupsOfCorrect(papers, n - 1);
      var gs := GroupsOf(papers, n - 1);
      var j := papers[n - 1].journal;
      match FindGroup(gs, j)
      case Some(k) => AddToExisting(papers, n, gs, k);
      case None => AddToNew(papers, n, gs);
    }
  }

  function GroupSize(g: JournalGroup): real { |g.indices| as real }

  /** The journal groups largest first, ties in order of first appearance, as the stable
      `sorted(..., key=lambda x: -len(x[1]))` leaves them. */
  function RankedGroups(papers: seq<Paper>): (r: seq<JournalGroup>)
    ensures SortedDesc(r, GroupSize) && |r| == |GroupsOf(papers, |papers|)|
  {
    SortDesc(GroupsOf(papers, |papers|), GroupSize)
  }

  /** The first `width` characters of paper `i`'s title ("" for a position outside the
      batch, which the grouping never produces). */
  function ShortTitle(papers: seq<Paper>, width: nat, i: nat): string
  {
    if i < |papers| then Take(papers[i].title, width) else ""
  }

  function ThemeOf(papers: seq<Paper>, g: JournalGroup): Theme
  {
    var titles := Map((i: nat) => ShortTitle(papers, 50, i), Take(g.indices, 3));
    Theme(g.journal + " (" + NatToString(|g.indices|) + "편)", Join("; ", titles),
          "개별 논문을 확인해주세요.", "medium", g.indices)
  }

  /** The fallback themes: the five largest journal groups. */
  function FallbackThemes(papers: seq<Paper>): (r: seq<Theme>)
    ensures |r| == Min(5, |RankedGroups(papers)|)
    ensures forall k :: 0 <= k < |r| ==> r[k] == ThemeOf(papers, RankedGroups(papers)[k])
  {
    Map((g: JournalGroup) => ThemeOf(papers, g), Take(RankedGroups(papers), 5))
  }

  /** In a sequence without repeated journals every group occurs at most once. */
  lemma {:induction false} DistinctOnce(gs: seq<JournalGroup>, x: JournalGroup)
    requires DistinctJournals(gs)
    ensures multiset(gs)[x] <= 1
    decreases |gs|
  {
    if gs != [] {
      assert DistinctJournals(gs[1..]) by {
        forall a, b | 0 <= a < b < |gs[1..]| ensures gs[1..][a].journal != gs[1..][b].journal {
          assert gs[1..][a] == gs[a + 1] && gs[1..][b] == gs[b + 1];
        }
      }
      DistinctOnce(gs[1..], x);
      assert gs == [gs[0]] + gs[1..];
      if gs[0] == x {
        assert forall k :: 0 <= k < |gs[1..]| ==> gs[1..][k] != x by {
          forall k | 0 <= k < |gs[1..]| ensures gs[1..][k] != x {
            assert gs[1..][k] == gs[k + 1];
          }
        }
        assert x !in gs[1..];
      }
    }
  }

  /** An element at two positions occurs twice. */
  lemma CountTwo<T>(s: seq<T>, a: nat, b: nat)
    requires a < b < |s| && s[a] == s[b]
    ensures multiset(s)[s[a]] >= 2
  {
    assert s == s[..b] + s[b..];
    assert s[a] in s[..b];
    assert s[b..][0] == s[a];
    assert s[a] in s[b..];
  }

  /** Reordering keeps journals distinct. */
  lemma PermutedDistinct(gs: seq<JournalGroup>, ranked: seq<JournalGroup>)
    requires DistinctJournals(gs) && multiset(ranked) == multiset(gs)
    ensures DistinctJournals(ranked)
  {
    forall a, b | 0 <= a < b < |ranked| ensures ranked[a].journal != ranked[b].journal {
      if ranked[a].journal == ranked[b].journal {
        assert ranked[a] in multiset(gs) && ranked[b] in multiset(gs);
        var i :| 0 <= i < |gs| && gs[i] == ranked[a];
        var i' :| 0 <= i' < |gs| && gs[i'] == ranked[b];
        assert i == i';
        CountTwo(ranked, a, b);
        DistinctOnce(gs, ranked[a]);
      }
    }
  }

  /** The groups' journals are the batch's journals. */
  lemma GroupJournals(papers: seq<Paper>, gs: seq<JournalGroup>)
    requires GroupedBelow(papers, |papers|, gs)
    ensures JournalsOf(gs) == (set i | 0 <= i < |papers| :: papers[i].journal)
  {
    forall k | 0 <= k < |gs| ensures gs[k].journal in (set i | 0 <= i < |papers| :: papers[i].journal) {
      var i := gs[k].indices[0];
      assert papers[i].journal == gs[k].journal;
    }
  }

  /** The themes are the journals' groups: each lists all of its journal's papers, the
      journals are distinct and are all the batch's journals, and no journal left out has
      more papers than one kept. */
  lemma FallbackThemesAreLargestGroups(papers: seq<Paper>)
    ensures var ranked := RankedGroups(papers);
      && ExactGroups(papers, |papers|, ranked)
      && DistinctJournals(ranked)
      && JournalsOf(ranked) == (set i | 0 <= i < |papers| :: papers[i].journal)
      && (forall a, b :: 0 <= a < 5 <= b < |ranked| ==> |ranked[a].indices| >= |ranked[b].indices|)
  {
    RankedExact(papers);
    RankedJournals(papers);
    var ranked := RankedGroups(papers);
    forall a, b | 0 <= a < 5 <= b < |ranked| ensures |ranked[a].indices| >= |ranked[b].indices| {
      assert GroupSize(ranked[a]) >= GroupSize(ranked[b]);
    }
  }

  /** Ranking keeps every group exact. */
  lemma RankedExact(papers: seq<Paper>)
    ensures ExactGroups(papers, |papers|, RankedGroups(papers))
  {
    var gs := GroupsOf(papers, |papers|);
    var P := (g: JournalGroup) => g.indices == IndicesOf(papers, g.journal, |papers|) && g.indices != [];
    GroupsOfCorrect(papers, |papers|);
    assert forall k :: 0 <= k < |gs| ==> P(gs[k]);
    PermutationKeeps(gs, RankedGroups(papers), P);
  }

  /** Ranking keeps the journals distinct and all present. */
  lemma RankedJournals(papers: seq<Paper>)
    ensures DistinctJournals(RankedGroups(papers))
    ensures JournalsOf(RankedGroups(papers)) == (set i | 0 <= i < |papers| :: papers[i].journal)
  {
    var gs := GroupsOf(papers, |papers|);
    var ranked := RankedGroups(papers);
    GroupsOfCorrect(papers, |papers|);
    PermutedDistinct(gs, ranked);
    GroupJournals(papers, gs);
    assert JournalsOf(ranked) == JournalsOf(gs) by {
      forall k | 0 <= k < |ranked| ensures ranked[k].journal in JournalsOf(gs) {
        assert ranked[k] in multiset(gs);
      }
      forall k | 0 <= k < |gs| ensures gs[k].journal in JournalsOf(ranked) {
        assert gs[k] in multiset(ranked);
      }
    }
  }

  /** A theme's summary names at most three of its papers, each title cut to 50. */
  lemma ThemeSummaryTitles(papers: seq<Paper>, g: JournalGroup)
    requires forall k :: 0 <= k < |g.indices| ==> g.indices[k] < |papers|
    ensures var titles := Map((i: nat) => ShortTitle(papers, 50, i), Take(g.indices, 3));
      && |titles| == Min(3, |g.indices|)
      && ThemeOf(papers, g).summary == Join("; ", titles)
      && forall k :: 0 <= k < |titles| ==>
           |titles[k]| <= 50 && titles[k] == papers[g.indices[k]].title[..|titles[k]|]
  {
  }

  /** One action item: the label of the paper's score and its title cut to 65. */
  function ActionItem(p: Paper): string
  {
    "[관련도 " + RelevanceLabel(p.relevanceScore) + "] " + Take(p.title, 65)
  }

  /** The action items of the fallback: the three best-scored papers, ties in batch order. */
  function FallbackActions(papers: seq<Paper>): (r: seq<string>)
    ensures |r| == Min(3, |papers|)
    ensures var top := SortDesc(papers, Score);
      forall k :: 0 <= k < |r| ==> r[k] == ActionItem(top[k])
  {
    Map(ActionItem, Take(SortDesc(papers, Score), 3))
  }

  function Score(p: Paper): real { p.relevanceScore }

  /** No paper left out of the action items scores above one that is in them. */
  lemma FallbackActionsBest(papers: seq<Paper>)
    ensures var top := SortDesc(papers, Score);
      forall a, b :: 0 <= a < 3 <= b < |top| ==> top[a].relevanceScore >= top[b].relevanceScore
  {
    var top := SortDesc(papers, Score);
    forall a, b | 0 <= a < 3 <= b < |top| ensures top[a].relevanceScore >= top[b].relevanceScore {
      assert Score(top[a]) >= Score(top[b]);
    }
  }

  /** The overview of the fallback, with the first recorded error cut to 80 characters. */
  function FallbackOverview(totalCollected: nat, selected: nat, errors: seq<string>): (r: string)
    ensures errors == [] ==> r == FallbackText(totalCollected, selected)
    ensures errors != [] ==> r == FallbackText(totalCollected, selected) + " (오류: " + Take(errors[0], 80) + ")"
  {
    var note := if errors == [] then "" else " (오류: " + Take(errors[0], 80) + ")";
    FallbackText(totalCollected, selected) + note
  }

  function FallbackText(totalCollected: nat, selected: nat): string
  {
    "오늘 총 " + NatToString(totalCollected) + "편 중 " + NatToString(selected) + "편이 선별되었습니다. "
      + "AI 분석이 일시적으로 불가하여 키워드 매칭 기반 관련성을 제공합니다."
  }

  /** `_fallback_briefing`. */
  function FallbackBriefing(papers: seq<Paper>, totalCollected: nat, errors: seq<string>): (r: Briefing)
    ensures r.Briefing? && r.hotKeywords == []
    ensures |r.themes| <= 5 && |r.actionItems| <= 3
  {
    Briefing(FallbackOverview(totalCollected, |papers|, errors), FallbackThemes(papers),
             FallbackActions(papers), [])
  }

  // ----- analyze_all -------------------------------------------------------------------

  datatype Analysis = Analysis(papers: seq<Paper>, briefing: Briefing, trends: seq<string>, success: bool)

  /** `analyze_all`. `outcomes` are the replies the two attempts would get and `parse`
      the JSON decoder (`None` for a decode error); `apiCalls` and `errors` are the
      analyser's counters before the call, `calls` and `log` after it. Each trend is a
      keyword (its description is the constant "오늘의 트렌드"). */
  method AnalyzeAll(papers: seq<Paper>, totalCollected: nat, outcomes: seq<Outcome>,
                    parse: string -> Option<Response>, apiCalls: nat, errors: seq<string>)
    returns (a: Analysis, calls: nat, log: seq<string>)
    requires |outcomes| == 2
    ensures papers == [] ==> a == Analysis([], NoBriefing, [], false) && calls == apiCalls && log == errors
    ensures papers != [] ==> apiCalls + 1 <= calls <= apiCalls + 2 && |log| >= |errors| && log[..|errors|] == errors
    ensures papers != [] ==>
      (calls == apiCalls + 2 <==> outcomes[0].Failure? && !IsQuotaError(outcomes[0].message))
    ensures papers != [] ==>
      |log| - |errors| == (if ExpectedText(outcomes).Some? then calls - apiCalls - 1 else calls - apiCalls)
    ensures papers != [] ==> forall k :: 0 <= k < |log| - |errors| ==>
      outcomes[k].Failure? && log[|errors| + k] == Take(outcomes[k].message, 150)
    ensures a.success <==>
      papers != [] && ExpectedText(outcomes).Some? && parse(ExpectedText(outcomes).value).Some?
    ensures papers != [] && !a.success ==>
      a == Analysis(papers, FallbackBriefing(papers, totalCollected, log), [], false)
    ensures a.success ==>
      var resp := parse(ExpectedText(outcomes).value).value;
      && |a.papers| == |papers|
      && (forall i :: 0 <= i < |papers| ==> a.papers[i] == Merged(papers, resp.papers, i))
      && a.trends == resp.trendKeywords
      && a.briefing == Briefing(resp.overview, resp.themes, resp.actionItems, resp.trendKeywords)
  {
    if papers == [] {
      return Analysis([], NoBriefing, [], false), apiCalls, errors;
    }
    var call := CallGemini(outcomes);
    calls := apiCalls + call.attempts;
    log := errors + call.errors;
    assert log[..|errors|] == errors;
    assert forall k :: 0 <= k < |call.errors| ==> log[|errors| + k] == call.errors[k];
    if call.text.None? {
      return Analysis(papers, FallbackBriefing(papers, totalCollected, log), [], false), calls, log;
    }
    var parsed := parse(call.text.value);
    if parsed.None? {
      return Analysis(papers, FallbackBriefing(papers, totalCollected, log), [], false), calls, log;
    }
    var resp := parsed.value;
    var merged, _ := MergeResults(papers, resp.papers);
    a := Analysis(merged, Briefing(resp.overview, resp.themes, resp.actionItems, resp.trendKeywords),
                  resp.trendKeywords, true);
  }
}
