/** The paper store and the keyword-trend counter, with the two SQLite tables as maps:
    DOI to stored row, and (day, keyword) to count. Days are day numbers; the clock's
    "today" is a parameter. */
module Database {
  import opened Wrappers
  import opened Text
  import opened Seqs
  import opened Papers

  /** A row of the `papers` table, keyed by DOI. */
  datatype Row = Row(
    title: string,
    journal: string,
    date: int,
    keywords: string,
    relevanceScore: real,
    summary: string,
    ppelScore: int)

  type Store = map<string, Row>

  /** The `daily_trends` table: the count recorded for a (day, keyword) pair. */
  type Trends = map<(int, string), nat>

  // ----- papers ------------------------------------------------------------------------

  /** `is_duplicate`: an empty DOI is never a duplicate; any other is one exactly when
      the store holds it. */
  function IsDuplicate(store: Store, doi: string): (r: bool)
    ensures doi == "" ==> !r
    ensures doi != "" ==> (r <==> doi in store)
  {
    if doi == "" then false else doi in store
  }

  /** The condition under which `filter_new_papers` keeps a paper. */
  function IsNew(store: Store): Paper -> bool
  {
    (p: Paper) => p.doi == "" || !IsDuplicate(store, p.doi)
  }

  function HasNoDoi(p: Paper): bool { p.doi == "" }

  /** `filter_new_papers`: the papers, in order, that have no DOI or one not yet stored. */
  method FilterNewPapers(store: Store, papers: seq<Paper>) returns (r: seq<Paper>)
    ensures r == Filter(IsNew(store), papers)
    ensures IsSubseq(r, papers)
    ensures forall i :: 0 <= i < |r| ==> r[i].doi == "" || r[i].doi !in store
  {
    r := [];
    var i := 0;
    while i < |papers|
      invariant 0 <= i <= |papers|
      invariant r == Filter(IsNew(store), papers[..i])
    {
      FilterAppend(IsNew(store), papers[..i], [papers[i]]);
      assert papers[..i + 1] == papers[..i] + [papers[i]];
      if papers[i].doi == "" || !IsDuplicate(store, papers[i].doi) {
        r := r + [papers[i]];
      }
      i := i + 1;
    }
    assert papers[..i] == papers;
    FilterIsSubseq(IsNew(store), papers);
  }

  /** Every occurrence of a new paper is kept, so two papers of one batch that share an
      unstored DOI are both kept; no stored one is. */
  lemma FilterNewKeepsAll(store: Store, papers: seq<Paper>, p: Paper)
    ensures multiset(Filter(IsNew(store), papers))[p] ==
      if p.doi == "" || p.doi !in store then multiset(papers)[p] else 0
  {
    FilterMultiset(IsNew(store), papers, p);
  }

  /** The row `save_paper` writes: the paper's fields, keywords comma-joined. */
  function RowOf(p: Paper): (r: Row)
    ensures r.title == p.title && r.journal == p.journal && r.date == p.publishedDate
    ensures r.keywords == Join(",", p.keywords) && r.relevanceScore == p.relevanceScore
    ensures r.summary == p.summary && r.ppelScore == p.ppelScore
  {
    Row(p.title, p.journal, p.publishedDate, Join(",", p.keywords), p.relevanceScore, p.summary, p.ppelScore)
  }

  /** `save_paper`: an `INSERT OR REPLACE` keyed by DOI, skipped for an empty DOI. */
  function SavePaper(store: Store, p: Paper): (r: Store)
    ensures p.doi == "" ==> r == store
    ensures p.doi != "" ==> p.doi in r && r[p.doi] == RowOf(p)
    ensures p.doi != "" ==> r.Keys == store.Keys + {p.doi}
    ensures forall d :: d in store && d != p.doi ==> d in r && r[d] == store[d]
  {
    if p.doi == "" then store else store[p.doi := RowOf(p)]
  }

  /** The non-empty DOIs of a batch. */
  function Dois(ps: seq<Paper>): set<string>
  {
    set i | 0 <= i < |ps| && ps[i].doi != "" :: ps[i].doi
  }

  /** No later paper of the batch has the DOI of paper `j`. */
  ghost predicate LastWithDoi(ps: seq<Paper>, j: nat)
    requires j < |ps|
  {
    forall k :: j < k < |ps| ==> ps[k].doi != ps[j].doi
  }

  /** `save_papers`: `save_paper` on each paper in turn. No stored paper is lost, and the
      empty DOI is never stored. */
  function SavePapers(store: Store, ps: seq<Paper>): (r: Store)
    ensures store.Keys <= r.Keys
    ensures "" in r ==> "" in store
    decreases |ps|
  {
    if ps == [] then store else SavePapers(SavePaper(store, ps[0]), ps[1..])
  }

  lemma DoisCons(ps: seq<Paper>)
    requires ps != []
    ensures Dois(ps) == (if ps[0].doi == "" then {} else {ps[0].doi}) + Dois(ps[1..])
  {
    forall d | d in Dois(ps) ensures d in (if ps[0].doi == "" then {} else {ps[0].doi}) + Dois(ps[1..]) {
      var i :| 0 <= i < |ps| && ps[i].doi != "" && ps[i].doi == d;
      if i > 0 {
        assert ps[1..][i - 1] == ps[i];
      }
    }
    forall d | d in Dois(ps[1..]) ensures d in Dois(ps) {
      var i :| 0 <= i < |ps[1..]| && ps[1..][i].doi != "" && ps[1..][i].doi == d;
      assert ps[i + 1] == ps[1..][i];
    }
  }

  /** Saving a batch stores exactly the batch's non-empty DOIs besides the stored ones. */
  lemma {:induction false} SavePapersKeys(store: Store, ps: seq<Paper>)
    ensures SavePapers(store, ps).Keys == store.Keys + Dois(ps)
    decreases |ps|
  {
    if ps != [] {
      DoisCons(ps);
      SavePapersKeys(SavePaper(store, ps[0]), ps[1..]);
    }
  }

  /** DOIs outside the batch keep their rows. */
  lemma {:induction false} SavePapersFrame(store: Store, ps: seq<Paper>, d: string)
    requires d in store && d !in Dois(ps)
    ensures d in SavePapers(store, ps) && SavePapers(store, ps)[d] == store[d]
    decreases |ps|
  {
    if ps != [] {
      DoisCons(ps);
      SavePapersFrame(SavePaper(store, ps[0]), ps[1..], d);
    }
  }

  /** Last write wins: the row stored for a DOI is that of the batch's last paper with it. */
  lemma {:induction false} SavePapersLastWins(store: Store, ps: seq<Paper>, j: nat)
    requires j < |ps| && ps[j].doi != "" && LastWithDoi(ps, j)
    ensures ps[j].doi in SavePapers(store, ps) && SavePapers(store, ps)[ps[j].doi] == RowOf(ps[j])
    decreases |ps|
  {
    var next := SavePaper(store, ps[0]);
    SavePapersKeys(store, ps);
    assert ps[j].doi in Dois(ps);
    if j == 0 {
      assert forall i :: 0 <= i < |ps[1..]| ==> ps[1..][i].doi != ps[0].doi by {
        forall i | 0 <= i < |ps[1..]| ensures ps[1..][i].doi != ps[0].doi {
          assert ps[1..][i] == ps[i + 1];
        }
      }
      assert ps[0].doi !in Dois(ps[1..]);
      SavePapersFrame(next, ps[1..], ps[0].doi);
    } else {
      assert ps[1..][j - 1] == ps[j];
      assert LastWithDoi(ps[1..], j - 1) by {
        forall k | j - 1 < k < |ps[1..]| ensures ps[1..][k].doi != ps[j].doi {
          assert ps[1..][k] == ps[k + 1];
        }
      }
      SavePapersLastWins(next, ps[1..], j - 1);
    }
  }

  /** After the batch is saved, only its papers without a DOI count as new. */
  lemma NewAfterSave(store: Store, ps: seq<Paper>)
    ensures Filter(IsNew(SavePapers(store, ps)), ps) == Filter(HasNoDoi, ps)
  {
    var after := SavePapers(store, ps);
    SavePapersKeys(store, ps);
    forall i | 0 <= i < |ps| ensures IsNew(after)(ps[i]) == HasNoDoi(ps[i]) {
      if ps[i].doi != "" {
        assert ps[i].doi in Dois(ps);
      }
    }
    FilterCongruent(IsNew(after), HasNoDoi, ps);
  }

  // ----- daily trends ------------------------------------------------------------------

  /** The stored count, 0 for an absent pair. */
  function CountOf(trends: Trends, key: (int, string)): nat
  {
    if key in trends then trends[key] else 0
  }

  /** `save_daily_trends`: `keywords` holds each trend's `keyword` value ("" when the key
      is missing); `date` is the given day, `today` the clock's. Every non-empty
      occurrence adds one to the pair's count, an absent pair starting from 0. */
  method SaveDailyTrends(trends: Trends, keywords: seq<string>, date: Option<int>, today: int)
    returns (r: Trends)
    ensures var day := date.GetOr(today);
      forall key :: key in r <==> key in trends || (key.0 == day && key.1 != "" && key.1 in keywords)
    ensures var day := date.GetOr(today);
      forall key :: key in r ==>
        r[key] == CountOf(trends, key) + (if key.0 == day && key.1 != "" then multiset(keywords)[key.1] else 0)
  {
    var day := date.GetOr(today);
    r := trends;
    var i := 0;
    while i < |keywords|
      invariant 0 <= i <= |keywords|
      invariant forall key :: key in r <==>
        key in trends || (key.0 == day && key.1 != "" && key.1 in keywords[..i])
      invariant forall key :: key in r ==>
        r[key] == CountOf(trends, key) + (if key.0 == day && key.1 != "" then multiset(keywords[..i])[key.1] else 0)
    {
      assert keywords[..i + 1] == keywords[..i] + [keywords[i]];
      var keyword := keywords[i];
      if keyword != "" {
        var count := if (day, keyword) in r then r[(day, keyword)] + 1 else 1;
        r := r[(day, keyword) := count];
      }
      i := i + 1;
    }
    assert keywords[..i] == keywords;
  }

  // ----- weekly trends -----------------------------------------------------------------

  /** One keyword's week: the seven days oldest first, the count of each, and the sum. */
  datatype WeekEntry = WeekEntry(keyword: string, counts: seq<nat>, total: nat, dates: seq<int>)

  /** The seven bucket days, `today - 6` through `today`. */
  function WeekDates(today: int): (r: seq<int>)
    ensures |r| == 7
    ensures forall i :: 0 <= i < 7 ==> r[i] == today - 6 + i
  {
    [today - 6, today - 5, today - 4, today - 3, today - 2, today - 1, today]
  }

  /** The keywords the query returns: those with a row in the eight days `today - 7`
      through `today`. */
  function WindowKeywords(trends: Trends, today: int): set<string>
  {
    set key | key in trends && today - 7 <= key.0 <= today :: key.1
  }

  /** The query reaches one day further back than the buckets: a keyword recorded only on
      `today - 7` is listed, with all counts zero. */
  lemma StaleKeywordListed(trends: Trends, today: int, keyword: string)
    requires (today - 7, keyword) in trends
    requires forall d :: today - 6 <= d <= today ==> (d, keyword) !in trends
    ensures keyword in WindowKeywords(trends, today)
    ensures var e := EntryOf(trends, today, keyword);
      e.total == 0 && forall i :: 0 <= i < 7 ==> e.counts[i] == 0
  {
    var e := EntryOf(trends, today, keyword);
    SumZero(e.counts);
  }

  /** A keyword's entry, zero-filled for the days without a row. */
  function EntryOf(trends: Trends, today: int, keyword: string): (r: WeekEntry)
    ensures r.keyword == keyword && r.dates == WeekDates(today) && |r.counts| == 7
    ensures forall i :: 0 <= i < 7 ==> r.counts[i] == CountOf(trends, (r.dates[i], keyword))
    ensures r.total == Sum(r.counts)
  {
    var dates := WeekDates(today);
    var counts := Map((d: int) => CountOf(trends, (d, keyword)), dates);
    WeekEntry(keyword, counts, Sum(counts), dates)
  }

  function EntryTotal(e: WeekEntry): real { e.total as real }

  function KeywordLess(a: WeekEntry, b: WeekEntry): bool { StrLess(a.keyword, b.keyword) }

  /** The week's keywords ascending, as `ORDER BY keyword` delivers them. */
  method AscendingKeywords(ks: set<string>) returns (asc: seq<string>)
    ensures Ascending(asc)
    ensures (set k | k in asc) == ks
    ensures |asc| == |ks|
  {
    asc := [];
    var remaining := ks;
    while remaining != {}
      invariant remaining <= ks
      invariant Ascending(asc)
      invariant (set k | k in asc) == ks - remaining
      invariant |asc| == |ks| - |remaining|
      decreases |remaining|
    {
      var k :| k in remaining;
      InsertAscElements(asc, k);
      asc := InsertAsc(asc, k);
      remaining := remaining - {k};
    }
  }

  /** Inserting a new keyword adds exactly that keyword. */
  lemma InsertAscElements(s: seq<string>, x: string)
    requires Ascending(s) && x !in s
    ensures (set k | k in InsertAsc(s, x)) == (set k | k in s) + {x}
  {
    var r := InsertAsc(s, x);
    forall y ensures y in r <==> y in s || y == x {
      assert (y in r) == (y in multiset(r)) && (y in s) == (y in multiset(s));
    }
  }

  function Keywords(es: seq<WeekEntry>): set<string>
  {
    set i | 0 <= i < |es| :: es[i].keyword
  }

  /** Reordering entries keeps their keywords. */
  lemma PermutationKeywords(a: seq<WeekEntry>, b: seq<WeekEntry>)
    requires multiset(a) == multiset(b)
    ensures Keywords(a) == Keywords(b)
  {
    forall i | 0 <= i < |a| ensures a[i].keyword in Keywords(b) {
      assert a[i] in multiset(b);
      var j :| 0 <= j < |b| && b[j] == a[i];
    }
    forall i | 0 <= i < |b| ensures b[i].keyword in Keywords(a) {
      assert b[i] in multiset(a);
      var j :| 0 <= j < |a| && a[j] == b[i];
    }
  }

  /** The stable sort by total leaves entries of equal total in their keyword order. */
  lemma TieInKeywordOrder(entries: seq<WeekEntry>, i: nat, j: nat)
    requires SortedBy(entries, KeywordLess)
    requires i < j < |SortDesc(entries, EntryTotal)|
    requires SortDesc(entries, EntryTotal)[i].total == SortDesc(entries, EntryTotal)[j].total
    ensures StrLess(SortDesc(entries, EntryTotal)[i].keyword, SortDesc(entries, EntryTotal)[j].keyword)
  {
    var r := SortDesc(entries, EntryTotal);
    var v := EntryTotal(r[i]);
    SortDescStable(entries, EntryTotal, v);
    FilterSortedBy(KeyIs(EntryTotal, v), entries, KeywordLess);
    OrderWithinFilter(KeyIs(EntryTotal, v), r, KeywordLess, i, j);
  }

  /** One entry per keyword, in the keywords' order. */
  function EntriesOf(trends: Trends, today: int, asc: seq<string>): (r: seq<WeekEntry>)
    ensures |r| == |asc|
    ensures forall i :: 0 <= i < |r| ==> r[i] == EntryOf(trends, today, asc[i])
  {
    Map((k: string) => EntryOf(trends, today, k), asc)
  }

  lemma EntriesOfAscending(trends: Trends, today: int, asc: seq<string>)
    requires Ascending(asc)
    ensures Keywords(EntriesOf(trends, today, asc)) == (set k | k in asc)
    ensures SortedBy(EntriesOf(trends, today, asc), KeywordLess)
  {
    var entries := EntriesOf(trends, today, asc);
    forall k | k in asc ensures k in Keywords(entries) {
      var a :| 0 <= a < |asc| && asc[a] == k;
      assert entries[a].keyword == k;
    }
  }

  /** Sorting the entries by total keeps each entry as it was built. */
  lemma SortKeepsEntries(trends: Trends, today: int, entries: seq<WeekEntry>, r: seq<WeekEntry>)
    requires forall i :: 0 <= i < |entries| ==> entries[i] == EntryOf(trends, today, entries[i].keyword)
    requires r == SortDesc(entries, EntryTotal)
    ensures forall i :: 0 <= i < |r| ==> r[i] == EntryOf(trends, today, r[i].keyword)
  {
    PermutationKeeps(entries, r, (e: WeekEntry) => e == EntryOf(trends, today, e.keyword));
  }

  /** After the sort a larger total comes first, and equal totals come in keyword order. */
  lemma SortOrdersWeek(entries: seq<WeekEntry>, r: seq<WeekEntry>)
    requires SortedBy(entries, KeywordLess)
    requires r == SortDesc(entries, EntryTotal)
    ensures forall i, j :: 0 <= i < j < |r| ==>
      r[i].total > r[j].total || (r[i].total == r[j].total && StrLess(r[i].keyword, r[j].keyword))
  {
    forall i, j | 0 <= i < j < |r|
      ensures r[i].total > r[j].total || (r[i].total == r[j].total && StrLess(r[i].keyword, r[j].keyword))
    {
      assert EntryTotal(r[i]) >= EntryTotal(r[j]);
      if r[i].total == r[j].total {
        TieInKeywordOrder(entries, i, j);
      }
    }
  }

  /** `get_weekly_trends`: one entry per keyword of the window, ordered by total
      descending; entries of equal total stay in keyword order, as the stable sort keeps
      the query's order. */
  method WeeklyTrends(trends: Trends, today: int) returns (r: seq<WeekEntry>)
    ensures forall i :: 0 <= i < |r| ==> r[i] == EntryOf(trends, today, r[i].keyword)
    ensures Keywords(r) == WindowKeywords(trends, today)
    ensures |r| == |WindowKeywords(trends, today)|
    ensures forall i, j :: 0 <= i < j < |r| ==>
      r[i].total > r[j].total || (r[i].total == r[j].total && StrLess(r[i].keyword, r[j].keyword))
  {
    var ks := WindowKeywords(trends, today);
    var asc := AscendingKeywords(ks);
    var entries := EntriesOf(trends, today, asc);
    EntriesOfAscending(trends, today, asc);
    r := SortDesc(entries, EntryTotal);
    PermutationKeywords(entries, r);
    SortKeepsEntries(trends, today, entries, r);
    SortOrdersWeek(entries, r);
  }
}
