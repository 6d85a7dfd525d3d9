/** The data `generate_report` hands to the e-mail template, and the e-mail subject. The
    HTML rendering itself is outside; today's date arrives already formatted. */
module Reporter {
  import opened Wrappers
  import opened Text
  import opened Seqs
  import opened Papers

  // ----- DOI links ---------------------------------------------------------------------

  /** A paper with a DOI and no link gets the DOI resolver's address as its link. */
  function FillDoiLink(p: Paper): (r: Paper)
    ensures p.doi != "" && p.link == "" ==> r == p.(link := "https://doi.org/" + p.doi)
    ensures !(p.doi != "" && p.link == "") ==> r == p
  {
    if p.doi != "" && p.link == "" then p.(link := "https://doi.org/" + p.doi) else p
  }

  /** Filling is idempotent: a filled paper has a link whenever it has a DOI. */
  lemma FillDoiLinkIdempotent(p: Paper)
    ensures FillDoiLink(FillDoiLink(p)) == FillDoiLink(p)
    ensures FillDoiLink(p).doi != "" ==> FillDoiLink(p).link != ""
  {
    assert |"https://doi.org/" + p.doi| > 0;
  }

  // ----- the overview ------------------------------------------------------------------

  /** What the AI result contributes: its `overview` and `field_analysis` values. */
  datatype AiResult = AiResult(overview: string, fieldAnalysis: map<string, string>)

  /** The overview without an AI result: the collected count, the number of fields and
      the number of selected papers. */
  function DefaultOverview(totalCollected: nat, featuredCount: nat, othersCount: nat): string
  {
    "오늘 총 " + NatToString(totalCollected) + "편의 논문에서 " + NatToString(featuredCount)
      + "개 분야, " + NatToString(featuredCount + othersCount) + "편의 관련 논문이 선별되었습니다."
  }

  /** The default overview opens with the collected count, which reads back exactly. */
  lemma DefaultOverviewStatesTotal(totalCollected: nat, featuredCount: nat, othersCount: nat)
    ensures var o := DefaultOverview(totalCollected, featuredCount, othersCount);
      var digits := NatToString(totalCollected);
      && |o| > 5 + |digits|
      && o[5..5 + |digits|] == digits
      && DecimalValue(o[5..5 + |digits|]) == totalCollected
  {
    var digits := NatToString(totalCollected);
    var o := DefaultOverview(totalCollected, featuredCount, othersCount);
    assert |"오늘 총 "| == 5;
    assert o == "오늘 총 " + digits + ("편의 논문에서 " + NatToString(featuredCount)
      + "개 분야, " + NatToString(featuredCount + othersCount) + "편의 관련 논문이 선별되었습니다.");
    NatToStringRoundTrip(totalCollected);
  }

  // ----- grouping the other papers -----------------------------------------------------

  function LabelIs(name: string): Paper -> bool
  {
    (p: Paper) => p.relevanceLabel == name
  }

  function GetOr<K, V>(m: map<K, V>, k: K, default: V): V
  {
    if k in m then m[k] else default
  }

  /** The grouping of `others` by label: a group per non-empty label, each holding that
      label's papers in order; the unlabelled papers apart, in order. */
  ghost predicate PartitionedBelow(others: seq<Paper>, n: nat, groups: map<string, seq<Paper>>, unclassified: seq<Paper>)
    requires n <= |others|
  {
    && unclassified == Filter(LabelIs(""), others[..n])
    && (forall name :: name in groups ==> name != "" && groups[name] == Filter(LabelIs(name), others[..n]))
    && (forall k :: 0 <= k < n && others[k].relevanceLabel != "" ==> others[k].relevanceLabel in groups)
  }

  /** The loop that fills `field_others` and `unclassified_others`. */
  method PartitionOthers(others: seq<Paper>) returns (groups: map<string, seq<Paper>>, unclassified: seq<Paper>)
    ensures unclassified == Filter(LabelIs(""), others)
    ensures forall name :: name in groups ==> name != "" && groups[name] == Filter(LabelIs(name), others)
    ensures forall k :: 0 <= k < |others| && others[k].relevanceLabel != "" ==> others[k].relevanceLabel in groups
    ensures forall name :: GetOr(groups, name, []) == (if name != "" then Filter(LabelIs(name), others) else [])
  {
    groups := map[];
    unclassified := [];
    var i := 0;
    while i < |others|
      invariant 0 <= i <= |others|
      invariant PartitionedBelow(others, i, groups, unclassified)
    {
      var p := others[i];
      PartitionStep(others, i, groups, unclassified);
      if p.relevanceLabel != "" {
        var prev := if p.relevanceLabel in groups then groups[p.relevanceLabel] else [];
        groups := groups[p.relevanceLabel := prev + [p]];
      } else {
        unclassified := unclassified + [p];
      }
      i := i + 1;
    }
    PartitionDone(others, groups, unclassified);
  }

  /** One more paper keeps the grouping right. */
  lemma PartitionStep(others: seq<Paper>, i: nat, groups: map<string, seq<Paper>>, unclassified: seq<Paper>)
    requires i < |others| && PartitionedBelow(others, i, groups, unclassified)
    ensures var p := others[i];
      if p.relevanceLabel != "" then
        PartitionedBelow(others, i + 1, groups[p.relevanceLabel := GetOr(groups, p.relevanceLabel, []) + [p]], unclassified)
      else PartitionedBelow(others, i + 1, groups, unclassified + [p])
  {
    var p := others[i];
    forall name ensures Filter(LabelIs(name), others[..i + 1]) ==
      Filter(LabelIs(name), others[..i]) + (if p.relevanceLabel == name then [p] else [])
    {
      FilterSnoc(LabelIs(name), others, i);
    }
    if p.relevanceLabel != "" {
      if p.relevanceLabel !in groups {
        FilterNone(LabelIs(p.relevanceLabel), others[..i]);
      }
      PartitionStepLabelled(others, i, groups, unclassified);
    }
  }

  lemma PartitionStepLabelled(others: seq<Paper>, i: nat, groups: map<string, seq<Paper>>, unclassified: seq<Paper>)
    requires i < |others| && PartitionedBelow(others, i, groups, unclassified)
    requires others[i].relevanceLabel != ""
    requires GetOr(groups, others[i].relevanceLabel, []) == Filter(LabelIs(others[i].relevanceLabel), others[..i])
    requires forall name :: (Filter(LabelIs(name), others[..i + 1]) ==
      Filter(LabelIs(name), others[..i]) + (if others[i].relevanceLabel == name then [others[i]] else []))
    ensures var p := others[i];
      PartitionedBelow(others, i + 1, groups[p.relevanceLabel := GetOr(groups, p.relevanceLabel, []) + [p]], unclassified)
  {
    var p := others[i];
    var g := groups[p.relevanceLabel := GetOr(groups, p.relevanceLabel, []) + [p]];
    assert Filter(LabelIs(""), others[..i + 1]) == Filter(LabelIs(""), others[..i]) + [];
    forall name | name in g ensures name != "" && g[name] == Filter(LabelIs(name), others[..i + 1]) {
      assert Filter(LabelIs(name), others[..i + 1]) ==
        Filter(LabelIs(name), others[..i]) + (if p.relevanceLabel == name then [p] else []);
      if name != p.relevanceLabel {
        assert g[name] == groups[name];
      }
    }
    forall k | 0 <= k < i + 1 && others[k].relevanceLabel != "" ensures others[k].relevanceLabel in g {
      if k < i {
        assert others[k].relevanceLabel in groups;
      }
    }
  }

  /** After the last paper the grouping answers every label. */
  lemma PartitionDone(others: seq<Paper>, groups: map<string, seq<Paper>>, unclassified: seq<Paper>)
    requires PartitionedBelow(others, |others|, groups, unclassified)
    ensures unclassified == Filter(LabelIs(""), others)
    ensures forall name :: name in groups ==> name != "" && groups[name] == Filter(LabelIs(name), others)
    ensures forall k :: 0 <= k < |others| && others[k].relevanceLabel != "" ==> others[k].relevanceLabel in groups
    ensures forall name :: GetOr(groups, name, []) == (if name != "" then Filter(LabelIs(name), others) else [])
  {
    assert others[..|others|] == others;
    forall name ensures GetOr(groups, name, []) == (if name != "" then Filter(LabelIs(name), others) else []) {
      if name != "" && name !in groups {
        FilterNone(LabelIs(name), others);
      }
    }
  }

  /** Every other paper lands in exactly one place: its label's group, or, without a label,
      the unclassified list, as often as it occurs. */
  lemma PartitionExactlyOnce(others: seq<Paper>, p: Paper)
    ensures multiset(Filter(LabelIs(p.relevanceLabel), others))[p] == multiset(others)[p]
    ensures forall name :: name != p.relevanceLabel ==> p !in Filter(LabelIs(name), others)
  {
    FilterMultiset(LabelIs(p.relevanceLabel), others, p);
    forall name | name != p.relevanceLabel ensures p !in Filter(LabelIs(name), others) {
      FilterMultiset(LabelIs(name), others, p);
      assert multiset(Filter(LabelIs(name), others))[p] == 0;
    }
  }

  // ----- the field sections ------------------------------------------------------------

  /** One field's section. */
  datatype Section = Section(field: string, count: int, analysis: string, featured: Paper, others: seq<Paper>)

  /** What the template receives. */
  datatype Report = Report(
    date: string,
    totalCollected: nat,
    sections: seq<Section>,
    unclassified: seq<Paper>,
    overview: string,
    aiSuccess: bool,
    featuredCount: nat,
    othersCount: nat)

  /** The section of one featured field: its count (1 when missing), its analysis ("" when
      missing), its paper with the link filled in, and its label's other papers. */
  function SectionOf(item: (string, Paper), fieldCounts: map<string, int>, analysis: map<string, string>,
                     filled: seq<Paper>): Section
  {
    var field := item.0;
    Section(field, GetOr(fieldCounts, field, 1), GetOr(analysis, field, ""), FillDoiLink(item.1),
            if field != "" then Filter(LabelIs(field), filled) else [])
  }

  ghost predicate SectionsBelow(sections: seq<Section>, featured: seq<(string, Paper)>, fieldCounts: map<string, int>,
                                analysis: map<string, string>, filled: seq<Paper>)
  {
    && |sections| <= |featured|
    && forall m :: 0 <= m < |sections| ==> sections[m] == SectionOf(featured[m], fieldCounts, analysis, filled)
  }

  /** The loop over the featured fields. `groups` answers for every label what
      `PartitionOthers` answers. */
  method BuildSections(featured: seq<(string, Paper)>, fieldCounts: map<string, int>, analysis: map<string, string>,
                       groups: map<string, seq<Paper>>, filled: seq<Paper>) returns (sections: seq<Section>)
    requires forall name :: GetOr(groups, name, []) == (if name != "" then Filter(LabelIs(name), filled) else [])
    ensures |sections| == |featured|
    ensures forall k :: 0 <= k < |featured| ==> sections[k] == SectionOf(featured[k], fieldCounts, analysis, filled)
  {
    sections := [];
    var k := 0;
    while k < |featured|
      invariant 0 <= k <= |featured|
      invariant |sections| == k
      invariant SectionsBelow(sections, featured, fieldCounts, analysis, filled)
    {
      var field := featured[k].0;
      var section := Section(field, GetOr(fieldCounts, field, 1), GetOr(analysis, field, ""),
                             FillDoiLink(featured[k].1), GetOr(groups, field, []));
      assert section == SectionOf(featured[k], fieldCounts, analysis, filled);
      sections := sections + [section];
      k := k + 1;
    }
  }

  /** `generate_report` up to rendering. `featured` lists the dictionary's items in order. */
  method GenerateReport(featured: seq<(string, Paper)>, others: seq<Paper>, fieldCounts: map<string, int>,
                        totalCollected: nat, ai: Option<AiResult>, today: string) returns (r: Report)
    ensures |r.sections| == |featured|
    ensures forall k :: 0 <= k < |featured| ==>
      r.sections[k] == SectionOf(featured[k], fieldCounts,
        if ai.Some? then ai.value.fieldAnalysis else map[], Map(FillDoiLink, others))
    ensures r.unclassified == Filter(LabelIs(""), Map(FillDoiLink, others))
    ensures r.overview == (if ai.Some? then ai.value.overview else DefaultOverview(totalCollected, |featured|, |others|))
    ensures r.aiSuccess == ai.Some? && r.featuredCount == |featured| && r.othersCount == |others|
    ensures r.date == today && r.totalCollected == totalCollected
  {
    var filled := Map(FillDoiLink, others);
    var overview := if ai.Some? then ai.value.overview else DefaultOverview(totalCollected, |featured|, |others|);
    var analysis: map<string, string> := if ai.Some? then ai.value.fieldAnalysis else map[];
    var groups, unclassified := PartitionOthers(filled);
    var sections := BuildSections(featured, fieldCounts, analysis, groups, filled);
    r := Report(today, totalCollected, sections, unclassified, overview, ai.Some?, |featured|, |others|);
  }

  /** An other paper whose label is not one of the featured fields is in no section and
      not among the unclassified papers: the report drops it. */
  lemma UnfeaturedLabelDropped(featured: seq<(string, Paper)>, filled: seq<Paper>, p: Paper)
    requires p.relevanceLabel != ""
    requires forall k :: 0 <= k < |featured| ==> featured[k].0 != p.relevanceLabel
    ensures forall k :: 0 <= k < |featured| ==>
      p !in (if featured[k].0 != "" then Filter(LabelIs(featured[k].0), filled) else [])
    ensures p !in Filter(LabelIs(""), filled)
  {
    forall k | 0 <= k < |featured|
      ensures p !in (if featured[k].0 != "" then Filter(LabelIs(featured[k].0), filled) else [])
    {
      PartitionExactlyOnce(filled, p);
    }
    PartitionExactlyOnce(filled, p);
  }

  // ----- the subject -------------------------------------------------------------------

  /** An `int` as an f-string renders it. */
  function IntToString(n: int): string
  {
    if n < 0 then "-" + NatToString(-n) else NatToString(n)
  }

  /** `get_email_subject`, with today's date given as text. */
  function EmailSubject(featuredCount: int, today: string): (r: string)
    ensures featuredCount == 0 ==> r == "[PPEL Digest] " + today + " | 오늘은 관련 논문이 없습니다"
    ensures featuredCount != 0 ==> r == "[PPEL Digest] " + today + " | " + IntToString(featuredCount) + "개 분야 주요 논문"
  {
    var head := "[PPEL Digest] " + today + " | ";
    if featuredCount == 0 then head + "오늘은 관련 논문이 없습니다"
    else head + IntToString(featuredCount) + "개 분야 주요 논문"
  }

  lemma NatToStringInjective(a: nat, b: nat)
    requires NatToString(a) == NatToString(b)
    ensures a == b
  {
    NatToStringRoundTrip(a);
    NatToStringRoundTrip(b);
  }

  /** An f-string of an `int` starts with '-' exactly when the number is negative. */
  lemma IntToStringInjective(n: int, m: int)
    requires IntToString(n) == IntToString(m)
    ensures n == m
  {
    if n < 0 && m < 0 {
      assert NatToString(-n) == IntToString(n)[1..];
      assert NatToString(-m) == IntToString(m)[1..];
      NatToStringInjective(-n, -m);
    } else if n >= 0 && m >= 0 {
      NatToStringInjective(n, m);
    }
  }

  /** What follows the date in the subject. */
  function SubjectTail(featuredCount: int): string
  {
    if featuredCount == 0 then "오늘은 관련 논문이 없습니다" else IntToString(featuredCount) + "개 분야 주요 논문"
  }

  /** Only the "no papers" tail opens with '오'; the others open with a digit or '-'. */
  lemma SubjectTailOpening(n: int)
    ensures SubjectTail(n) != [] && (SubjectTail(n)[0] == '오' <==> n == 0)
  {
    if n != 0 {
      assert SubjectTail(n)[0] == IntToString(n)[0];
      if n >= 0 {
        assert IsDigit(NatToString(n)[0]);
      }
    }
  }

  lemma SubjectTailInjective(n: int, m: int)
    requires SubjectTail(n) == SubjectTail(m)
    ensures n == m
  {
    SubjectTailOpening(n);
    SubjectTailOpening(m);
    var tail := "개 분야 주요 논문";
    if n != 0 && m != 0 {
      var a := IntToString(n);
      var b := IntToString(m);
      assert |a| == |b|;
      assert a == (a + tail)[..|a|];
      assert b == (b + tail)[..|b|];
      IntToStringInjective(n, m);
    }
  }

  /** Different counts give different subjects, and only a count of 0 gives the "no
      papers" subject. */
  lemma EmailSubjectInjective(n: int, m: int, today: string)
    requires EmailSubject(n, today) == EmailSubject(m, today)
    ensures n == m
  {
    var head := "[PPEL Digest] " + today + " | ";
    assert EmailSubject(n, today) == head + SubjectTail(n);
    assert EmailSubject(m, today) == head + SubjectTail(m);
    assert SubjectTail(n) == EmailSubject(n, today)[|head|..];
    assert SubjectTail(m) == EmailSubject(m, today)[|head|..];
    SubjectTailInjective(n, m);
  }
}
