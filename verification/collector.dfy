/** Feed-entry extraction: the DOI, abstract and author rules and the keep/skip rule
    applied to each RSS entry. The feed parser, the date parser and the CrossRef lookup
    are outside; their results arrive as fields of `FeedEntry` or as a parameter. */
module Collector {
  import opened Wrappers
  import opened Text
  import opened Seqs
  import opened Papers

  /** The keys of a parsed feed entry that the collector reads. A missing string key
      reads as "", as `entry.get(key, "")` gives. */
  datatype FeedEntry = FeedEntry(
    title: string,
    prismDoi: string,
    dcIdentifier: string,
    link: string,
    id: string,
    summary: string,
    description: string,
    /** The `value` of each item of a list-valued `content` key ("" when it has none). */
    content: seq<string>,
    /** The `name` of each item of the `authors` key, when the key is present. */
    authors: Option<seq<string>>,
    /** The `author` key, when present with a string value. */
    author: Option<string>,
    /** The `name` of the `author_detail` key ("" when it has none), when the key is present. */
    authorDetail: Option<string>,
    /** What the date parser made of the entry: seconds since the epoch, or nothing. */
    parsedDate: Option<int>)

  // ----- DOI -------------------------------------------------------------------------

  /** A character of the class `[^\s&?#]`. */
  predicate DoiChar(c: char)
  {
    !IsSpace(c) && c != '&' && c != '?' && c != '#'
  }

  /** The end of the run of digits that starts at `p`. */
  function DigitEnd(s: string, p: nat): (r: nat)
    requires p <= |s|
    ensures p <= r <= |s|
    ensures forall k :: p <= k < r ==> IsDigit(s[k])
    ensures r == |s| || !IsDigit(s[r])
    decreases |s| - p
  {
    if p < |s| && IsDigit(s[p]) then DigitEnd(s, p + 1) else p
  }

  /** The end of the run of `DoiChar`s that starts at `p`. */
  function DoiCharEnd(s: string, p: nat): (r: nat)
    requires p <= |s|
    ensures p <= r <= |s|
    ensures forall k :: p <= k < r ==> DoiChar(s[k])
    ensures r == |s| || !DoiChar(s[r])
    decreases |s| - p
  {
    if p < |s| && DoiChar(s[p]) then DoiCharEnd(s, p + 1) else p
  }

  /** The strings of the language `10\.\d{4,}/[^\s&?#]+`, with `\d` read as the ASCII digits. */
  ghost predicate IsDoiShaped(t: string)
  {
    && StartsWith(t, "10.")
    && exists j :: 7 <= j < |t| - 1 && t[j] == '/'
        && (forall k :: 3 <= k < j ==> IsDigit(t[k]))
        && (forall k :: j < k < |t| ==> DoiChar(t[k]))
  }

  /** Where the pattern, matched greedily at position `i`, ends. */
  function MatchAt(s: string, i: nat): Option<nat>
  {
    if i > |s| || !StartsWith(s[i..], "10.") then None
    else
      var j := DigitEnd(s, i + 3);
      if j - (i + 3) < 4 || j == |s| || s[j] != '/' then None
      else
        var k := DoiCharEnd(s, j + 1);
        if k == j + 1 then None else Some(k)
  }

  /** A match is a DOI-shaped substring that cannot be extended by another `DoiChar`. */
  lemma MatchAtSound(s: string, i: nat)
    requires i <= |s| && MatchAt(s, i).Some?
    ensures var k := MatchAt(s, i).value;
      i < k <= |s| && IsDoiShaped(s[i..k]) && (k == |s| || !DoiChar(s[k]))
  {
    var j := DigitEnd(s, i + 3);
    var k := MatchAt(s, i).value;
    assert s[i..][..3] == s[i..i + 3];
    ShapedSlice(s, i, j, k);
  }

  /** The runs `MatchAt` finds, read as a slice, make a DOI-shaped string. */
  lemma ShapedSlice(s: string, i: nat, j: nat, k: nat)
    requires i + 7 <= j && j + 1 < k <= |s|
    requires s[i..i + 3] == "10." && s[j] == '/'
    requires forall m :: i + 3 <= m < j ==> IsDigit(s[m])
    requires forall m :: j < m < k ==> DoiChar(s[m])
    ensures IsDoiShaped(s[i..k])
  {
    var t := s[i..k];
    assert t[..3] == s[i..i + 3];
    assert t[j - i] == s[j];
    forall m | 3 <= m < j - i ensures IsDigit(t[m]) {
      assert t[m] == s[i + m];
    }
    forall m | j - i < m < |t| ensures DoiChar(t[m]) {
      assert t[m] == s[i + m];
    }
  }

  /** Whenever a DOI-shaped substring starts at `i`, the pattern matches at `i`, and at
      least as far. */
  lemma MatchAtComplete(s: string, i: nat, e: nat)
    requires i <= e <= |s| && IsDoiShaped(s[i..e])
    ensures MatchAt(s, i).Some? && MatchAt(s, i).value >= e
  {
    var t := s[i..e];
    var j :| 7 <= j < |t| - 1 && t[j] == '/'
        && (forall k :: 3 <= k < j ==> IsDigit(t[k]))
        && (forall k :: j < k < |t| ==> DoiChar(t[k]));
    assert s[i..][..3] == t[..3];
    SliceRuns(s, i, e, j);
  }

  /** In the slice `s[i..e]` with the slash at `j`, the digit run after "10." ends at the
      slash and the run of `DoiChar`s after it reaches `e`. */
  lemma SliceRuns(s: string, i: nat, e: nat, j: nat)
    requires i <= e <= |s| && 3 <= j < e - i
    requires s[i..e][j] == '/'
    requires forall k :: 3 <= k < j ==> IsDigit(s[i..e][k])
    requires forall k :: j < k < e - i ==> DoiChar(s[i..e][k])
    ensures DigitEnd(s, i + 3) == i + j
    ensures DoiCharEnd(s, i + j + 1) >= e
  {
    var t := s[i..e];
    forall k | i + 3 <= k < i + j ensures IsDigit(s[k]) {
      assert s[k] == t[k - i];
    }
    assert s[i + j] == t[j];
    forall k | i + j < k < e ensures DoiChar(s[k]) {
      assert s[k] == t[k - i];
    }
  }

  /** `re.search`: the leftmost position at or after `from` where the pattern matches,
      with the end of the match. */
  function SearchDoi(s: string, from: nat): (r: Option<(nat, nat)>)
    requires from <= |s|
    ensures r.Some? ==> from <= r.value.0 <= |s| && MatchAt(s, r.value.0) == Some(r.value.1)
    ensures r.Some? ==> forall i :: from <= i < r.value.0 ==> MatchAt(s, i).None?
    ensures r.None? ==> forall i :: from <= i <= |s| ==> MatchAt(s, i).None?
  {
    var f := (i: nat) => MatchAt(s, i);
    assert forall i: nat :: f(i) == MatchAt(s, i);
    FirstSome(f, from, |s|)
  }

  /** The first position in `lo..hi` where `f` gives a value, with that value. */
  function FirstSome<T>(f: nat -> Option<T>, lo: nat, hi: nat): (r: Option<(nat, T)>)
    requires lo <= hi
    ensures r.Some? ==> lo <= r.value.0 <= hi && f(r.value.0) == Some(r.value.1)
    ensures r.Some? ==> forall i: nat :: lo <= i < r.value.0 ==> f(i).None?
    ensures r.None? ==> forall i: nat :: lo <= i <= hi ==> f(i).None?
    decreases hi - lo
  {
    match f(lo)
    case Some(k) => Some((lo, k))
    case None => if lo == hi then None else FirstSome(f, lo + 1, hi)
  }

  /** The matched text of `re.search(r"(10\.\d{4,}/[^\s&?#]+)", s)`, if any. */
  function FindDoi(s: string): (r: Option<string>)
    ensures r.Some? ==> IsDoiShaped(r.value)
  {
    match SearchDoi(s, 0)
    case Some((i, k)) =>
      MatchAtSound(s, i);
      Some(s[i..k])
    case None => None
  }

  /** No DOI-shaped substring starts before the leftmost match, and none at all when
      the search finds nothing: the search result is the regular expression's. */
  lemma FindDoiLeftmost(s: string, i: nat, e: nat)
    requires i <= e <= |s| && IsDoiShaped(s[i..e])
    ensures SearchDoi(s, 0).Some? && SearchDoi(s, 0).value.0 <= i
  {
    MatchAtComplete(s, i, e);
  }

  /** `_extract_doi`: a `prism_doi` (else `dc_identifier`) value starting with "10." as
      it is; otherwise the first match in `link` (or in `id` when `link` is empty), then in
      `id`; otherwise "". */
  function ExtractDoi(e: FeedEntry): (r: string)
    ensures var tagged := if e.prismDoi != "" then e.prismDoi else e.dcIdentifier;
      if tagged != "" && StartsWith(tagged, "10.") then r == tagged
      else r == "" || IsDoiShaped(r)
    ensures var tagged := if e.prismDoi != "" then e.prismDoi else e.dcIdentifier;
      var link := if e.link != "" then e.link else e.id;
      !(tagged != "" && StartsWith(tagged, "10.")) && FindDoi(link).Some? ==> r == FindDoi(link).value
    ensures var tagged := if e.prismDoi != "" then e.prismDoi else e.dcIdentifier;
      var link := if e.link != "" then e.link else e.id;
      !(tagged != "" && StartsWith(tagged, "10.")) && FindDoi(link).None? ==>
        r == (if FindDoi(e.id).Some? then FindDoi(e.id).value else "")
    ensures r == "" ==> FindDoi(e.id).None?
  {
    var tagged := if e.prismDoi != "" then e.prismDoi else e.dcIdentifier;
    if tagged != "" && StartsWith(tagged, "10.") then tagged
    else
      var link := if e.link != "" then e.link else e.id;
      match FindDoi(link)
      case Some(d) => d
      case None =>
        match FindDoi(e.id)
        case Some(d) => d
        case None => ""
  }

  // ----- abstract ----------------------------------------------------------------------

  /** The index of the first '>' at or after `p`, if any. */
  function FindClose(s: string, p: nat): (r: Option<nat>)
    requires p <= |s|
    ensures r.Some? ==>
      && p <= r.value < |s| && s[r.value] == '>'
      && forall k :: p <= k < r.value ==> s[k] != '>'
    ensures r.None? ==> forall k :: p <= k < |s| ==> s[k] != '>'
    decreases |s| - p
  {
    if p == |s| then None else if s[p] == '>' then Some(p) else FindClose(s, p + 1)
  }

  /** `re.sub(r"<[^>]+>", "", s)`: every leftmost `<`, at least one non-`>` character,
      then `>` is removed. */
  function StripTags(s: string): (r: string)
    ensures |r| <= |s|
    ensures '>' !in s ==> r == s
    decreases |s|
  {
    if s == [] then ""
    else if s[0] == '<' && |s| >= 2 && s[1] != '>' && FindClose(s, 1).Some? then
      StripTags(s[FindClose(s, 1).value + 1..])
    else [s[0]] + StripTags(s[1..])
  }

  /** The pattern `<[^>]+>` matches at position `i` of `s`. */
  ghost predicate TagAt(s: string, i: int)
  {
    0 <= i && i + 1 < |s| && s[i] == '<' && s[i + 1] != '>' && exists k :: i + 1 < k < |s| && s[k] == '>'
  }

  /** What tag stripping leaves holds no further tag, so stripping twice is stripping once. */
  lemma {:induction false} StripTagsLeavesNoTag(s: string)
    ensures forall i :: !TagAt(StripTags(s), i)
    decreases |s|
  {
    if s != [] {
      if s[0] == '<' && |s| >= 2 && s[1] != '>' && FindClose(s, 1).Some? {
        StripTagsLeavesNoTag(s[FindClose(s, 1).value + 1..]);
      } else {
        StripTagsLeavesNoTag(s[1..]);
        KeptHeadNoTag(s, StripTags(s[1..]));
      }
    }
  }

  /** A first character that starts no tag, kept in front of a stripped rest, starts none
      either: a kept '<' is followed by a kept '>' or by no '>' at all. */
  lemma KeptHeadNoTag(s: string, rest: string)
    requires s != [] && !(s[0] == '<' && |s| >= 2 && s[1] != '>' && FindClose(s, 1).Some?)
    requires rest == StripTags(s[1..])
    requires forall i :: !TagAt(rest, i)
    ensures forall i :: !TagAt([s[0]] + rest, i)
  {
    var r := [s[0]] + rest;
    forall i | 0 <= i ensures !TagAt(r, i) {
      if i > 0 {
        TagShift(s[0], rest, i);
      } else if s[0] != '<' || |s| < 2 {
      } else if s[1] == '>' {
        // The kept '<' is followed by the kept '>'.
        StripTagsHead(s[1..]);
        assert r[1] == '>';
      } else {
        // The kept '<' has no '>' anywhere after it.
        assert forall k :: 0 <= k < |s[1..]| ==> s[1..][k] != '>';
        StripTagsKeepsNoClose(s[1..]);
        assert forall k :: 1 < k < |r| ==> r[k] == rest[k - 1];
      }
    }
  }

  /** A tag one position into `[c] + rest` is a tag of `rest`, and back. */
  lemma TagShift(c: char, rest: string, i: int)
    requires i > 0
    ensures TagAt([c] + rest, i) <==> TagAt(rest, i - 1)
  {
    var r := [c] + rest;
    if TagAt(r, i) {
      var k :| i + 1 < k < |r| && r[k] == '>';
      assert rest[k - 1] == '>';
    }
    if TagAt(rest, i - 1) {
      var k :| i < k < |rest| && rest[k] == '>';
      assert r[k + 1] == '>';
    }
  }

  /** Without a '>' nothing is stripped. */
  lemma StripTagsKeepsNoClose(s: string)
    requires forall k :: 0 <= k < |s| ==> s[k] != '>'
    ensures StripTags(s) == s && '>' !in StripTags(s)
  {
  }

  /** A leading '>' survives stripping. */
  lemma StripTagsHead(s: string)
    requires s != [] && s[0] == '>'
    ensures StripTags(s) != [] && StripTags(s)[0] == '>'
  {
  }

  lemma StripTagsIdempotent(s: string)
    ensures StripTags(StripTags(s)) == StripTags(s)
  {
    StripTagsLeavesNoTag(s);
    StripTagsWithoutTags(StripTags(s));
  }

  /** Text holding no tag is left as it is. */
  lemma {:induction false} StripTagsWithoutTags(s: string)
    requires forall i :: !TagAt(s, i)
    ensures StripTags(s) == s
    decreases |s|
  {
    if s != [] {
      if s[0] == '<' && |s| >= 2 && s[1] != '>' && FindClose(s, 1).Some? {
        assert TagAt(s, 0);
        assert false;
      } else {
        forall i | true ensures !TagAt(s[1..], i) {
          if TagAt(s[1..], i) {
            var k :| i + 1 < k < |s[1..]| && s[1..][k] == '>';
            assert TagAt(s, i + 1);
          }
        }
        StripTagsWithoutTags(s[1..]);
      }
    }
  }

  /** Tags removed, then whitespace at either end. */
  function Clean(s: string): string
  {
    Trim(StripTags(s))
  }

  /** Longer than the 50 characters an abstract must exceed. */
  predicate LongEnough(t: string) { |t| > 50 }

  /** The index of the first text, at or after `from`, that is long enough. */
  function FirstLong(texts: seq<string>, from: nat): (r: Option<nat>)
    requires from <= |texts|
    ensures r.Some? ==> from <= r.value < |texts| && LongEnough(texts[r.value])
    ensures r.Some? ==> forall j :: from <= j < r.value ==> !LongEnough(texts[j])
    ensures r.None? ==> forall j :: from <= j < |texts| ==> !LongEnough(texts[j])
    decreases |texts| - from
  {
    if from == |texts| then None
    else if LongEnough(texts[from]) then Some(from)
    else FirstLong(texts, from + 1)
  }

  /** The fields `_extract_abstract` tries, in order (summary, description, then each
      content value), each with its tags stripped and its ends trimmed. */
  function Candidates(e: FeedEntry): seq<string>
  {
    [Clean(e.summary), Clean(e.description)] + Map(Clean, e.content)
  }

  /** `_extract_abstract`, trying the fields in the source's order. The abstract is one of
      the cleaned candidates, and it is long exactly when some candidate is. */
  function ExtractAbstract(e: FeedEntry): (r: string)
    ensures r in Candidates(e)
    ensures LongEnough(r) <==> exists i :: 0 <= i < |Candidates(e)| && LongEnough(Candidates(e)[i])
  {
    var abstr := if e.summary != "" then Clean(e.summary) else e.summary;
    var desc := if e.description != "" then Clean(e.description) else e.description;
    CleanEmpty();
    ChooseAbstractCandidate(abstr, desc, Map(Clean, e.content));
    ChooseAbstract(abstr, desc, Map(Clean, e.content))
  }

  /** The choice among the cleaned summary, description and content values. */
  function ChooseAbstract(abstr: string, desc: string, texts: seq<string>): string
  {
    if LongEnough(abstr) then abstr
    else if LongEnough(desc) then desc
    else
      match FirstLong(texts, 0)
      case Some(i) => texts[i]
      case None => if abstr != "" then abstr else if desc != "" then desc else ""
  }

  /** The choice is the first long candidate; failing that, the summary if non-empty,
      else the description. */
  lemma ChooseAbstractFirstLong(abstr: string, desc: string, texts: seq<string>)
    ensures var c := [abstr, desc] + texts;
      var i := FirstLong(c, 0);
      && (i.Some? ==> ChooseAbstract(abstr, desc, texts) == c[i.value])
      && (i.None? ==> ChooseAbstract(abstr, desc, texts) == (if abstr != "" then abstr else desc))
  {
    var front := [abstr, desc];
    var c := front + texts;
    FirstLongBehind(front, texts, 0);
    if !LongEnough(abstr) && !LongEnough(desc) {
      assert FirstLong(c, 0) == FirstLong(c, 2);
      if FirstLong(texts, 0).Some? {
        var i := FirstLong(texts, 0).value;
        assert c[i + 2] == texts[i];
      }
    }
  }

  /** The choice is one of the candidates, and a long one whenever some candidate is. */
  lemma ChooseAbstractCandidate(abstr: string, desc: string, texts: seq<string>)
    ensures var c := [abstr, desc] + texts;
      var r := ChooseAbstract(abstr, desc, texts);
      && r in c
      && (LongEnough(r) <==> exists i :: 0 <= i < |c| && LongEnough(c[i]))
  {
    var c := [abstr, desc] + texts;
    var r := ChooseAbstract(abstr, desc, texts);
    ChooseAbstractFirstLong(abstr, desc, texts);
    var first := FirstLong(c, 0);
    if first.Some? {
      assert r == c[first.value];
    } else {
      assert r == c[0] || r == c[1];
    }
  }

  lemma CleanEmpty()
    ensures Clean("") == ""
  {
  }

  function Shift(r: Option<nat>, d: nat): Option<nat>
  {
    if r.Some? then Some(r.value + d) else None
  }

  /** Searching behind a prefix finds what searching the rest finds, moved by the prefix. */
  lemma {:induction false} FirstLongBehind(p: seq<string>, t: seq<string>, k: nat)
    requires k <= |t|
    ensures FirstLong(p + t, |p| + k) == Shift(FirstLong(t, k), |p|)
    decreases |t| - k
  {
    assert forall j :: 0 <= j < |t| ==> (p + t)[|p| + j] == t[j];
    if k < |t| {
      FirstLongBehind(p, t, k + 1);
    }
  }

  /** The abstract is the first candidate longer than 50 characters; failing that, the
      cleaned summary if non-empty, else the cleaned description (never a content value). */
  lemma ExtractAbstractFirstLong(e: FeedEntry)
    ensures var i := FirstLong(Candidates(e), 0);
      i.Some? ==> ExtractAbstract(e) == Candidates(e)[i.value]
    ensures FirstLong(Candidates(e), 0).None? ==>
      ExtractAbstract(e) == (if Clean(e.summary) != "" then Clean(e.summary) else Clean(e.description))
  {
    CleanEmpty();
    ChooseAbstractFirstLong(Clean(e.summary), Clean(e.description), Map(Clean, e.content));
  }

  // ----- authors -----------------------------------------------------------------------

  predicate NonEmpty(s: string) { s != "" }

  /** `_extract_authors`: the first rule that yields a name list wins. */
  function ExtractAuthors(e: FeedEntry): (r: seq<string>)
    ensures e.authors.Some? && Filter(NonEmpty, e.authors.value) != [] ==>
      r == Filter(NonEmpty, e.authors.value)
    ensures (e.authors.None? || Filter(NonEmpty, e.authors.value) == []) && e.author.Some? ==>
      r == Map(Trim, Split(e.author.value, ','))
    ensures (e.authors.None? || Filter(NonEmpty, e.authors.value) == []) && e.author.None? ==>
      r == (if e.authorDetail.Some? && e.authorDetail.value != "" then [e.authorDetail.value] else [])
  {
    var listed := if e.authors.Some? then Filter(NonEmpty, e.authors.value) else [];
    if listed != [] then listed
    else if e.author.Some? then Map(Trim, Split(e.author.value, ','))
    else if e.authorDetail.Some? && e.authorDetail.value != "" then [e.authorDetail.value]
    else []
  }

  /** From an `author` string the names are its comma-separated pieces, stripped: at least
      one (so the `author_detail` rule is never reached), none holding a comma or
      surrounding whitespace, as many as the string has commas plus one. */
  lemma AuthorStringNames(e: FeedEntry)
    requires (e.authors.None? || Filter(NonEmpty, e.authors.value) == []) && e.author.Some?
    ensures var r := ExtractAuthors(e);
      && |r| == |Split(e.author.value, ',')| >= 1
      && forall i :: 0 <= i < |r| ==> ',' !in r[i] && r[i] == Trim(r[i])
  {
    var pieces := Split(e.author.value, ',');
    var r := ExtractAuthors(e);
    forall i | 0 <= i < |r| ensures ',' !in r[i] && r[i] == Trim(r[i]) {
      TrimIsSlice(pieces[i]);
      TrimTwice(pieces[i]);
    }
  }

  lemma TrimIsSlice(s: string)
    ensures forall c :: c in Trim(s) ==> c in s
  {
    TrimIsStrip(s);
  }

  // ----- keep/skip rule and the collected paper ------------------------------------------

  /** The configured window (`analysis.time_window_hours`), 48 hours when absent. */
  function WindowHours(configured: Option<int>): int
  {
    configured.GetOr(48)
  }

  /** An entry is kept unless it is older than the window or has a blank title. A missing
      date counts as `now`. */
  predicate Keep(e: FeedEntry, now: int, windowHours: int)
  {
    var published := e.parsedDate.GetOr(now);
    !(published < now - windowHours * 3600) && Trim(e.title) != ""
  }

  /** A paper as the collector produces it for `journal`: defaults in the derived fields,
      a non-blank title, a date inside the window. */
  predicate Collected(p: Paper, journal: string, now: int, windowHours: int)
  {
    HasDefaults(p) && p.journal == journal && p.title != "" && p.publishedDate >= now - windowHours * 3600
  }

  /** The paper built from one kept entry; `crossref` stands for the CrossRef lookup used
      when the feed gives no abstract. */
  function CollectEntry(e: FeedEntry, journal: string, now: int, windowHours: int,
                        crossref: string -> string): (r: Option<Paper>)
    ensures r.Some? <==> Keep(e, now, windowHours)
    ensures r.Some? ==> Collected(r.value, journal, now, windowHours)
  {
    var published := e.parsedDate.GetOr(now);
    if published < now - windowHours * 3600 then None
    else
      var title := Trim(e.title);
      if title == "" then None
      else
        var doi := ExtractDoi(e);
        Some(NewPaper(title, FeedOrCrossRef(ExtractAbstract(e), doi, crossref), doi,
                      ExtractAuthors(e), journal, published, e.link))
  }

  /** The feed's abstract, or CrossRef's when the feed has none and a DOI is known. */
  function FeedOrCrossRef(abstr: string, doi: string, crossref: string -> string): (r: string)
    ensures abstr != "" ==> r == abstr
    ensures r == "" <==> abstr == "" && (doi == "" || crossref(doi) == "")
  {
    if abstr == "" && doi != "" then crossref(doi) else abstr
  }

  /** What a kept entry's paper holds: a non-empty title that is already stripped, a DOI
      that is empty or starts with "10.", the feed's abstract whenever it has one, and an
      empty abstract only when neither the feed nor CrossRef gave one. */
  lemma CollectEntryFields(e: FeedEntry, journal: string, now: int, windowHours: int,
                           crossref: string -> string)
    requires Keep(e, now, windowHours)
    ensures var p := CollectEntry(e, journal, now, windowHours, crossref).value;
      && p.title != "" && Trim(p.title) == p.title
      && (p.doi == "" || StartsWith(p.doi, "10."))
      && (ExtractAbstract(e) != "" ==> p.abstractText == ExtractAbstract(e))
      && (p.abstractText == "" <==> ExtractAbstract(e) == "" && (p.doi == "" || crossref(p.doi) == ""))
  {
    CollectEntryValue(e, journal, now, windowHours, crossref);
    ExtractDoiPrefix(e);
    TrimTwice(e.title);
  }

  /** The paper a kept entry becomes. */
  lemma CollectEntryValue(e: FeedEntry, journal: string, now: int, windowHours: int,
                          crossref: string -> string)
    requires Keep(e, now, windowHours)
    ensures CollectEntry(e, journal, now, windowHours, crossref)
      == Some(NewPaper(Trim(e.title), FeedOrCrossRef(ExtractAbstract(e), ExtractDoi(e), crossref),
                       ExtractDoi(e), ExtractAuthors(e), journal, e.parsedDate.GetOr(now), e.link))
  {
  }

  /** An extracted DOI is empty or starts with "10.". */
  lemma ExtractDoiPrefix(e: FeedEntry)
    ensures ExtractDoi(e) == "" || StartsWith(ExtractDoi(e), "10.")
  {
  }

  /** The papers of one journal's feed, in feed order. */
  function CollectFeed(entries: seq<FeedEntry>, journal: string, now: int, windowHours: int,
                       crossref: string -> string): (r: seq<Paper>)
    ensures |r| <= |entries|
    ensures forall i :: 0 <= i < |r| ==> Collected(r[i], journal, now, windowHours)
    decreases |entries|
  {
    if entries == [] then []
    else
      var head := CollectEntry(entries[0], journal, now, windowHours, crossref);
      var tail := CollectFeed(entries[1..], journal, now, windowHours, crossref);
      if head.Some? then
        ConsAll((p: Paper) => Collected(p, journal, now, windowHours), head.value, tail);
        [head.value] + tail
      else tail
  }

  /** Exactly the kept entries become papers. */
  lemma {:induction false} CollectFeedCount(entries: seq<FeedEntry>, journal: string, now: int,
                                            windowHours: int, crossref: string -> string)
    ensures |CollectFeed(entries, journal, now, windowHours, crossref)|
      == Count((e: FeedEntry) => Keep(e, now, windowHours), entries)
    decreases |entries|
  {
    if entries != [] {
      CollectFeedCount(entries[1..], journal, now, windowHours, crossref);
    }
  }

  datatype Journal = Journal(name: string, entries: seq<FeedEntry>)

  /** `collect_papers`: every journal's papers, journal after journal. */
  function CollectPapers(journals: seq<Journal>, now: int, configuredWindow: Option<int>,
                         crossref: string -> string): (r: seq<Paper>)
    ensures forall i :: 0 <= i < |r| ==>
      && HasDefaults(r[i]) && r[i].title != ""
      && r[i].publishedDate >= now - WindowHours(configuredWindow) * 3600
    decreases |journals|
  {
    if journals == [] then []
    else
      var w := WindowHours(configuredWindow);
      var head := CollectFeed(journals[0].entries, journals[0].name, now, w, crossref);
      var tail := CollectPapers(journals[1..], now, configuredWindow, crossref);
      var P := (p: Paper) => HasDefaults(p) && p.title != "" && p.publishedDate >= now - w * 3600;
      assert forall i :: 0 <= i < |head| ==> P(head[i]);
      AppendAll(P, head, tail);
      head + tail
  }
}
