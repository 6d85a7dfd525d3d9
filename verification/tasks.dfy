/** The daily task report of the lab website's task recommender: the tasks the checks
    push, grouped by priority into a Markdown report, and the rule that turns image sizes
    into the image-optimisation tasks. Scanning the file system and the HTML is outside;
    the checks' findings arrive as data. */
module TaskRecommender {
  import opened Wrappers
  import opened Seqs
  import opened Text

  /** A recommended task. `files` is absent for most tasks; JavaScript treats any array,
      even an empty one, as present. */
  datatype Task = Task(priority: string, category: string, title: string, description: string,
                       files: Option<seq<string>>, effort: string)

  // ----- one task ----------------------------------------------------------------------

  /** The effort column: "low" and "medium" have their own labels, anything else is high. */
  function EffortLabel(effort: string): (r: string)
    ensures effort == "low" <==> r == "낮음 ⭐"
    ensures effort == "medium" <==> r == "중간 ⭐⭐"
    ensures effort != "low" && effort != "medium" <==> r == "높음 ⭐⭐⭐"
  {
    if effort == "low" then "낮음 ⭐" else if effort == "medium" then "중간 ⭐⭐" else "높음 ⭐⭐⭐"
  }

  function FilesLine(files: Option<seq<string>>): string
  {
    match files
    case None => ""
    case Some(names) => "- **관련 파일:** " + Join(", ", names) + "\n"
  }

  /** No line break in a task's text fields or file names. */
  predicate SingleLines(t: Task)
  {
    && '\n' !in t.title && '\n' !in t.category && '\n' !in t.description
    && (t.files.Some? ==> forall i :: 0 <= i < |t.files.value| ==> '\n' !in t.files.value[i])
  }

  /** The lines a task's block shows: heading, category, description, effort, and the
      files when there are any. */
  function TaskLines(t: Task): seq<string>
  {
    ["### " + t.title, "- **카테고리:** " + t.category, "- **설명:** " + t.description,
     "- **예상 노력:** " + EffortLabel(t.effort)]
      + (if t.files.Some? then ["- **관련 파일:** " + Join(", ", t.files.value)] else [])
  }

  /** `formatTask`. Read back line by line, the block is the task's lines and a blank
      line: five line breaks, six with files. */
  function FormatTask(t: Task): (r: string)
    ensures SingleLines(t) ==> Split(r, '\n') == TaskLines(t) + ["", ""]
  {
    var r := "### " + t.title + "\n"
      + "- **카테고리:** " + t.category + "\n"
      + "- **설명:** " + t.description + "\n"
      + "- **예상 노력:** " + EffortLabel(t.effort) + "\n"
      + FilesLine(t.files)
      + "\n";
    if SingleLines(t) then FormatTaskSplit(t, r); r else r
  }

  /** The proof of `FormatTask`'s line structure: the four fixed lines, then the files
      line if any, then the blank line. */
  lemma FormatTaskSplit(t: Task, r: string)
    requires SingleLines(t)
    requires r == "### " + t.title + "\n"
      + "- **카테고리:** " + t.category + "\n"
      + "- **설명:** " + t.description + "\n"
      + "- **예상 노력:** " + EffortLabel(t.effort) + "\n"
      + FilesLine(t.files)
      + "\n"
    ensures Split(r, '\n') == TaskLines(t) + ["", ""]
  {
    var head := "### " + t.title + "\n"
      + "- **카테고리:** " + t.category + "\n"
      + "- **설명:** " + t.description + "\n"
      + "- **예상 노력:** " + EffortLabel(t.effort);
    FixedLines(t);
    var ls := TaskLines(t);
    assert r == head + "\n" + FilesLine(t.files) + "\n";
    if t.files.Some? {
      var caption := "- **관련 파일:** ";
      var joined := Join(", ", t.files.value);
      JoinNoChar(", ", t.files.value, '\n');
      LastLines(head, caption, joined);
      assert ls == ls[..4] + [caption + joined];
    } else {
      assert head + "\n" + "" == head + "\n";
      SplitAtSep(head, "\n", '\n');
      SplitAtSep("", "", '\n');
      assert ls == ls[..4];
    }
  }

  /** The four fixed lines of a task's block. */
  lemma FixedLines(t: Task)
    requires SingleLines(t)
    ensures Split("### " + t.title + "\n"
      + "- **카테고리:** " + t.category + "\n"
      + "- **설명:** " + t.description + "\n"
      + "- **예상 노력:** " + EffortLabel(t.effort), '\n') == TaskLines(t)[..4]
  {
    var a1 := "### " + t.title;
    SplitNoSep(a1, '\n');
    var a2 := a1 + "\n" + "- **카테고리:** " + t.category;
    AddLine(a1, "- **카테고리:** ", t.category);
    var a3 := a2 + "\n" + "- **설명:** " + t.description;
    AddLine(a2, "- **설명:** ", t.description);
    assert '\n' !in EffortLabel(t.effort);
    AddLine(a3, "- **예상 노력:** ", EffortLabel(t.effort));
  }

  /** A files line and the blank line after the fixed lines. */
  lemma LastLines(head: string, caption: string, joined: string)
    requires '\n' !in caption && '\n' !in joined
    ensures Split(head + "\n" + (caption + joined + "\n") + "\n", '\n')
      == Split(head, '\n') + [caption + joined, "", ""]
  {
    var a5 := head + "\n" + caption + joined;
    AddLine(head, caption, joined);
    assert head + "\n" + (caption + joined + "\n") + "\n" == a5 + ['\n'] + "\n";
    SplitAtSep(a5, "\n", '\n');
    SplitAtSep("", "", '\n');
  }

  /** A line made of a label and a field, added after a line break. */
  lemma AddLine(acc: string, caption: string, field: string)
    requires '\n' !in caption && '\n' !in field
    ensures Split(acc + "\n" + caption + field, '\n') == Split(acc, '\n') + [caption + field]
  {
    assert acc + "\n" + caption + field == acc + ['\n'] + (caption + field);
    SplitAtSep(acc, caption + field, '\n');
    SplitNoSep(caption + field, '\n');
  }

  // ----- the report --------------------------------------------------------------------

  predicate KnownPriority(p: string)
  {
    p == "high" || p == "medium" || p == "low"
  }

  function PriorityIs(p: string): Task -> bool
  {
    (t: Task) => t.priority == p
  }

  /** The heading text of each priority's section. */
  function SectionTitle(p: string): string
  {
    if p == "high" then "🔴 높은 우선순위" else if p == "medium" then "🟡 중간 우선순위" else "🟢 낮은 우선순위"
  }

  /** One priority section: its priority and its tasks, in the order they were pushed. */
  datatype Section = Section(priority: string, tasks: seq<Task>)

  /** The section of priority `p`, or none when no task has it. */
  function SectionFor(p: string, tasks: seq<Task>): (r: seq<Section>)
    ensures |r| <= 1
    ensures r == [] <==> Filter(PriorityIs(p), tasks) == []
    ensures r != [] ==> r[0] == Section(p, Filter(PriorityIs(p), tasks))
  {
    var group := Filter(PriorityIs(p), tasks);
    if group == [] then [] else [Section(p, group)]
  }

  /** The sections of the report: high, medium, low, each only when not empty. */
  function Sections(tasks: seq<Task>): seq<Section>
  {
    SectionFor("high", tasks) + SectionFor("medium", tasks) + SectionFor("low", tasks)
  }

  /** Sections come in the order high, medium, low, none is empty, and each holds exactly
      its priority's tasks in the order they were pushed. */
  lemma SectionsOrdered(tasks: seq<Task>)
    ensures var s := Sections(tasks);
      && |s| <= 3
      && (forall i :: 0 <= i < |s| ==> KnownPriority(s[i].priority))
      && (forall i :: 0 <= i < |s| ==> s[i].tasks != [] && s[i].tasks == Filter(PriorityIs(s[i].priority), tasks))
      && (forall i, j :: 0 <= i < j < |s| ==> PriorityRank(s[i].priority) < PriorityRank(s[j].priority))
  {
    var s := Sections(tasks);
    SectionsAt(tasks);
    forall i | 0 <= i < |s| ensures s[i] == Section(s[i].priority, Filter(PriorityIs(s[i].priority), tasks)) {
    }
  }

  /** Every priority some task has gets a section. */
  lemma SectionsComplete(tasks: seq<Task>)
    ensures var s := Sections(tasks);
      forall p :: KnownPriority(p) && Filter(PriorityIs(p), tasks) != [] ==>
        exists i :: 0 <= i < |s| && s[i].priority == p
  {
    var a := SectionFor("high", tasks);
    var b := SectionFor("medium", tasks);
    var s := Sections(tasks);
    SectionsAt(tasks);
    forall p | KnownPriority(p) && Filter(PriorityIs(p), tasks) != []
      ensures exists i :: 0 <= i < |s| && s[i].priority == p
    {
      if p == "high" {
        assert s[0].priority == p;
      } else if p == "medium" {
        assert s[|a|].priority == p;
      } else {
        assert s[|a| + |b|].priority == p;
      }
    }
  }

  /** Position by position, the sections are the high one (if any), the medium one (if
      any), then the low one (if any). */
  lemma SectionsAt(tasks: seq<Task>)
    ensures var a := SectionFor("high", tasks);
      var b := SectionFor("medium", tasks);
      var s := Sections(tasks);
      && |s| == |a| + |b| + |SectionFor("low", tasks)| <= 3
      && forall i :: 0 <= i < |s| ==>
        s[i].priority == (if i < |a| then "high" else if i < |a| + |b| then "medium" else "low")
        && s[i].tasks == Filter(PriorityIs(s[i].priority), tasks) && s[i].tasks != []
  {
    var a := SectionFor("high", tasks);
    var b := SectionFor("medium", tasks);
    var c := SectionFor("low", tasks);
    ThreeAtMostOne(a, b, c);
  }

  lemma ThreeAtMostOne<T>(a: seq<T>, b: seq<T>, c: seq<T>)
    requires |a| <= 1 && |b| <= 1 && |c| <= 1
    ensures forall i :: 0 <= i < |a + b + c| ==>
      (a + b + c)[i] == (if i < |a| then a[0] else if i < |a| + |b| then b[0] else c[0])
  {
  }

  function PriorityRank(p: string): int
  {
    if p == "high" then 0 else if p == "medium" then 1 else 2
  }

  /** The tasks in the order the report lists them. */
  function Listed(sections: seq<Section>): seq<Task>
  {
    if sections == [] then [] else sections[0].tasks + Listed(sections[1..])
  }

  /** When every task has a known priority (every check pushes "high", "medium" or "low")
      the report lists each task exactly as often as it was pushed. */
  lemma EachTaskListedOnce(tasks: seq<Task>)
    requires forall i :: 0 <= i < |tasks| ==> KnownPriority(tasks[i].priority)
    ensures multiset(Listed(Sections(tasks))) == multiset(tasks)
  {
    var h := Filter(PriorityIs("high"), tasks);
    var m := Filter(PriorityIs("medium"), tasks);
    var l := Filter(PriorityIs("low"), tasks);
    ListedSections(tasks);
    forall x ensures multiset(h)[x] + multiset(m)[x] + multiset(l)[x] == multiset(tasks)[x] {
      ListedCount(tasks, x);
    }
    ThreePartsMultiset(h, m, l, tasks);
  }

  /** Three parts that together hold each element as often as `s` make up `s`. */
  lemma ThreePartsMultiset<T>(a: seq<T>, b: seq<T>, c: seq<T>, s: seq<T>)
    requires forall x :: multiset(a)[x] + multiset(b)[x] + multiset(c)[x] == multiset(s)[x]
    ensures multiset(a + b + c) == multiset(s)
  {
    assert multiset(a + b + c) == multiset(a) + multiset(b) + multiset(c);
  }

  /** An element occurs in the three groups together as often as in the tasks. */
  lemma ListedCount(tasks: seq<Task>, x: Task)
    requires forall i :: 0 <= i < |tasks| ==> KnownPriority(tasks[i].priority)
    ensures multiset(Filter(PriorityIs("high"), tasks))[x] + multiset(Filter(PriorityIs("medium"), tasks))[x]
      + multiset(Filter(PriorityIs("low"), tasks))[x] == multiset(tasks)[x]
  {
    FilterMultiset(PriorityIs("high"), tasks, x);
    FilterMultiset(PriorityIs("medium"), tasks, x);
    FilterMultiset(PriorityIs("low"), tasks, x);
    if x in tasks {
      var i :| 0 <= i < |tasks| && tasks[i] == x;
      assert KnownPriority(x.priority);
    }
  }

  /** Leaving out an empty section changes nothing in the listing. */
  lemma ListedSections(tasks: seq<Task>)
    ensures Listed(Sections(tasks))
      == Filter(PriorityIs("high"), tasks) + Filter(PriorityIs("medium"), tasks) + Filter(PriorityIs("low"), tasks)
  {
    var a := SectionFor("high", tasks);
    var b := SectionFor("medium", tasks);
    var c := SectionFor("low", tasks);
    ListedAppend(a, b + c);
    ListedAppend(b, c);
    assert a + b + c == a + (b + c);
    ListedOne(a);
    ListedOne(b);
    ListedOne(c);
  }

  lemma ListedOne(s: seq<Section>)
    requires |s| <= 1
    ensures Listed(s) == (if s == [] then [] else s[0].tasks)
  {
    if s != [] {
      assert s[1..] == [];
      assert Listed(s[1..]) == [];
    }
  }

  lemma {:induction false} ListedAppend(a: seq<Section>, b: seq<Section>)
    ensures Listed(a + b) == Listed(a) + Listed(b)
    decreases |a|
  {
    if a != [] {
      assert (a + b)[0] == a[0];
      assert (a + b)[1..] == a[1..] + b;
      ListedAppend(a[1..], b);
      assert Listed(a + b) == a[0].tasks + Listed(a[1..] + b);
    } else {
      assert a + b == b;
    }
  }

  /** One section as Markdown: heading with the task count, then each task. */
  function RenderSection(s: Section): string
  {
    "## " + SectionTitle(s.priority) + " (" + NatToString(|s.tasks|) + "개)\n\n" + RenderTasks(s.tasks)
  }

  function RenderTasks(tasks: seq<Task>): string
  {
    if tasks == [] then "" else FormatTask(tasks[0]) + RenderTasks(tasks[1..])
  }

  function RenderSections(sections: seq<Section>): string
  {
    if sections == [] then "" else RenderSection(sections[0]) + RenderSections(sections[1..])
  }

  /** The title and date lines, and the label of the count. */
  function PreambleHead(today: string): string
  {
    "# 📋 PPEL Lab 일일 할일 보고서\n\n" + "**날짜:** " + today + "\n" + "**총 추천 작업:** "
  }

  /** The lines above the sections: title, date and the number of tasks. */
  function Preamble(today: string, total: nat): string
  {
    PreambleHead(today) + (NatToString(total) + "개\n\n")
  }

  /** The rule lines around the sections, and the closing note. */
  function ReportBody(tasks: seq<Task>): string
  {
    "---\n\n" + RenderSections(Sections(tasks)) + "---\n\n" + "*이 보고서는 자동으로 생성되었습니다.*\n"
  }

  /** `generateReport`, with today's date (UTC, YYYY-MM-DD) given. The report opens with
      its title and date, and the total after them reads back as the number of tasks. */
  function GenerateReport(tasks: seq<Task>, today: string): (r: string)
    ensures OpensWithCount(r, today, |tasks|)
  {
    var body := ReportBody(tasks);
    PreambleReadsBack(today, |tasks|, body);
    Preamble(today, |tasks|) + body
  }

  /** `s` opens with the title and date lines for `today`, and the digits after them read
      back as `total`. */
  predicate OpensWithCount(s: string, today: string, total: nat)
  {
    var h := |PreambleHead(today)|;
    var digits := NatToString(total);
    && h + |digits| <= |s|
    && s[..h] == PreambleHead(today)
    && s[h..h + |digits|] == digits && DecimalValue(digits) == total
  }

  /** The head and the count of a preamble, with anything after it. */
  lemma PreambleReadsBack(today: string, total: nat, body: string)
    ensures OpensWithCount(Preamble(today, total) + body, today, total)
  {
    var head := PreambleHead(today);
    var digits := NatToString(total);
    var pre := Preamble(today, total);
    var s := pre + body;
    assert pre == head + (digits + "개\n\n");
    PrefixFields(head, digits, "개\n\n", body);
    assert s[..|head|] == pre[..|head|];
    assert s[|head|..|head| + |digits|] == pre[|head|..|head| + |digits|];
    NatToStringRoundTrip(total);
  }

  /** The preamble's count reads back as the number it was given. */
  lemma PreambleStatesTotal(today: string, total: nat)
    ensures |PreambleHead(today)| + |NatToString(total)| <= |Preamble(today, total)|
    ensures Preamble(today, total)[..|PreambleHead(today)|] == PreambleHead(today)
    ensures Preamble(today, total)[|PreambleHead(today)|..|PreambleHead(today)| + |NatToString(total)|]
      == NatToString(total)
    ensures DecimalValue(NatToString(total)) == total
  {
    var head := PreambleHead(today);
    var digits := NatToString(total);
    var tail := "개\n\n";
    assert Preamble(today, total) == head + (digits + tail);
    PrefixFields(head, digits, tail, []);
    NatToStringRoundTrip(total);
  }

  /** The report opens with its preamble, which counts all the tasks. */
  lemma ReportStatesTotal(tasks: seq<Task>, today: string)
    ensures |Preamble(today, |tasks|)| <= |GenerateReport(tasks, today)|
    ensures GenerateReport(tasks, today)[..|Preamble(today, |tasks|)|] == Preamble(today, |tasks|)
  {
    var pre := Preamble(today, |tasks|);
    var body := ReportBody(tasks);
    assert pre + body == GenerateReport(tasks, today);
    ConcatSlices(pre, body, 0);
  }

  /** Where the fields of `head + (mid + tail)` sit, also with something after it. */
  lemma PrefixFields<T>(head: seq<T>, mid: seq<T>, tail: seq<T>, body: seq<T>)
    ensures var pre := head + (mid + tail);
      && (pre + body)[..|pre|] == pre
      && pre[..|head|] == head
      && pre[|head|..|head| + |mid|] == mid
  {
    var pre := head + (mid + tail);
    ConcatSlices(pre, body, 0);
    ConcatSlices(head, mid + tail, |mid|);
    ConcatSlices(mid, tail, 0);
  }

  /** Each section heading's count is the number of tasks of that priority. */
  lemma SectionHeadingCounts(tasks: seq<Task>, i: nat)
    requires i < |Sections(tasks)|
    ensures var s := Sections(tasks)[i];
      var digits := NatToString(Count(PriorityIs(s.priority), tasks));
      RenderSection(s) == "## " + SectionTitle(s.priority) + " (" + digits + "개)\n\n" + RenderTasks(s.tasks)
  {
    SectionsOrdered(tasks);
    var s := Sections(tasks)[i];
    CountIsFilterLength(PriorityIs(s.priority), tasks);
  }

  lemma {:induction false} CountIsFilterLength<T>(f: T -> bool, s: seq<T>)
    ensures Count(f, s) == |Filter(f, s)|
    decreases |s|
  {
    if s != [] {
      CountIsFilterLength(f, s[1..]);
    }
  }

  // ----- image optimisation ------------------------------------------------------------

  /** A file under the image directory and its size in bytes. */
  datatype ImageFile = ImageFile(path: string, size: nat)

  /** `/\.(jpg|jpeg|png|gif)$/i`: the file names a raster image, in any letter case. */
  predicate IsRasterImage(f: ImageFile)
  {
    var lower := LowerAscii(f.path);
    EndsWith(lower, ".jpg") || EndsWith(lower, ".jpeg") || EndsWith(lower, ".png") || EndsWith(lower, ".gif")
  }

  /** Over 200 KB, the size measured in units of 1024 bytes without rounding. */
  predicate IsLarge(f: ImageFile)
  {
    (f.size as real) / 1024.0 > 200.0
  }

  /** The threshold in bytes: more than 204800. */
  lemma IsLargeInBytes(f: ImageFile)
    ensures IsLarge(f) <==> f.size > 204800
  {
  }

  /** `path.basename`: the part after the last '/'. */
  function Basename(p: string): (r: string)
    ensures '/' !in r
    ensures |r| <= |p| && r == p[|p| - |r|..]
    ensures |r| < |p| ==> p[|p| - |r| - 1] == '/'
    decreases |p|
  {
    if p == [] then []
    else if p[|p| - 1] == '/' then []
    else
      var init := p[..|p| - 1];
      var b := Basename(init);
      assert p[|p| - |b| - 1..] == init[|init| - |b|..] + [p[|p| - 1]];
      b + [p[|p| - 1]]
  }

  function BasenameOf(f: ImageFile): string { Basename(f.path) }

  /** The task for large images: their number in the title and the first three names. */
  function CompressTask(large: seq<ImageFile>): Task
  {
    Task("high", "이미지 최적화", NatToString(|large|) + "개 이미지 압축 필요",
         "200KB 초과 이미지 발견. WebP 변환 및 압축 권장.",
         Some(Take(Map(BasenameOf, large), 3)), "low")
  }

  const WebPTask := Task("medium", "이미지 최적화", "WebP 이미지 포맷 도입",
                         "최신 WebP 포맷으로 변환하여 로딩 속도 개선", None, "medium")

  /** `images.some(f => f.endsWith('.webp'))`. */
  function HasWebP(files: seq<ImageFile>): bool
    decreases |files|
  {
    files != [] && (EndsWith(files[0].path, ".webp") || HasWebP(files[1..]))
  }

  /** A WebP file is exactly what `HasWebP` looks for. */
  lemma {:induction false} HasWebPFinds(files: seq<ImageFile>)
    ensures HasWebP(files) <==> exists i :: 0 <= i < |files| && EndsWith(files[i].path, ".webp")
    decreases |files|
  {
    if files != [] {
      HasWebPFinds(files[1..]);
      if exists i :: 0 <= i < |files| && EndsWith(files[i].path, ".webp") {
        var i :| 0 <= i < |files| && EndsWith(files[i].path, ".webp");
        if i > 0 {
          assert files[1..][i - 1] == files[i];
        }
      }
      if exists i :: 0 <= i < |files[1..]| && EndsWith(files[1..][i].path, ".webp") {
        var i :| 0 <= i < |files[1..]| && EndsWith(files[1..][i].path, ".webp");
        assert files[i + 1] == files[1..][i];
      }
    }
  }

  /** `hasWebP` as written: the test runs over the files already narrowed to jpg, jpeg,
      png and gif. */
  function HasWebPAsWritten(files: seq<ImageFile>): bool
  {
    HasWebP(Filter(IsRasterImage, files))
  }

  /** It can never succeed: a name ending in ".webp" does not end in one of the image
      extensions, so the WebP task is pushed whenever there is any raster image. */
  lemma HasWebPAsWrittenNeverTrue(files: seq<ImageFile>)
    ensures !HasWebPAsWritten(files)
  {
    NoWebPAmongRaster(Filter(IsRasterImage, files));
  }

  lemma {:induction false} NoWebPAmongRaster(images: seq<ImageFile>)
    requires forall i :: 0 <= i < |images| ==> IsRasterImage(images[i])
    ensures !HasWebP(images)
    decreases |images|
  {
    if images != [] {
      if EndsWith(images[0].path, ".webp") {
        WebPIsNotRaster(images[0]);
      }
      NoWebPAmongRaster(images[1..]);
    }
  }

  lemma WebPIsNotRaster(f: ImageFile)
    requires EndsWith(f.path, ".webp")
    ensures !IsRasterImage(f)
  {
    var lower := LowerAscii(f.path);
    var n := |f.path|;
    assert f.path[n - 1] == 'p';
    assert lower[n - 1] == 'p';
    assert !EndsWith(lower, ".jpg") by { if |lower| >= 4 { assert lower[n - 4..][3] == 'p'; } }
    assert !EndsWith(lower, ".jpeg") by { if |lower| >= 5 { assert lower[n - 5..][4] == 'p'; } }
    assert !EndsWith(lower, ".png") by { if |lower| >= 4 { assert lower[n - 4..][3] == 'p'; } }
    assert !EndsWith(lower, ".gif") by { if |lower| >= 4 { assert lower[n - 4..][3] == 'p'; } }
  }

  /** `checkImageOptimization` as written; `dir` is absent when there is no image
      directory. The WebP task is pushed whenever there is a raster image, WebP files or
      not: the WebP test has no effect. */
  function CheckImagesAsWritten(dir: Option<seq<ImageFile>>): (r: seq<Task>)
    ensures dir.None? ==> r == []
    ensures |r| <= 2
    ensures WebPTask in r <==> dir.Some? && Filter(IsRasterImage, dir.value) != []
  {
    match dir
    case None => []
    case Some(files) =>
      HasWebPAsWrittenNeverTrue(files);
      var images := Filter(IsRasterImage, files);
      var large := Filter(IsLarge, images);
      var compress := if large != [] then [CompressTask(large)] else [];
      var webp := if !HasWebPAsWritten(files) && images != [] then [WebPTask] else [];
      ImageTasks(compress, webp, CompressTask(large), WebPTask);
      compress + webp
  }

  /** The same check with the WebP test over every file of the directory: the WebP task
      is pushed exactly when there are raster images and no WebP file. */
  function CheckImages(dir: Option<seq<ImageFile>>): (r: seq<Task>)
    ensures dir.None? ==> r == []
    ensures |r| <= 2
    ensures WebPTask in r <==> dir.Some? && Filter(IsRasterImage, dir.value) != [] && !HasWebP(dir.value)
  {
    match dir
    case None => []
    case Some(files) =>
      var images := Filter(IsRasterImage, files);
      var large := Filter(IsLarge, images);
      var compress := if large != [] then [CompressTask(large)] else [];
      var webp := if !HasWebP(files) && images != [] then [WebPTask] else [];
      ImageTasks(compress, webp, CompressTask(large), WebPTask);
      compress + webp
  }

  /** At most a compression task and then a WebP task: the WebP task is there exactly when
      it was pushed. */
  lemma ImageTasks(compress: seq<Task>, webp: seq<Task>, x: Task, y: Task)
    requires compress == [] || compress == [x]
    requires webp == [] || webp == [y]
    requires x.priority == "high" && y.priority == "medium"
    ensures |compress + webp| <= 2
    ensures y in compress + webp <==> webp != []
  {
    if webp != [] {
      assert (compress + webp)[|compress|] == y;
    }
  }

  /** The concrete directory of the counterexample: one large PNG and a WebP file. */
  const SampleDir: seq<ImageFile> := [ImageFile("a.png", 300000), ImageFile("b.webp", 1000)]

  lemma SamplePngIsRaster()
    ensures IsRasterImage(ImageFile("a.png", 300000))
  {
    var lower := LowerAscii("a.png");
    assert lower == "a.png";
    assert lower[|lower| - 4..] == ".png";
  }

  lemma SampleDirImages()
    ensures Filter(IsRasterImage, SampleDir) == [SampleDir[0]]
    ensures Filter(IsLarge, [SampleDir[0]]) == [SampleDir[0]]
  {
    SamplePngIsRaster();
    assert EndsWith(SampleDir[1].path, ".webp");
    WebPIsNotRaster(SampleDir[1]);
    FilterFirstOfTwo(IsRasterImage, SampleDir[0], SampleDir[1]);
    assert IsLarge(SampleDir[0]);
    FilterFirstOfTwo(IsLarge, SampleDir[0], SampleDir[0]);
  }

  /** Filtering a pair whose first element is selected and whose second is not. */
  lemma FilterFirstOfTwo<T>(f: T -> bool, a: T, b: T)
    requires f(a)
    ensures Filter(f, [a]) == [a]
    ensures !f(b) ==> Filter(f, [a, b]) == [a]
  {
    assert [a][1..] == [];
    assert [a, b][1..] == [b];
    assert [b][1..] == [];
  }

  /** On that directory the code as written still asks for WebP to be introduced; the
      corrected check does not. */
  lemma WebPCounterexample()
    ensures HasWebP(SampleDir)
    ensures !HasWebPAsWritten(SampleDir)
    ensures |CheckImagesAsWritten(Some(SampleDir))| == 2 && CheckImagesAsWritten(Some(SampleDir))[1] == WebPTask
    ensures |CheckImages(Some(SampleDir))| == 1 && CheckImages(Some(SampleDir))[0].priority == "high"
  {
    assert EndsWith(SampleDir[1].path, ".webp");
    assert HasWebP(SampleDir[1..]);
    SampleDirImages();
    HasWebPAsWrittenNeverTrue(SampleDir);
  }

  /** Some raster image is over 200 KB exactly when the large list is not empty; every
      listed file is a raster image over 204800 bytes from the directory. */
  lemma LargeImagesExist(files: seq<ImageFile>)
    ensures var large := Filter(IsLarge, Filter(IsRasterImage, files));
      && (large != [] <==> exists i :: 0 <= i < |files| && IsRasterImage(files[i]) && IsLarge(files[i]))
      && (forall k :: 0 <= k < |large| ==> large[k].size > 204800 && IsRasterImage(large[k]) && large[k] in files)
  {
    var images := Filter(IsRasterImage, files);
    var large := Filter(IsLarge, images);
    if exists i :: 0 <= i < |files| && IsRasterImage(files[i]) && IsLarge(files[i]) {
      var i :| 0 <= i < |files| && IsRasterImage(files[i]) && IsLarge(files[i]);
      FilterMultiset(IsRasterImage, files, files[i]);
      FilterMultiset(IsLarge, images, files[i]);
      assert files[i] in multiset(large);
    }
    forall k | 0 <= k < |large| ensures large[k].size > 204800 && IsRasterImage(large[k]) && large[k] in files {
      assert large[k] in images;
      IsLargeInBytes(large[k]);
    }
  }

  /** The compression task comes first exactly when some raster image exceeds 200 KB, and
      there are at most two image tasks. */
  lemma CheckImagesCompress(files: seq<ImageFile>)
    ensures var r := CheckImages(Some(files));
      var large := Filter(IsLarge, Filter(IsRasterImage, files));
      && |r| <= 2
      && ((r != [] && r[0] == CompressTask(large)) <==> exists i :: 0 <= i < |files| && IsRasterImage(files[i]) && IsLarge(files[i]))
  {
    LargeImagesExist(files);
    var large := Filter(IsLarge, Filter(IsRasterImage, files));
    assert CompressTask(large).priority != WebPTask.priority;
  }

  /** The compression task names the first three large images at most, in directory
      order. */
  lemma CompressTaskNames(large: seq<ImageFile>)
    ensures var t := CompressTask(large);
      && t.files.Some?
      && |t.files.value| == Min(3, |large|)
      && (forall k :: 0 <= k < |t.files.value| ==> t.files.value[k] == Basename(large[k].path))
  {
  }

  /** The WebP task comes last exactly when there are raster images and no WebP file. */
  lemma CheckImagesWebP(files: seq<ImageFile>)
    ensures var r := CheckImages(Some(files));
      (r != [] && r[|r| - 1] == WebPTask) <==> Filter(IsRasterImage, files) != [] && !HasWebP(files)
  {
    var large := Filter(IsLarge, Filter(IsRasterImage, files));
    assert CompressTask(large).priority != WebPTask.priority;
  }

  /** Every task the image check pushes has a known priority. */
  lemma CheckImagesPriorities(dir: Option<seq<ImageFile>>)
    ensures forall i :: 0 <= i < |CheckImages(dir)| ==> KnownPriority(CheckImages(dir)[i].priority)
  {
    if dir.Some? {
      var files := dir.value;
      var images := Filter(IsRasterImage, files);
      var large := Filter(IsLarge, images);
      var a := if large != [] then [CompressTask(large)] else [];
      var b := if !HasWebP(files) && images != [] then [WebPTask] else [];
      assert CheckImages(dir) == a + b;
      PushedPriorities(a, b, CompressTask(large), WebPTask);
    }
  }

  /** At most one compression task and one WebP-like task, both of known priority. */
  lemma PushedPriorities(a: seq<Task>, b: seq<Task>, x: Task, y: Task)
    requires a == [] || a == [x]
    requires b == [] || b == [y]
    requires KnownPriority(x.priority) && KnownPriority(y.priority)
    ensures forall i :: 0 <= i < |a + b| ==> KnownPriority((a + b)[i].priority)
  {
  }
}
