# ppel-lab core, modelled in Dafny

This project models the deterministic logic of the ppel-lab repository and proves
properties about it. It covers three programs.

- **Daily paper digest.** RSS entries are collected into `Paper` records. Duplicates are
  checked against a paper store keyed by DOI, and daily trend keywords are counted. Papers
  are scored against the lab's keywords and the most relevant are selected. Gemini's
  per-paper results are merged in, with a fallback briefing when the AI call fails. The
  data for the e-mail report and its subject are assembled.
- **Volunteer reminders.** A weekly kitchen-duty team rotates through four teams from the
  Saturday 2026-02-28. A monthly meeting notice rotates through five villages from
  February 2026 and goes out only on the Saturday before the month's last Sunday.
- **Website task recommender.** A Markdown report groups recommended tasks by priority. One
  rule flags large images.

The model is pure functions and small methods over immutable values. Where the source
updates the caller's `Paper` objects in place, the model returns updated copies (see
"## Left out"). The two SQLite
tables are maps. The clock, the network, the Gemini client, the JSON decoder and the
CrossRef lookup are all parameters.

Modules, one per source component:

- `Wrappers`, `Seqs` and `Text` are shared helpers: options, filtering, stable sorting,
  trimming, joining and decimal text.
- `Papers`: the `Paper` dataclass.
- `Collector`: `collector.py`.
- `Database`: `database.py`.
- `Relevance`: `filter.py`.
- `Analyzer`: `analyzer.py`.
- `Reporter`: `reporter.py`.
- `Calendar`: proleptic Gregorian dates as in Python's `date`.
- `Reminder`: `reminder.py`.
- `MonthlyMeeting`: `monthly_meeting_reminder.py`.
- `TaskRecommender`: `task-recommender.js`.

Modelling choices:

- Dates in `database.py` are ISO "YYYY-MM-DD" strings. They are modelled as day numbers. For
  four-digit years the strings' order and the numbers' order agree.
- Timestamps are whole seconds.
- Scores are reals.
- Python's stable `sorted(..., reverse=True)` is one generic stable insertion sort,
  `Seqs.SortDesc`.

## Model

| member | source | states |
|---|---|---|
| Papers.NewPaper | daily-paper-digest/src/collector.py:15-32 | a freshly built paper holds the given collected fields and the dataclass defaults in every derived field (score 0.0, no keywords or tags, empty summary, novelty and label, ppel score 0) |
| Database.IsDuplicate | daily-paper-digest/src/database.py:50-56 | the empty DOI is never a duplicate; a non-empty DOI is a duplicate exactly when it is a key of the store |
| Database.FilterNewPapers | daily-paper-digest/src/database.py:58-70 | the result is the in-order subsequence of the batch whose DOI is empty or not stored |
| Database.FilterNewKeepsAll | daily-paper-digest/src/database.py:58-66 | a new paper is kept as often as it occurs in the batch, so two papers with the same unstored DOI are both kept |
| Database.RowOf | daily-paper-digest/src/database.py:79-92 | the stored row holds the paper's title, journal, date, comma-joined keywords, score, summary and ppel score |
| Database.SavePaper | daily-paper-digest/src/database.py:72-94 | an empty DOI leaves the store unchanged; otherwise the DOI's row becomes this paper's row, the key set gains only that DOI, and every other row is unchanged |
| Database.SavePapers | daily-paper-digest/src/database.py:96-99 | saving a batch never removes a stored DOI, and never stores the empty DOI |
| Database.SavePapersKeys | daily-paper-digest/src/database.py:96-99 | after saving a batch the stored DOIs are the old ones plus the batch's non-empty DOIs |
| Database.SavePapersFrame | daily-paper-digest/src/database.py:96-99 | a stored DOI that no paper of the batch carries keeps its row |
| Database.SavePapersLastWins | daily-paper-digest/src/database.py:76-99 | a DOI's row after a batch is the row of the last paper in the batch with that DOI |
| Database.NewAfterSave | daily-paper-digest/src/database.py:58-66 | after saving a batch, filtering that same batch for new papers leaves exactly its papers without a DOI |
| Database.SaveDailyTrends | daily-paper-digest/src/database.py:102-123 | the day used is the given date or today; each (day, non-empty keyword) count rises by the keyword's number of occurrences, starting from 0 when absent; no other pair is created or changed |
| Database.WeekDates | daily-paper-digest/src/database.py:155-157 | the seven bucket days are today-6 through today, oldest first |
| Database.EntryOf | daily-paper-digest/src/database.py:159-170 | an entry's counts are the stored counts of the seven bucket days, zero where there is no row, and its total is their sum |
| Database.StaleKeywordListed | daily-paper-digest/src/database.py:127-143 | a keyword recorded only on today-7 is still returned, with all counts and the total zero, because the query reaches one day further back than the buckets |
| Database.WeeklyTrends | daily-paper-digest/src/database.py:125-174 | one entry per keyword with a row from today-7 to today, each its zero-filled week, ordered by total descending, with equal totals in keyword order |
| Database.AscendingKeywords | daily-paper-digest/src/database.py:134-137 | the query's keywords come out in ascending code-point order, each once, all of them |
| Relevance.SeqMax | daily-paper-digest/src/filter.py:49 | the maximum bounds every similarity and is one of them |
| Relevance.Divisor | daily-paper-digest/src/filter.py:49 | the divisor is always positive |
| Relevance.ComputeRelevance | daily-paper-digest/src/filter.py:13-53 | an empty batch or a failed vectorisation returns the papers unchanged; otherwise the length and order are kept, only the score changes, and each score is the similarity's share of the divisor times 10, rounded to 2 places |
| Relevance.MaxScoresTen | daily-paper-digest/src/filter.py:49-51 | a paper attaining a positive maximum similarity scores exactly 10 |
| Relevance.ScoresInRange | daily-paper-digest/src/filter.py:49-51 | with non-negative similarities every score lies in [0, 10] |
| Relevance.AllZeroScoresZero | daily-paper-digest/src/filter.py:49-51 | when every similarity is 0 the divisor is 1 and every score is 0 |
| Relevance.Round2Monotone | daily-paper-digest/src/filter.py:51 | rounding to 2 places keeps order |
| Relevance.Round2Exact | daily-paper-digest/src/filter.py:51 | a number with at most 2 decimals is its own rounding |
| Relevance.ChooseTop | daily-paper-digest/src/filter.py:74-89 | with some relevant paper, the first max_papers of the relevant ones (Python slicing); otherwise the first five ranked papers; never empty for a non-empty ranking and max_papers >= 1 |
| Relevance.FilterPapers | daily-paper-digest/src/filter.py:56-89 | an empty batch gives nothing; a non-empty batch with max_papers >= 1 gives at least one paper |
| Relevance.FilterPapersRelevant | daily-paper-digest/src/filter.py:74-82 | when some paper reaches the threshold, the result is a prefix of the relevant papers in ranked order, of length min(max_papers, relevant), all at or above the threshold |
| Relevance.FilterPapersFallback | daily-paper-digest/src/filter.py:83-89 | when none reaches the threshold, the result is the five best-ranked papers (or all of them, if fewer) |
| Relevance.FilterPapersSorted | daily-paper-digest/src/filter.py:71-89 | the result is in descending score order and consists of scored papers |
| Relevance.Ranked | daily-paper-digest/src/filter.py:68-71 | the ranked papers are sorted by score, descending, and keep the batch's size |
| Seqs.SortDesc | daily-paper-digest/src/filter.py:71 | the sort returns a descending permutation of its input |
| Seqs.SortDescStable | daily-paper-digest/src/filter.py:71 | papers with equal keys keep their input order after the sort |
| Seqs.StableSortUnique | daily-paper-digest/src/filter.py:71 | two descending sequences that are stable rearrangements of the same input are equal, so the stable sort is determined |
| Seqs.FilterIsSubseq | daily-paper-digest/src/database.py:58-66 | a filter's result is an in-order subsequence of its input |
| Collector.FindDoi | daily-paper-digest/src/collector.py:80-86 | a match starts with "10.", has at least four digits before "/" and at least one character after it, and has no whitespace, '&', '?' or '#' |
| Collector.FindDoiLeftmost | daily-paper-digest/src/collector.py:80-86 | no DOI-shaped substring starts before the match, and the search fails only when the text holds none: it is the leftmost match of `10.\d{4,}/[^\s&?#]+` |
| Collector.SearchDoi | daily-paper-digest/src/collector.py:80-86 | the search returns the first position where a match starts, with no match at any earlier position |
| Collector.ExtractDoi | daily-paper-digest/src/collector.py:69-88 | a `prism_doi` (else `dc_identifier`) value starting with "10." is returned verbatim; otherwise the first match in the link (or in the id when the link is empty), then in the id, or "" when the id holds no match either |
| Collector.StripTags | daily-paper-digest/src/collector.py:97 | tag stripping never lengthens the text and leaves text without '>' unchanged |
| Collector.StripTagsLeavesNoTag | daily-paper-digest/src/collector.py:97 | no `<...>` tag is left after stripping |
| Collector.StripTagsIdempotent | daily-paper-digest/src/collector.py:97 | stripping twice is stripping once |
| Collector.ExtractAbstract | daily-paper-digest/src/collector.py:91-117 | the abstract is always one of the cleaned candidates (summary, description, content values), and it is longer than 50 characters exactly when some candidate is |
| Collector.ExtractAbstractFirstLong | daily-paper-digest/src/collector.py:91-117 | the abstract is the first of summary, description and content values whose cleaned text is longer than 50 characters; failing that, the cleaned summary if non-empty, else the cleaned description, never content |
| Collector.ExtractAuthors | daily-paper-digest/src/collector.py:120-143 | the non-empty `authors[].name` values in order; else the comma-split trimmed `author` string; else `[author_detail.name]` when that name is non-empty; else nothing |
| Collector.AuthorStringNames | daily-paper-digest/src/collector.py:132-136 | an author string gives one name per comma-separated piece, each without a comma or surrounding whitespace |
| Collector.CollectEntry | daily-paper-digest/src/collector.py:184-217 | an entry becomes a paper exactly when its date (now when missing) is inside the window and its trimmed title is not empty; that paper has the defaults in its derived fields |
| Collector.CollectEntryFields | daily-paper-digest/src/collector.py:194-216 | a kept entry's paper has a non-empty title that stripping leaves unchanged, a DOI that is empty or starts with "10.", the feed's abstract whenever the feed has one, and an empty abstract exactly when the feed has none and either no DOI is known or CrossRef returns "" |
| Collector.CollectFeedCount | daily-paper-digest/src/collector.py:183-218 | a feed yields exactly as many papers as it has kept entries |
| Collector.CollectPapers | daily-paper-digest/src/collector.py:164-227 | every collected paper has the defaults, a non-empty title and a date no older than the window (48 hours by default) |
| Text.Trim | daily-paper-digest/src/collector.py:194 | `strip()` leaves no whitespace at either end and never lengthens the text |
| Text.TrimIsStrip | daily-paper-digest/src/collector.py:194 | the trimmed text is a contiguous slice of the input |
| Text.TrimDropsSpace | daily-paper-digest/src/collector.py:194 | everything dropped from either end is whitespace |
| Text.JoinSplit | daily-paper-digest/src/collector.py:134 | joining the comma-split pieces with "," restores the string |
| Text.NatToStringRoundTrip | volunteer-reminder/monthly_meeting_reminder.py:75 | the decimal text of a number reads back as that number |
| Text.Pad2 | volunteer-reminder/reminder.py:57 | `%m` and `%d` padding gives two digits that read back as the number |
| Analyzer.PromptAbstract | daily-paper-digest/src/analyzer.py:106-108 | an empty abstract becomes "(초록 없음)"; up to 300 characters it is kept; longer, it becomes its first 300 characters plus "..." |
| Analyzer.PromptAbstractBounded | daily-paper-digest/src/analyzer.py:106-108 | the prompt abstract has at most 303 characters and starts with the abstract's first min(len, 300) characters |
| Analyzer.CallGemini | daily-paper-digest/src/analyzer.py:186-215 | at most two attempts, each counted; a second attempt happens exactly when the first fails without a quota error; the text is the first reply, unless the first error was a quota error or both failed; each failure records its message cut to 150 |
| Analyzer.ResultMap | daily-paper-digest/src/analyzer.py:146 | the dictionary's keys are exactly the items' keys ("index", else the position), and each value is one of the items |
| Analyzer.ResultMapLastWins | daily-paper-digest/src/analyzer.py:146 | the entry for index i is the last result whose "index" (defaulting to its position) is i |
| Analyzer.Apply | daily-paper-digest/src/analyzer.py:151-157 | an applied result sets the summary, novelty, ppel score and tags, makes the keywords the first three tags, and changes nothing else |
| Analyzer.MergeResults | daily-paper-digest/src/analyzer.py:145-158 | every paper is merged with its index's entry only when that entry has "summary_kr", and the success count is the number of papers so updated |
| Analyzer.RelevanceLabel | daily-paper-digest/src/analyzer.py:264-271 | "High" exactly for scores >= 7, "Medium" exactly for 4 <= score < 7, "Low" exactly below 4 |
| Analyzer.RelevanceLabelMonotone | daily-paper-digest/src/analyzer.py:264-271 | a higher score never gets a lower label |
| Analyzer.IndicesOf | daily-paper-digest/src/analyzer.py:222-224 | a journal's indices are increasing positions of that journal's papers |
| Analyzer.GroupsOfCorrect | daily-paper-digest/src/analyzer.py:222-224 | the grouping has one group per journal, holding exactly that journal's positions, with groups in order of first appearance |
| Analyzer.FallbackThemes | daily-paper-digest/src/analyzer.py:226-237 | the themes are those of the first min(5, groups) groups ranked by size |
| Analyzer.FallbackThemesAreLargestGroups | daily-paper-digest/src/analyzer.py:226-229 | the ranked groups are exact, distinct and cover every journal, and no group beyond the fifth is larger than one within the first five |
| Analyzer.ThemeSummaryTitles | daily-paper-digest/src/analyzer.py:230-233 | a theme's summary joins at most three titles with "; ", each a prefix of its paper's title of at most 50 characters |
| Analyzer.FallbackActions | daily-paper-digest/src/analyzer.py:240-246 | the action items come from the first min(3, papers) papers of the stable descending score order |
| Analyzer.FallbackActionsBest | daily-paper-digest/src/analyzer.py:240-242 | no paper left out of the action items scores higher than one that is in them |
| Analyzer.FallbackOverview | daily-paper-digest/src/analyzer.py:248-258 | the overview carries the first recorded error cut to 80 characters exactly when an error was recorded |
| Analyzer.FallbackBriefing | daily-paper-digest/src/analyzer.py:217-262 | the fallback has no hot keywords, at most five themes and at most three action items |
| Analyzer.AnalyzeAll | daily-paper-digest/src/analyzer.py:92-215 | an empty batch fails with an empty briefing, before any call; otherwise a second call is counted exactly when the first attempt failed without a quota error, and one error per failed attempt is appended, its message cut to 150 characters; success exactly when a reply came and parsed; on failure the papers are unchanged, with the fallback briefing and no trends; on success the papers are merged by index |
| Reporter.FillDoiLink | daily-paper-digest/src/reporter.py:32-34 | a paper with a DOI and no link gets "https://doi.org/" + DOI; every other paper is unchanged |
| Reporter.FillDoiLinkIdempotent | daily-paper-digest/src/reporter.py:32-34 | filling twice is filling once, and a filled paper with a DOI has a link |
| Reporter.DefaultOverviewStatesTotal | daily-paper-digest/src/reporter.py:43-46 | the overview without an AI result opens with the collected count, which reads back exactly |
| Reporter.PartitionOthers | daily-paper-digest/src/reporter.py:50-57 | the unclassified papers are those without a label, in order; each non-empty label's group holds exactly that label's papers in order; every labelled paper's label has a group |
| Reporter.PartitionExactlyOnce | daily-paper-digest/src/reporter.py:50-57 | every other paper lands in its own label's group as often as it occurs, and in no other group |
| Reporter.BuildSections | daily-paper-digest/src/reporter.py:60-68 | one section per featured field, in order, with its count (1 when missing), its analysis ("" when missing), its filled paper and its label's group ([] when absent) |
| Reporter.GenerateReport | daily-paper-digest/src/reporter.py:21-89 | the report's sections, unclassified papers, overview (the AI's or the default), AI flag and counts are as the source assembles them, with links filled in |
| Reporter.UnfeaturedLabelDropped | daily-paper-digest/src/reporter.py:50-68 | an other paper whose non-empty label is no featured field is in no section and not unclassified |
| Reporter.EmailSubject | daily-paper-digest/src/reporter.py:92-99 | a count of 0 gives the "no related papers" subject; any other count gives the "n개 분야 주요 논문" subject |
| Reporter.EmailSubjectInjective | daily-paper-digest/src/reporter.py:92-99 | different counts on the same day give different subjects |
| Calendar.DaysInMonth | volunteer-reminder/monthly_meeting_reminder.py:51 | Gregorian month lengths lie between 28 and 31 |
| Calendar.NextDay | volunteer-reminder/reminder.py:91 | the day after a valid date is valid, and none exists only after 9999-12-31 |
| Calendar.NextDayOrdinal | volunteer-reminder/reminder.py:91 | the next day's ordinal is one more |
| Calendar.NextDayWeekday | volunteer-reminder/monthly_meeting_reminder.py:121 | the next day's weekday is one more, modulo 7 |
| Calendar.AddDaysOrdinal | volunteer-reminder/reminder.py:48-49 | adding n days adds n to the ordinal, so a date n days later is n days further from the reference |
| Calendar.OrdinalInjective | volunteer-reminder/reminder.py:48 | distinct valid dates have distinct ordinals, so a zero day difference means the same date |
| Calendar.LastSundayOfMonth | volunteer-reminder/monthly_meeting_reminder.py:50-55 | a result exists exactly for a valid year and month, and lies in that month |
| Calendar.LastSundayIsSunday | volunteer-reminder/monthly_meeting_reminder.py:50-55 | the last Sunday is a Sunday within the month's last seven days |
| Calendar.LastSundayIsLast | volunteer-reminder/monthly_meeting_reminder.py:50-55 | the last Sunday is a Sunday within the month's last seven days, and no later day of the month is a Sunday |
| Reminder.DutyIndexOfOrdinal | volunteer-reminder/reminder.py:48-50 | the team index lies in [0, 4) for every date, also before the reference |
| Reminder.DutyTeam | volunteer-reminder/reminder.py:46-51 | the duty team is one of the four teams |
| Reminder.ReferenceSaturdayFacts | volunteer-reminder/reminder.py:41 | 2026-02-28 is a valid Saturday |
| Reminder.ReferenceIsFirstTeam | volunteer-reminder/reminder.py:41-51 | the reference Saturday is served by "1팀" |
| Reminder.SameWeekSameTeam | volunteer-reminder/reminder.py:48-49 | the seven days from reference + 7k share one team, for negative k as well |
| Reminder.NextWeekNextTeam | volunteer-reminder/reminder.py:48-51 | seven days later the team index advances by one, modulo 4 |
| Reminder.FourWeeksSameTeam | volunteer-reminder/reminder.py:48-51 | twenty-eight days later the same team serves |
| Reminder.WeeksLaterTeam | volunteer-reminder/reminder.py:48-51 | k weeks later the team index advances by k, modulo 4 |
| Reminder.BuildMessage | volunteer-reminder/reminder.py:54-61 | the message body names the team, its leader and every one of its members |
| Reminder.SubjectStatesSunday | volunteer-reminder/reminder.py:54-61 | the subject is "[식당봉사 알림] " then MM/DD, and both fields read back as the Sunday's month and day |
| Reminder.WeeklyMessage | volunteer-reminder/reminder.py:85-94 | a Saturday run sends the message for the next day's team, and fails only when there is no next day |
| MonthlyMeeting.NextMonth | volunteer-reminder/monthly_meeting_reminder.py:59 | the month after (y, m) is one month number later |
| MonthlyMeeting.VillageIndex | volunteer-reminder/monthly_meeting_reminder.py:58-60 | the village index is the months since February 2026 modulo 5, in [0, 5) |
| MonthlyMeeting.ReferenceMonthFirstVillage | volunteer-reminder/monthly_meeting_reminder.py:43-45 | February 2026 goes to "209 정상연" |
| MonthlyMeeting.NextMonthNextVillage | volunteer-reminder/monthly_meeting_reminder.py:58-60 | the next month, across a year's end too, goes to the next village cyclically |
| MonthlyMeeting.FiveMonthsSameVillage | volunteer-reminder/monthly_meeting_reminder.py:58-60 | months five apart go to the same village |
| MonthlyMeeting.Subject | volunteer-reminder/monthly_meeting_reminder.py:72-75 | the subject is "[공지] " then the Sunday's month without padding (one or two digits), which reads back exactly |
| MonthlyMeeting.SubjectStatesMonth | volunteer-reminder/monthly_meeting_reminder.py:72-75 | two Sundays whose subjects are equal fall in the same month |
| MonthlyMeeting.MeetingRun | volunteer-reminder/monthly_meeting_reminder.py:117-131 | a notice names tomorrow, tomorrow's month's village and its subject; the run fails only when there is no next day |
| MonthlyMeeting.MeetingRunOnLastSunday | volunteer-reminder/monthly_meeting_reminder.py:121-127 | a notice is built exactly when tomorrow is a Sunday within the last seven days of its month |
| MonthlyMeeting.SundaysAWeekApart | volunteer-reminder/monthly_meeting_reminder.py:50-55 | two Sundays of one month are at least seven days apart |
| TaskRecommender.EffortLabel | scripts/task-recommender.js:396 | "low" gives "낮음 ⭐", "medium" gives "중간 ⭐⭐", and anything else gives "높음 ⭐⭐⭐", each exactly then |
| TaskRecommender.FormatTask | scripts/task-recommender.js:392-401 | when no field holds a line break, the block splits at line breaks into the heading, category, description and effort lines, the files line (the names joined by ", ") exactly when the task has files, and a blank line: five line breaks, six with files |
| TaskRecommender.SectionFor | scripts/task-recommender.js:359-384 | a priority's section exists exactly when some task has it, and holds those tasks in push order |
| TaskRecommender.SectionsOrdered | scripts/task-recommender.js:359-384 | at most three sections, in the order high, medium, low, none empty, each holding exactly its priority's tasks in push order |
| TaskRecommender.SectionsComplete | scripts/task-recommender.js:365-384 | every known priority that some task has gets a section |
| TaskRecommender.EachTaskListedOnce | scripts/task-recommender.js:53-330 | when every task has a known priority, the report lists each task exactly as often as it was pushed |
| TaskRecommender.SectionHeadingCounts | scripts/task-recommender.js:366-380 | each section heading's count is the number of tasks with that priority |
| TaskRecommender.GenerateReport | scripts/task-recommender.js:351-389 | the report opens with its title and date lines, and the total after them reads back as the number of tasks |
| TaskRecommender.PreambleStatesTotal | scripts/task-recommender.js:354-356 | the preamble's count reads back as the number of tasks |
| TaskRecommender.ReportStatesTotal | scripts/task-recommender.js:351-389 | the report opens with the preamble counting all the tasks |
| TaskRecommender.IsLargeInBytes | scripts/task-recommender.js:45-47 | over 200 KB means over 204800 bytes |
| TaskRecommender.Basename | scripts/task-recommender.js:58 | the base name is the suffix after the last '/' |
| TaskRecommender.LargeImagesExist | scripts/task-recommender.js:39-50 | the large list is non-empty exactly when some jpg, jpeg, png or gif file exceeds 200 KB, and lists only such files |
| TaskRecommender.CheckImagesCompress | scripts/task-recommender.js:52-61 | the compression task comes first exactly when some raster image is large, and the image check gives at most two tasks |
| TaskRecommender.CompressTaskNames | scripts/task-recommender.js:56-58 | the compression task names the first min(3, large) large images' base names, in directory order |
| TaskRecommender.HasWebPFinds | scripts/task-recommender.js:64 | the WebP test succeeds exactly when some file name ends in ".webp" |
| TaskRecommender.CheckImages | scripts/task-recommender.js:34-76 | with the WebP test over all files: no directory gives no task, at most two tasks, and the WebP task is pushed exactly when there are raster images and no WebP file |
| TaskRecommender.CheckImagesWebP | scripts/task-recommender.js:63-73 | with the test over all files, the WebP task comes last exactly when there are raster images and no WebP file |
| TaskRecommender.CheckImagesPriorities | scripts/task-recommender.js:52-73 | every task the image check pushes has priority high, medium or low |
| TaskRecommender.CheckImagesAsWritten | scripts/task-recommender.js:34-76 | as written: no directory gives no task, at most two tasks, and the WebP task is pushed exactly when there are raster images, whether or not a WebP file exists |
| TaskRecommender.HasWebPAsWrittenNeverTrue | scripts/task-recommender.js:39-64 | as written, the WebP test never succeeds |
| TaskRecommender.WebPCounterexample | scripts/task-recommender.js:39-73 | on a directory holding a large PNG and a WebP file, the code as written still asks for WebP to be introduced; the corrected check does not |

## Left out

- TF-IDF vectorisation and cosine similarity (`filter.py`) are library numerics. The
  similarity vector is an input, and a failed vectorisation is the input `None`.
- Relevance.Round2: Python's `round(x, 2)` rounds binary floats half to even. The model
  rounds exact reals half up to hundredths, so ties at the third decimal may differ.
- The field classifier and the featured/others selector are absent: `main.py` calls
  `filter_and_classify` and `analyze_featured`, which no shown file defines. `main.py`'s
  orchestration is not modelled.
- Network and parsing are not modelled: feedparser (entries are given as records),
  `_parse_date` (its result is an input), the CrossRef lookup (a function parameter), the
  Gemini client (outcomes per attempt are inputs), JSON decoding (a `parse` function
  parameter), and `time.sleep`. Feed parse failures and per-journal exceptions in
  `collect_papers` are not modelled.
- Relevance.ComputeRelevance: returns rescored copies. `compute_relevance` sets
  `relevance_score` on the caller's own `Paper` objects, so the caller's list changes too.
- Relevance.FilterPapers: returns the selected papers only. In the source, every paper of
  the caller's list is rescored in place, including those `filter_papers` does not return.
- Analyzer.AnalyzeAll: returns merged copies. The source writes summary, novelty, PPEL
  score, tags and keywords into the caller's `Paper` objects.
- Reporter.GenerateReport: fills missing DOI links in copies. The source sets `link` on
  the caller's featured and other papers.
- Analyzer.AnalyzeAll: the decoded reply is typed, as `Response` and `PaperResult`. Other
  JSON shapes are not modelled. In Python a reply that is a JSON array, or a `papers`
  item that is not an object, raises `AttributeError` out of `analyze_all`, because only
  `JSONDecodeError` is caught. A string `"index"` such as `"3"` is a key that no position
  matches. A `summary_kr` list holding a non-string makes `join` raise `TypeError`.
- The clock is not modelled: `datetime.now` and `date.today` are parameters.
- SQLite is not modelled: connections, commits and SQL text. The tables are maps, and the
  `isoformat` date text of a stored paper is its timestamp. The `created_at` column
  (`DEFAULT CURRENT_TIMESTAMP`, reset by every `INSERT OR REPLACE`) is left out of
  `Database.Row`, because it depends on the clock and nothing reads it.
- Analyzer.Apply: `int(pr.get("relevance", 0))` is modelled for integer values only. The
  conversion of a float or string value is not modelled.
- The prompt text, logging and the briefing's constant theme fields beyond title, summary
  and indices are not modelled.
- jinja2 rendering of the e-mail template, SMTP delivery in `mailer.py` and both reminder
  scripts, and the environment-variable checks are left out.
- `assign_roles` depends on Python's Mersenne Twister `random.Random` and is left out. The
  monthly meeting body is not modelled; only its subject is.
- Reminder.BuildMessage: the body's wording is given only by its definition. The contract
  states that it names the team, the leader and each member, not the full text.
- `script.js` (DOM, timers, animation) is left out.
- The task recommender's other checks (accessibility, performance, SEO, code quality,
  features, security) scan files with regular expressions over HTML and are left out.
  Filesystem scanning, `getAllFiles` and `fs` I/O are left out too. The image check takes
  the directory's files and sizes as given.
- Python's `\d` and `str.lower()` are Unicode-aware. The model's digits are ASCII `0`-`9`
  and its lowering is ASCII lowering. For the "quota" test ASCII lowering agrees, because
  no non-ASCII character lowers to those letters. Whitespace (`\s` and `str.strip()`) is
  the full `str.isspace()` set, as in Python.
- Dates run from year 1 to 9999, as Python's `date` does. Python raises an `OverflowError`
  when it adds a day to 9999-12-31; this is the `None` case of `Calendar.NextDay`. An
  out-of-range year or month given to `last_sunday_of_month` raises in Python; this is the
  `None` case of `Calendar.LastSundayOfMonth`.

## Findings

| source | as written | input that shows it | evidently intended | confidence | as-written member | corrected member |
|---|---|---|---|---|---|---|
| scripts/task-recommender.js:39-65 | `hasWebP` searches `images`, which was already narrowed to jpg, jpeg, png and gif names, so it is always false and the WebP task is pushed whenever any raster image exists | an image directory holding `a.png` (300000 bytes) and `b.webp`: the WebP task is still pushed | test every file of the image directory for a `.webp` name | not executed | TaskRecommender.CheckImagesAsWritten (with TaskRecommender.HasWebPAsWrittenNeverTrue, TaskRecommender.WebPCounterexample) | TaskRecommender.CheckImages (with TaskRecommender.CheckImagesWebP) |
