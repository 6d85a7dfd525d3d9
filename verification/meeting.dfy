/** The monthly meeting notice: the five villages take turns month by month from February
    2026, and the notice goes out on the Saturday before the month's last Sunday. */
module MonthlyMeeting {
  import opened Wrappers
  import opened Text
  import opened Calendar
  import opened Seqs

  datatype Village = Village(name: string, members: seq<string>)

  const Villages: seq<Village> := [
    Village("209 정상연", ["김호기", "김현호A", "김진남", "이정일", "김도윤B"]),
    Village("210 배철한", ["최성계", "김준영H", "김재근B", "김종민C", "김승호D", "정정진"]),
    Village("211 조윤희F", ["김병수C", "진영북", "오선록", "박광진", "최종문A", "이철승"]),
    Village("212 송두헌", ["김대연A", "홍성일A", "김중백", "장쾌남", "김경은E", "정준기C"]),
    Village("213 김영석A", ["임수만", "김성철E", "정재성A"])
  ]

  /** `len(VILLAGES)`. */
  const VillageCount := 5

  const ReferenceYear := 2026
  const ReferenceMonth := 2

  /** A month as a single count, so that consecutive months differ by one. */
  function MonthNumber(y: int, m: int): int
  {
    y * 12 + m
  }

  /** The month after `(y, m)`. */
  function NextMonth(y: int, m: int): (r: (int, int))
    requires 1 <= m <= 12
    ensures 1 <= r.1 <= 12 && MonthNumber(r.0, r.1) == MonthNumber(y, m) + 1
  {
    if m == 12 then (y + 1, 1) else (y, m + 1)
  }

  /** `get_village_for_month`: months since the reference month, modulo five (Python's
      `%`, never negative). */
  function VillageIndex(y: int, m: int): (r: int)
    ensures 0 <= r < VillageCount
    ensures r == (MonthNumber(y, m) - MonthNumber(ReferenceYear, ReferenceMonth)) % VillageCount
  {
    ((y - ReferenceYear) * 12 + (m - ReferenceMonth)) % VillageCount
  }

  function VillageFor(y: int, m: int): Village
  {
    Villages[VillageIndex(y, m)]
  }

  /** February 2026 is the first village's month. */
  lemma ReferenceMonthFirstVillage()
    ensures VillageIndex(ReferenceYear, ReferenceMonth) == 0
    ensures VillageFor(ReferenceYear, ReferenceMonth).name == "209 정상연"
  {
  }

  /** The next month goes to the next village, cyclically, across a year's end too. */
  lemma NextMonthNextVillage(y: int, m: int)
    requires 1 <= m <= 12
    ensures VillageIndex(NextMonth(y, m).0, NextMonth(y, m).1) == (VillageIndex(y, m) + 1) % VillageCount
  {
    var k := MonthNumber(y, m) - MonthNumber(ReferenceYear, ReferenceMonth);
    var n := NextMonth(y, m);
    assert VillageIndex(n.0, n.1) == (k + 1) % VillageCount;
    ModNext(k, VillageCount);
  }

  /** Months five apart go to the same village. */
  lemma FiveMonthsSameVillage(y: int, m: int, y2: int, m2: int)
    requires MonthNumber(y2, m2) == MonthNumber(y, m) + 5
    ensures VillageIndex(y2, m2) == VillageIndex(y, m)
  {
    var k := MonthNumber(y, m) - MonthNumber(ReferenceYear, ReferenceMonth);
    assert (k + 5) % VillageCount == k % VillageCount;
  }

  /** `build_email`'s subject: the month without padding, which reads back exactly. */
  function Subject(sunday: Date): (r: string)
    requires sunday.Valid()
    ensures var digits := NatToString(sunday.month);
      && 1 <= |digits| <= 2
      && |r| == 5 + |digits| + |"월 부목자 모임 안내"|
      && r[..5] == "[공지] "
      && r[5..5 + |digits|] == digits
      && DecimalValue(digits) == sunday.month
  {
    NatToStringRoundTrip(sunday.month);
    assert |"[공지] "| == 5;
    "[공지] " + NatToString(sunday.month) + "월 부목자 모임 안내"
  }

  /** Different months give different subjects. */
  lemma SubjectStatesMonth(a: Date, b: Date)
    requires a.Valid() && b.Valid()
    requires Subject(a) == Subject(b)
    ensures a.month == b.month
  {
    var da := NatToString(a.month);
    var db := NatToString(b.month);
    assert |da| == |db|;
    assert da == Subject(a)[5..5 + |da|];
  }

  /** What a run leads to. */
  datatype Outcome =
    | NextDayOverflow               // 9999-12-31: Python raises
    | NotLastSunday                 // tomorrow is not the month's last Sunday: exit quietly
    | Notice(village: Village, sunday: Date, subject: string)

  /** The check in `main`: send only when tomorrow is the last Sunday of its month. */
  function MeetingRun(today: Date): (r: Outcome)
    requires today.Valid()
    ensures r.NextDayOverflow? <==> NextDay(today).None?
    ensures r.Notice? ==>
      (NextDay(today) == Some(r.sunday)
       && r.village == VillageFor(r.sunday.year, r.sunday.month)
       && r.subject == Subject(r.sunday))
  {
    match NextDay(today)
    case None => NextDayOverflow
    case Some(tomorrow) =>
      var lastSunday := LastSundayOfMonth(tomorrow.year, tomorrow.month);
      if lastSunday != Some(tomorrow) then NotLastSunday
      else Notice(VillageFor(tomorrow.year, tomorrow.month), tomorrow, Subject(tomorrow))
  }

  /** A notice goes out exactly when tomorrow is a Sunday with no later Sunday in its
      month, that is, a Sunday in the month's last seven days. */
  lemma MeetingRunOnLastSunday(today: Date)
    requires today.Valid() && NextDay(today).Some?
    ensures var tomorrow := NextDay(today).value;
      MeetingRun(today).Notice? <==>
        Weekday(tomorrow) == Sunday && tomorrow.day + 7 > DaysInMonth(tomorrow.year, tomorrow.month)
  {
    var t := NextDay(today).value;
    var s := LastSundayOfMonth(t.year, t.month).value;
    LastSundayIsLast(t.year, t.month);
    if Weekday(t) == Sunday && t.day + 7 > DaysInMonth(t.year, t.month) {
      if t.day < s.day {
        SundaysAWeekApart(t, s);
      }
      assert t == s;
    }
  }

  /** Two Sundays of one month are at least a week apart. */
  lemma SundaysAWeekApart(a: Date, b: Date)
    requires a.Valid() && b.Valid() && a.year == b.year && a.month == b.month
    requires a.day < b.day && Weekday(a) == Sunday && Weekday(b) == Sunday
    ensures b.day >= a.day + 7
  {
    var j := b.day - a.day;
    assert Ordinal(b) == Ordinal(a) + j;
    SundayGap(Ordinal(a), j);
  }
}
