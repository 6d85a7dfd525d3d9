/** The weekly kitchen-duty reminder: four teams take turns week by week from the Saturday
    2026-02-28, and each Saturday's message names the team serving the next day. */
module Reminder {
  import opened Wrappers
  import opened Text
  import opened Calendar
  import opened Seqs

  datatype Team = Team(name: string, leader: string, members: seq<string>)

  const Teams: seq<Team> := [
    Team("1팀", "임수만", ["김경은E", "정재성A", "장쾌남"]),
    Team("2팀", "정정진", ["김호기", "김병수C", "오선록"]),
    Team("3팀", "최성계", ["최종문A", "김대연A", "홍성일A"]),
    Team("4팀", "김종민C", ["김도윤B", "김재근B", "박광진"])
  ]

  /** `len(TEAMS)`. */
  const TeamCount := 4

  const ReferenceSaturday := Date(2026, 2, 28)
  /** Its ordinal, checked by `ReferenceSaturdayFacts`. */
  const ReferenceOrdinal := 739675

  lemma ReferenceSaturdayFacts()
    ensures ReferenceSaturday.Valid()
    ensures Ordinal(ReferenceSaturday) == ReferenceOrdinal
    ensures Weekday(ReferenceSaturday) == 5
  {
    assert DaysBeforeYear(2026) == 739616;
    assert DaysBeforeMonth(2026, 2) == 31;
  }

  /** The team index of the week holding the day with ordinal `o`: whole weeks since the
      reference Saturday (floor division), modulo the number of teams. */
  function DutyIndexOfOrdinal(o: int): (r: int)
    ensures 0 <= r < TeamCount
  {
    ((o - ReferenceOrdinal) / 7) % TeamCount
  }

  /** `get_duty_team`. Any date is accepted, also one before the reference. */
  function DutyTeam(saturday: Date): (r: Team)
    requires saturday.Valid()
    ensures r in Teams
  {
    Teams[DutyIndexOfOrdinal(Ordinal(saturday))]
  }

  /** The reference Saturday is served by the first team. */
  lemma ReferenceIsFirstTeam()
    ensures DutyIndexOfOrdinal(Ordinal(ReferenceSaturday)) == 0
    ensures DutyTeam(ReferenceSaturday).name == "1팀"
  {
    ReferenceSaturdayFacts();
  }

  /** All seven days of a week counted from the reference share one team, before the
      reference as well as after it. */
  lemma SameWeekSameTeam(k: int, j: int)
    requires 0 <= j < 7
    ensures DutyIndexOfOrdinal(ReferenceOrdinal + 7 * k + j) == DutyIndexOfOrdinal(ReferenceOrdinal + 7 * k)
  {
    assert (7 * k + j) / 7 == k;
    assert (7 * k) / 7 == k;
  }

  /** A week later the next team serves, cyclically. */
  lemma NextWeekNextTeam(o: int)
    ensures DutyIndexOfOrdinal(o + 7) == (DutyIndexOfOrdinal(o) + 1) % TeamCount
  {
    var w := (o - ReferenceOrdinal) / 7;
    assert (o + 7 - ReferenceOrdinal) / 7 == w + 1;
    ModNext(w, TeamCount);
  }

  /** Four weeks later the same team serves again. */
  lemma FourWeeksSameTeam(o: int)
    ensures DutyIndexOfOrdinal(o + 28) == DutyIndexOfOrdinal(o)
  {
    NextWeekNextTeam(o);
    NextWeekNextTeam(o + 7);
    NextWeekNextTeam(o + 14);
    NextWeekNextTeam(o + 21);
  }

  /** `k` weeks later the team `k` places on serves, cyclically. */
  lemma {:induction false} WeeksLaterTeam(o: int, k: nat)
    ensures DutyIndexOfOrdinal(o + 7 * k) == (DutyIndexOfOrdinal(o) + k) % TeamCount
    decreases k
  {
    if k > 0 {
      WeeksLaterTeam(o, k - 1);
      NextWeekNextTeam(o + 7 * (k - 1));
      ModNext(DutyIndexOfOrdinal(o) + (k - 1), TeamCount);
    }
  }

  /** `build_message`: the subject carries the Sunday as MM/DD; the body names the team,
      its leader and every one of its members. */
  function BuildMessage(team: Team, sunday: Date): (r: (string, string))
    requires sunday.Valid()
    ensures Contains(r.1, team.name) && Contains(r.1, team.leader)
    ensures forall k :: 0 <= k < |team.members| ==> Contains(r.1, team.members[k])
  {
    MessageBodyNames(team);
    ("[식당봉사 알림] " + Pad2(sunday.month) + "/" + Pad2(sunday.day), MessageBody(team))
  }

  /** The body text of the duty message. */
  function MessageBody(team: Team): string
  {
    "이번주 식당봉사는 " + team.name + " (" + team.leader + " 조장, " + Join(", ", team.members) + ") 입니다."
  }

  lemma MessageBodyNames(team: Team)
    ensures Contains(MessageBody(team), team.name) && Contains(MessageBody(team), team.leader)
    ensures forall k :: 0 <= k < |team.members| ==> Contains(MessageBody(team), team.members[k])
  {
    var p1 := "이번주 식당봉사는 " + team.name;
    var p2 := p1 + " (" + team.leader;
    var p3 := p2 + " 조장, " + Join(", ", team.members);
    ContainsSuffix("이번주 식당봉사는 ", team.name);
    ContainsExtend(p1, team.name, " (");
    ContainsExtend(p1 + " (", team.name, team.leader);
    ContainsExtend(p2, team.name, " 조장, ");
    ContainsExtend(p2 + " 조장, ", team.name, Join(", ", team.members));
    ContainsExtend(p3, team.name, ") 입니다.");
    ContainsSuffix(p1 + " (", team.leader);
    ContainsExtend(p2, team.leader, " 조장, ");
    ContainsExtend(p2 + " 조장, ", team.leader, Join(", ", team.members));
    ContainsExtend(p3, team.leader, ") 입니다.");
    forall k | 0 <= k < |team.members| ensures Contains(MessageBody(team), team.members[k]) {
      JoinContains(", ", team.members, k);
      ContainsPrepend(p2 + " 조장, ", Join(", ", team.members), team.members[k]);
      ContainsExtend(p3, team.members[k], ") 입니다.");
    }
  }

  /** The subject's date reads back as the Sunday's month and day. */
  lemma SubjectStatesSunday(team: Team, sunday: Date)
    requires sunday.Valid()
    ensures var subject := BuildMessage(team, sunday).0;
      && |subject| == 15
      && subject[..10] == "[식당봉사 알림] "
      && subject[12] == '/'
      && DecimalValue(subject[10..12]) == sunday.month
      && DecimalValue(subject[13..15]) == sunday.day
  {
    var subject := BuildMessage(team, sunday).0;
    var mm := Pad2(sunday.month);
    var dd := Pad2(sunday.day);
    assert |"[식당봉사 알림] "| == 10;
    assert subject == "[식당봉사 알림] " + mm + "/" + dd;
    assert subject[10..12] == mm;
    assert subject[13..15] == dd;
  }

  /** What a Saturday run sends: `None` where Python raises because the next day does not
      exist (after 9999-12-31). */
  function WeeklyMessage(today: Date): (r: Option<(string, string)>)
    requires today.Valid()
    ensures r.None? <==> NextDay(today).None?
    ensures r.Some? ==> r.value == BuildMessage(DutyTeam(today), NextDay(today).value)
  {
    match NextDay(today)
    case None => None
    case Some(sunday) => Some(BuildMessage(DutyTeam(today), sunday))
  }
}
