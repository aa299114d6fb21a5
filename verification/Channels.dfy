/**
 * Release channels (`src/trackers/channels.py`): tags that name a UTC day or an ISO 8601 week,
 * and the rule that each period is published once.
 */
module Channels {
  import opened Bytes
  import opened Text

  // ---- the proleptic Gregorian calendar, as `datetime` counts it ------------------------------

  predicate Leap(y: int) { y % 4 == 0 && (y % 100 != 0 || y % 400 == 0) }

  function DaysIn(y: nat, m: nat): nat {
    if m == 2 then (if Leap(y) then 29 else 28)
    else if m == 4 || m == 6 || m == 9 || m == 11 then 30 else 31
  }

  function DaysBeforeYear(y: nat): int {
    var e := y - 1;
    e * 365 + e / 4 - e / 100 + e / 400
  }

  function DaysBeforeMonth(y: nat, m: nat): nat {
    if m <= 1 then 0 else DaysBeforeMonth(y, m - 1) + DaysIn(y, m - 1)
  }

  /** An instant in UTC, as far as a tag looks: a date and the seconds into it. */
  datatype Instant = Instant(year: nat, month: nat, day: nat, second: nat)

  predicate Valid(t: Instant) {
    1 <= t.year && 1 <= t.month <= 12 && 1 <= t.day <= DaysIn(t.year, t.month) && t.second < 86400
  }

  /** `toordinal()`: 1 is Monday, the first of January of the year 1. */
  function Ordinal(t: Instant): int {
    DaysBeforeYear(t.year) + DaysBeforeMonth(t.year, t.month) + t.day
  }

  /** Seconds since the start of the year 1. */
  function Seconds(t: Instant): int { (Ordinal(t) - 1) * 86400 + t.second }

  /** The months, by their lengths. */
  lemma {:induction false} MonthLengths(y: nat)
    ensures DaysIn(y, 1) == 31 && DaysIn(y, 3) == 31 && DaysIn(y, 4) == 30 && DaysIn(y, 5) == 31
    ensures DaysIn(y, 6) == 30 && DaysIn(y, 7) == 31 && DaysIn(y, 8) == 31 && DaysIn(y, 9) == 30
    ensures DaysIn(y, 10) == 31 && DaysIn(y, 11) == 30 && DaysIn(y, 12) == 31
    ensures DaysIn(y, 2) == if y % 400 == 0 || (y % 4 == 0 && y % 100 != 0) then 29 else 28
  {
  }

  /** Every date there is, from its first second to its last. */
  lemma {:induction false} ValidIs(t: Instant)
    ensures Valid(t) <==>
              && t.year > 0 && t.month in {1, 2, 3, 4, 5, 6, 7, 8, 9, 10, 11, 12}
              && 0 < t.day < DaysIn(t.year, t.month) + 1 && t.second <= 24 * 60 * 60 - 1
  {
  }

  function YearLength(y: nat): nat { if Leap(y) then 366 else 365 }

  lemma {:induction false} YearStep(y: nat)
    ensures DaysBeforeYear(y + 1) == DaysBeforeYear(y) + YearLength(y)
  {
    Every4(y);
    Every100(y);
    Every400(y);
    LeapByRule(y);
  }

  lemma {:induction false} Every4(y: nat)
    ensures y / 4 == (y - 1) / 4 + (if y % 4 == 0 then 1 else 0)
  {
  }

  lemma {:induction false} Every100(y: nat)
    ensures y / 100 == (y - 1) / 100 + (if y % 100 == 0 then 1 else 0)
  {
  }

  lemma {:induction false} Every400(y: nat)
    ensures y / 400 == (y - 1) / 400 + (if y % 400 == 0 then 1 else 0)
  {
  }

  lemma {:induction false} FourTimes(k: nat)
    ensures 4 * k % 4 == 0
  {
  }

  lemma {:induction false} HundredTimes(k: nat)
    ensures 100 * k % 100 == 0
  {
  }

  lemma {:induction false} HundredsAreFours(y: nat)
    requires y % 100 == 0
    ensures y % 4 == 0
  {
    assert y == 4 * (25 * (y / 100));
    FourTimes(25 * (y / 100));
  }

  lemma {:induction false} FourHundredsAreHundreds(y: nat)
    requires y % 400 == 0
    ensures y % 100 == 0
  {
    assert y == 100 * (4 * (y / 400));
    HundredTimes(4 * (y / 400));
  }

  lemma {:induction false} LeapByRule(y: nat)
    ensures YearLength(y) == 365 + (if y % 4 == 0 then 1 else 0) - (if y % 100 == 0 then 1 else 0)
                             + (if y % 400 == 0 then 1 else 0)
  {
    if y % 400 == 0 {
      FourHundredsAreHundreds(y);
    }
    if y % 100 == 0 {
      HundredsAreFours(y);
    }
  }

  lemma {:induction false} YearsGrow(a: nat, b: nat)
    requires a < b
    ensures DaysBeforeYear(a) + YearLength(a) <= DaysBeforeYear(b)
    decreases b
  {
    hide DaysBeforeYear, Leap;
    YearStep(b - 1);
    if a < b - 1 {
      YearsGrow(a, b - 1);
    }
  }

  lemma {:induction false} MonthsGrow(y: nat, a: nat, b: nat)
    requires 1 <= a < b
    ensures DaysBeforeMonth(y, a) + DaysIn(y, a) <= DaysBeforeMonth(y, b)
    decreases b
  {
    hide DaysIn;
    if a < b - 1 {
      MonthsGrow(y, a, b - 1);
    }
  }

  lemma {:induction false} MonthsFillTheYear(y: nat)
    ensures DaysBeforeMonth(y, 12) + DaysIn(y, 12) == YearLength(y)
  {
    hide Leap;
    assert DaysBeforeMonth(y, 2) == 31;
    assert DaysBeforeMonth(y, 3) == 59 + YearLength(y) - 365;
    assert DaysBeforeMonth(y, 5) == DaysBeforeMonth(y, 3) + 61;
    assert DaysBeforeMonth(y, 7) == DaysBeforeMonth(y, 5) + 61;
    assert DaysBeforeMonth(y, 9) == DaysBeforeMonth(y, 7) + 62;
    assert DaysBeforeMonth(y, 11) == DaysBeforeMonth(y, 9) + 61;
    assert DaysBeforeMonth(y, 12) == DaysBeforeMonth(y, 11) + 30;
  }

  /** The day of a date: 1 is the first of January of the year 1. */
  function DayNumber(y: nat, m: nat, d: nat): int { Ordinal(Instant(y, m, d, 0)) }

  lemma {:induction false} FirstDay()
    ensures DayNumber(1, 1, 1) == 1
  {
  }

  lemma {:induction false} NextDay(y: nat, m: nat, d: nat)
    ensures DayNumber(y, m, d + 1) == DayNumber(y, m, d) + 1
  {
    hide DaysBeforeYear, DaysBeforeMonth;
  }

  lemma {:induction false} NextMonth(y: nat, m: nat)
    requires m > 0
    ensures DayNumber(y, m + 1, 1) == DayNumber(y, m, DaysIn(y, m)) + 1
  {
    hide DaysBeforeYear, DaysIn;
  }

  lemma {:induction false} NextYear(y: nat)
    ensures DayNumber(y + 1, 1, 1) == DayNumber(y, 12, DaysIn(y, 12)) + 1
  {
    YearStep(y);
    MonthsFillTheYear(y);
    hide DaysBeforeYear, DaysIn, YearLength;
  }

  lemma {:induction false} WithinYear(t: Instant)
    requires Valid(t)
    ensures DaysBeforeYear(t.year) < Ordinal(t) <= DaysBeforeYear(t.year) + YearLength(t.year)
  {
    hide DaysBeforeYear, DaysIn, YearLength;
    MonthsFillTheYear(t.year);
    if t.month < 12 {
      MonthsGrow(t.year, t.month, 12);
    }
  }

  /** Two dates with one ordinal are one date. */
  lemma {:induction false} OrdinalInjective(a: Instant, b: Instant)
    requires Valid(a) && Valid(b) && Ordinal(a) == Ordinal(b)
    ensures a.year == b.year && a.month == b.month && a.day == b.day
  {
    hide DaysBeforeYear, DaysIn, YearLength, DaysBeforeMonth;
    WithinYear(a);
    WithinYear(b);
    if a.year < b.year {
      YearsGrow(a.year, b.year);
    } else if b.year < a.year {
      YearsGrow(b.year, a.year);
    } else if a.month < b.month {
      MonthsGrow(a.year, a.month, b.month);
    } else if b.month < a.month {
      MonthsGrow(a.year, b.month, a.month);
    }
  }

  // ---- ISO 8601 weeks ----------------------------------------------------------------------------

  /** The Monday of the week that holds the year's first Thursday. */
  function Week1Monday(y: nat): int {
    var first := DaysBeforeYear(y) + 1;
    var weekday := (first + 6) % 7;
    first - weekday + (if weekday > 3 then 7 else 0)
  }

  datatype IsoWeek = IsoWeek(year: nat, week: int)

  /** `isocalendar()`, without the weekday. */
  function IsoCalendar(t: Instant): IsoWeek
    requires t.year >= 1
  {
    var today := Ordinal(t);
    var week := (today - Week1Monday(t.year)) / 7;
    if week < 0 then IsoWeek(t.year - 1, (today - Week1Monday(t.year - 1)) / 7 + 1)
    else if week >= 52 && today >= Week1Monday(t.year + 1) then IsoWeek(t.year + 1, 1)
    else IsoWeek(t.year, week + 1)
  }

  /** The Monday on or before a day. */
  function MondayOf(ordinal: int): int { ordinal - (ordinal - 1) % 7 }

  lemma {:induction false} Week1NearNewYear(y: nat)
    ensures (Week1Monday(y) - 1) % 7 == 0
    ensures DaysBeforeYear(y) + 1 - 3 <= Week1Monday(y) <= DaysBeforeYear(y) + 1 + 3
  {
    hide DaysBeforeYear;
  }

  lemma {:induction false} IsoYearLength(y: nat)
    ensures Week1Monday(y + 1) - Week1Monday(y) == 364 || Week1Monday(y + 1) - Week1Monday(y) == 371
  {
    hide DaysBeforeYear, Week1Monday;
    Week1NearNewYear(y);
    Week1NearNewYear(y + 1);
    YearStep(y);
  }

  /** `isocalendar` names the week by its Monday: it lies in that ISO year, that many weeks in. */
  lemma {:induction false} IsoNamesMonday(t: Instant)
    requires Valid(t)
    ensures var iso := IsoCalendar(t);
            && 1 <= iso.week <= 53
            && MondayOf(Ordinal(t)) == Week1Monday(iso.year) + 7 * (iso.week - 1)
            && Week1Monday(iso.year) <= MondayOf(Ordinal(t)) < Week1Monday(iso.year + 1)
  {
    hide DaysBeforeYear, Week1Monday, Ordinal, YearLength;
    var y := t.year;
    WithinYear(t);
    YearLengths(y);
    YearLengths(y - 1);
    YearStep(y);
    YearStep(y - 1);
    Week1NearNewYear(y - 1);
    Week1NearNewYear(y);
    Week1NearNewYear(y + 1);
    IsoYearLength(y - 1);
    IsoYearLength(y);
    IsoYearLength(y + 1);
  }

  lemma {:induction false} YearLengths(y: nat)
    ensures 365 <= YearLength(y) <= 366
  {
  }

  lemma {:induction false} IsoYearsGrow(a: nat, b: nat)
    requires a < b
    ensures Week1Monday(a + 1) <= Week1Monday(b)
    decreases b
  {
    hide Week1Monday;
    if a + 1 < b {
      IsoYearsGrow(a, b - 1);
      IsoYearLength(b - 1);
    }
  }

  /** Two days carry one ISO year and week exactly when one Monday starts their week. */
  lemma {:induction false} SameIsoWeek(a: Instant, b: Instant)
    requires Valid(a) && Valid(b)
    ensures IsoCalendar(a) == IsoCalendar(b) <==> MondayOf(Ordinal(a)) == MondayOf(Ordinal(b))
  {
    hide Week1Monday, IsoCalendar, Ordinal, MondayOf, DaysIn;
    IsoNamesMonday(a);
    IsoNamesMonday(b);
    OneWeekEach(IsoCalendar(a), IsoCalendar(b), MondayOf(Ordinal(a)), MondayOf(Ordinal(b)));
  }

  lemma {:induction false} OneWeekEach(p: IsoWeek, q: IsoWeek, m: int, n: int)
    requires m == Week1Monday(p.year) + 7 * (p.week - 1) && Week1Monday(p.year) <= m < Week1Monday(p.year + 1)
    requires n == Week1Monday(q.year) + 7 * (q.week - 1) && Week1Monday(q.year) <= n < Week1Monday(q.year + 1)
    ensures p == q <==> m == n
  {
    hide Week1Monday;
    if p.year < q.year {
      IsoYearsGrow(p.year, q.year);
    } else if q.year < p.year {
      IsoYearsGrow(q.year, p.year);
    }
  }

  // ---- tags ------------------------------------------------------------------------------------

  datatype Channel = Rolling | Daily | Weekly

  type Tag = seq<byte>

  const DASH: byte := 45

  function TwoDigits(n: nat): (ds: seq<byte>)
    requires n < 100
    ensures |ds| == 2
  {
    [48 + n / 10, 48 + n % 10]
  }

  function DailyTag(t: Instant): Tag
    requires Valid(t)
  {
    Ascii("daily-") + (Digits(t.year) + ([DASH] + (TwoDigits(t.month) + ([DASH] + TwoDigits(t.day)))))
  }

  function WeeklyTag(t: Instant): Tag
    requires Valid(t)
  {
    IsoNamesMonday(t);
    var iso := IsoCalendar(t);
    Ascii("weekly-") + (Digits(iso.year) + (Ascii("-W") + TwoDigits(iso.week)))
  }

  function TagFor(c: Channel, t: Instant): Tag
    requires Valid(t)
  {
    match c case Rolling => Ascii("rolling") case Daily => DailyTag(t) case Weekly => WeeklyTag(t)
  }

  /** The periods themselves, with no calendar in sight: UTC days, and weeks from Monday. */
  predicate SamePeriod(c: Channel, a: Instant, b: Instant) {
    match c
    case Rolling => true
    case Daily => Seconds(a) / 86400 == Seconds(b) / 86400
    case Weekly => Seconds(a) / 604800 == Seconds(b) / 604800
  }

  lemma {:induction false} CutFront<T>(p: seq<T>, a: seq<T>, b: seq<T>)
    requires p + a == p + b
    ensures a == b
  {
    assert a == (p + a)[|p|..] && b == (p + b)[|p|..];
  }

  /** Equally long ends: the parts in front agree, and so do the ends. */
  lemma {:induction false} CutEnd<T>(a: seq<T>, x: seq<T>, b: seq<T>, y: seq<T>)
    requires a + x == b + y && |x| == |y|
    ensures a == b && x == y
  {
    assert |a| == |b|;
    assert a == (a + x)[..|a|] && b == (b + y)[..|b|];
    CutFront(a, x, y);
  }

  lemma {:induction false} TwoDigitsInjective(m: nat, n: nat)
    requires m < 100 && n < 100 && TwoDigits(m) == TwoDigits(n)
    ensures m == n
  {
    assert TwoDigits(m)[0] == 48 + m / 10 && TwoDigits(n)[0] == 48 + n / 10;
    assert TwoDigits(m)[1] == 48 + m % 10 && TwoDigits(n)[1] == 48 + n % 10;
  }

  /** A day is numbered by its seconds, and its Monday by its week. */
  lemma {:induction false} PeriodsByOrdinal(a: Instant, b: Instant)
    requires Valid(a) && Valid(b)
    ensures SamePeriod(Daily, a, b) <==> Ordinal(a) == Ordinal(b)
    ensures SamePeriod(Weekly, a, b) <==> MondayOf(Ordinal(a)) == MondayOf(Ordinal(b))
  {
    hide Ordinal;
    DayAndWeek(Ordinal(a), a.second);
    DayAndWeek(Ordinal(b), b.second);
  }

  lemma {:induction false} DayAndWeek(ordinal: int, second: nat)
    requires second < 86400
    ensures ((ordinal - 1) * 86400 + second) / 86400 == ordinal - 1
    ensures ((ordinal - 1) * 86400 + second) / 604800 == (ordinal - 1) / 7
    ensures MondayOf(ordinal) == (ordinal - 1) / 7 * 7 + 1
  {
    var week, day := (ordinal - 1) / 7, (ordinal - 1) % 7;
    assert (ordinal - 1) * 86400 + second == week * 604800 + (day * 86400 + second);
  }

  /** Two instants share a daily tag exactly when they share a UTC day. */
  lemma {:induction false} DailyTagsNameDays(a: Instant, b: Instant)
    requires Valid(a) && Valid(b)
    ensures DailyTag(a) == DailyTag(b) <==> SamePeriod(Daily, a, b)
  {
    hide Digits, TwoDigits, Ordinal, SamePeriod;
    PeriodsByOrdinal(a, b);
    if DailyTag(a) == DailyTag(b) {
      DailyTagParts(a, b);
      assert Ordinal(a) == Ordinal(b) by { SameDateSameOrdinal(a, b); }
    }
    if Ordinal(a) == Ordinal(b) {
      OrdinalInjective(a, b);
    }
  }

  lemma {:induction false} SameDateSameOrdinal(a: Instant, b: Instant)
    requires a.year == b.year && a.month == b.month && a.day == b.day
    ensures Ordinal(a) == Ordinal(b)
  {
  }

  lemma {:induction false} DailyTagParts(a: Instant, b: Instant)
    requires Valid(a) && Valid(b) && DailyTag(a) == DailyTag(b)
    ensures a.year == b.year && a.month == b.month && a.day == b.day
  {
    hide Digits, TwoDigits;
    var restA := [DASH] + (TwoDigits(a.month) + ([DASH] + TwoDigits(a.day)));
    var restB := [DASH] + (TwoDigits(b.month) + ([DASH] + TwoDigits(b.day)));
    CutFront(Ascii("daily-"), Digits(a.year) + restA, Digits(b.year) + restB);
    CutEnd(Digits(a.year), restA, Digits(b.year), restB);
    CutFront([DASH], TwoDigits(a.month) + ([DASH] + TwoDigits(a.day)),
             TwoDigits(b.month) + ([DASH] + TwoDigits(b.day)));
    CutEnd(TwoDigits(a.month), [DASH] + TwoDigits(a.day), TwoDigits(b.month), [DASH] + TwoDigits(b.day));
    CutFront([DASH], TwoDigits(a.day), TwoDigits(b.day));
    DigitsInjective(a.year, b.year);
    TwoDigitsInjective(a.month, b.month);
    TwoDigitsInjective(a.day, b.day);
  }

  /** Two instants share a weekly tag exactly when they share a UTC week from Monday to Sunday. */
  lemma {:induction false} WeeklyTagsNameWeeks(a: Instant, b: Instant)
    requires Valid(a) && Valid(b)
    ensures WeeklyTag(a) == WeeklyTag(b) <==> SamePeriod(Weekly, a, b)
  {
    hide Digits, TwoDigits, Ordinal, SamePeriod, IsoCalendar, MondayOf;
    PeriodsByOrdinal(a, b);
    SameIsoWeek(a, b);
    IsoNamesMonday(a);
    IsoNamesMonday(b);
    var p, q := IsoCalendar(a), IsoCalendar(b);
    if WeeklyTag(a) == WeeklyTag(b) {
      var restA, restB := Ascii("-W") + TwoDigits(p.week), Ascii("-W") + TwoDigits(q.week);
      CutFront(Ascii("weekly-"), Digits(p.year) + restA, Digits(q.year) + restB);
      CutEnd(Digits(p.year), restA, Digits(q.year), restB);
      CutFront(Ascii("-W"), TwoDigits(p.week), TwoDigits(q.week));
      DigitsInjective(p.year, q.year);
      TwoDigitsInjective(p.week, q.week);
    }
  }

  lemma {:induction false} TwoDigitsRead(n: nat)
    requires n < 100
    ensures AllDigits(TwoDigits(n)) && Value(TwoDigits(n)) == n && DASH !in TwoDigits(n)
  {
    var ds := TwoDigits(n);
    assert ds[..1] == [ds[0]] && [ds[0]][..0] == [];
    assert Value([ds[0]]) == ds[0] - 48 by { assert Value([]) == 0; }
  }

  lemma {:induction false} DigitsRead(n: nat)
    ensures AllDigits(Digits(n)) && Value(Digits(n)) == n && DASH !in Digits(n)
  {
    ValueDigits(n);
    assert forall i :: 0 <= i < |Digits(n)| ==> IsDigit(Digits(n)[i]);
  }

  /** A daily tag spells year, month and day, in this order, between dashes, the last two in two digits. */
  lemma {:induction false} DailyTagReads(t: Instant)
    requires Valid(t)
    ensures var parts := Split<byte>(DailyTag(t), 45);
            && |parts| == 4 && parts[0] == Ascii("daily") && |parts[2]| == |parts[3]| == 2
            && AllDigits(parts[1]) && AllDigits(parts[2]) && AllDigits(parts[3])
            && Value(parts[1]) == t.year && Value(parts[2]) == t.month && Value(parts[3]) == t.day
  {
    var y, m, d := Digits(t.year), TwoDigits(t.month), TwoDigits(t.day);
    DigitsRead(t.year);
    TwoDigitsRead(t.month);
    TwoDigitsRead(t.day);
    hide Digits, TwoDigits, Value;
    assert Ascii("daily-") == Ascii("daily") + [DASH] && DASH !in Ascii("daily");
    JoinFour(Ascii("daily"), y, m, d, DASH);
    assert DailyTag(t) == Join([Ascii("daily"), y, m, d], DASH);
    SplitJoin([Ascii("daily"), y, m, d], DASH);
  }

  lemma {:induction false} JoinFour(a: Tag, b: Tag, c: Tag, d: Tag, sep: byte)
    ensures Join([a, b, c, d], sep) == a + [sep] + (b + ([sep] + (c + ([sep] + d))))
  {
    JoinCons(a, [b, c, d], sep);
    JoinCons(b, [c, d], sep);
    JoinCons(c, [d], sep);
    assert [a] + [b, c, d] == [a, b, c, d] && [b] + [c, d] == [b, c, d] && [c] + [d] == [c, d];
  }

  /** A weekly tag spells the year and, behind a `W`, the week of the Monday it names. */
  lemma {:induction false} WeeklyTagReads(t: Instant)
    requires Valid(t)
    ensures var parts := Split<byte>(WeeklyTag(t), 45);
            && |parts| == 3 && parts[0] == Ascii("weekly") && |parts[2]| == 3 && parts[2][0] == 'W' as int
            && AllDigits(parts[1]) && AllDigits(parts[2][1..])
            && Value(parts[1]) == IsoCalendar(t).year && Value(parts[2][1..]) == IsoCalendar(t).week
    ensures TagFor(Rolling, t) == Ascii("rolling")
    ensures TagFor(Daily, t) == DailyTag(t) && TagFor(Weekly, t) == WeeklyTag(t)
  {
    IsoNamesMonday(t);
    var iso := IsoCalendar(t);
    var y, w := Digits(iso.year), TwoDigits(iso.week);
    DigitsRead(iso.year);
    TwoDigitsRead(iso.week);
    hide Digits, TwoDigits, Value, IsoCalendar;
    var week := Ascii("W") + w;
    assert Ascii("W") == ['W' as int];
    assert Ascii("weekly-") == Ascii("weekly") + [DASH] && DASH !in Ascii("weekly") && DASH !in week;
    assert Ascii("-W") == [DASH] + Ascii("W") && week[1..] == w;
    JoinCons(Ascii("weekly"), [y, week], DASH);
    JoinCons(y, [week], DASH);
    assert [Ascii("weekly")] + [y, week] == [Ascii("weekly"), y, week] && [y] + [week] == [y, week];
    assert WeeklyTag(t) == Join([Ascii("weekly"), y, week], DASH);
    SplitJoin([Ascii("weekly"), y, week], DASH);
  }

  /** A channel's tags are its own. */
  lemma {:induction false} TagsByChannel(c: Channel, a: Instant, d: Channel, b: Instant)
    requires Valid(a) && Valid(b)
    ensures TagFor(c, a) == TagFor(d, b) <==> c == d && SamePeriod(c, a, b)
  {
    hide Digits, TwoDigits, SamePeriod, IsoCalendar, Valid;
    if c == d {
      match c {
        case Rolling => assert SamePeriod(Rolling, a, b) by { RollingIsOnePeriod(a, b); }
        case Daily => DailyTagsNameDays(a, b);
        case Weekly => WeeklyTagsNameWeeks(a, b);
      }
    } else {
      assert TagFor(c, a)[0] == ByteOf(match c case Rolling => 'r' case Daily => 'd' case Weekly => 'w');
      assert TagFor(d, b)[0] == ByteOf(match d case Rolling => 'r' case Daily => 'd' case Weekly => 'w');
    }
  }

  lemma {:induction false} RollingIsOnePeriod(a: Instant, b: Instant)
    ensures SamePeriod(Rolling, a, b)
  {
  }

  // ---- runs -------------------------------------------------------------------------------------

  datatype Run = Run(at: Instant, succeeded: bool, suspicious: bool, count: int)

  predicate Promotable(r: Run) { r.succeeded && r.count > 0 && !r.suspicious }

  /** `due`. */
  predicate Due(c: Channel, t: Instant, published: set<Tag>)
    requires Valid(t)
  {
    c == Rolling || TagFor(c, t) !in published
  }

  predicate Publishes(c: Channel, r: Run, published: set<Tag>)
    requires Valid(r.at)
  {
    Promotable(r) && Due(c, r.at, published)
  }

  /** The tags on the remote after some runs. */
  function TagsAfter(start: set<Tag>, runs: seq<Run>): set<Tag>
    requires forall r :: r in runs ==> Valid(r.at)
  {
    if runs == [] then start
    else
      var n := |runs| - 1;
      var before := TagsAfter(start, runs[..n]);
      before + NewTags(runs[n], before)
  }

  /** What one run adds. */
  function NewTags(r: Run, published: set<Tag>): set<Tag>
    requires Valid(r.at)
  {
    set c: Channel | Publishes(c, r, published) :: TagFor(c, r.at)
  }

  lemma {:induction false} NewTagOf(r: Run, published: set<Tag>, c: Channel, t: Instant)
    requires Valid(r.at) && Valid(t)
    ensures TagFor(c, t) in published + NewTags(r, published)
       <==> TagFor(c, t) in published || (Promotable(r) && SamePeriod(c, r.at, t))
  {
    hide TagFor, SamePeriod, Promotable, Valid;
    TagsByChannel(c, r.at, c, t);
    if TagFor(c, t) in NewTags(r, published) {
      var d: Channel :| Publishes(d, r, published) && TagFor(d, r.at) == TagFor(c, t);
      TagsByChannel(d, r.at, c, t);
    }
    if Promotable(r) && SamePeriod(c, r.at, t) && TagFor(c, t) !in published {
      assert Publishes(c, r, published);
      assert TagFor(c, r.at) in NewTags(r, published);
    }
  }

  ghost predicate Tagged(start: set<Tag>, runs: seq<Run>, c: Channel, t: Instant)
    requires Valid(t)
  {
    TagFor(c, t) in start || exists j :: 0 <= j < |runs| && Promotable(runs[j]) && SamePeriod(c, runs[j].at, t)
  }

  lemma {:induction false} TagsOfPeriods(start: set<Tag>, runs: seq<Run>, c: Channel, t: Instant)
    requires (forall r :: r in runs ==> Valid(r.at)) && Valid(t)
    ensures TagFor(c, t) in TagsAfter(start, runs) <==> Tagged(start, runs, c, t)
  {
    hide TagFor, SamePeriod, Promotable, Valid, NewTags;
    if runs != [] {
      var n := |runs| - 1;
      assert runs == runs[..n] + [runs[n]];
      assert runs[n] in runs;
      var before := TagsAfter(start, runs[..n]);
      TagsOfPeriods(start, runs[..n], c, t);
      NewTagOf(runs[n], before, c, t);
      assert Tagged(start, runs, c, t)
        <==> Tagged(start, runs[..n], c, t) || (Promotable(runs[n]) && SamePeriod(c, runs[n].at, t));
    }
  }

  lemma {:induction false} TaggedByPrefix(start: set<Tag>, runs: seq<Run>, i: nat, c: Channel, t: Instant)
    requires Valid(t) && i <= |runs|
    ensures Tagged(start, runs[..i], c, t) <==>
              TagFor(c, t) in start
              || !(forall j :: 0 <= j < i && Promotable(runs[j]) ==> !SamePeriod(c, runs[j].at, t))
  {
    hide TagFor, SamePeriod, Promotable, Valid;
    assert forall j :: 0 <= j < i ==> runs[..i][j] == runs[j];
  }

  /**
   * Over any runs, in any order of their instants: a run publishes on a channel exactly when it
   * succeeded, counted a tracker, and is not suspicious, and, for a daily or weekly release, the
   * period's tag was not there to begin with and no earlier run of that period was such a run.
   */
  lemma {:induction false} FirstOfEachPeriod(start: set<Tag>, runs: seq<Run>, i: nat, c: Channel)
    requires (forall r :: r in runs ==> Valid(r.at)) && i < |runs|
    ensures Publishes(c, runs[i], TagsAfter(start, runs[..i])) <==>
              && runs[i].succeeded && runs[i].count > 0 && !runs[i].suspicious
              && (c == Rolling || (TagFor(c, runs[i].at) !in start &&
                   forall j :: 0 <= j < i && runs[j].succeeded && runs[j].count > 0 && !runs[j].suspicious ==>
                     !SamePeriod(c, runs[j].at, runs[i].at)))
  {
    hide TagFor, SamePeriod, Valid, TagsAfter;
    assert runs[i] in runs;
    TagsOfPeriods(start, runs[..i], c, runs[i].at);
    hide Tagged;
    TaggedByPrefix(start, runs, i, c, runs[i].at);
  }

  /** What the remote holds after some runs: what was there, and the tags of every run that could publish. */
  lemma {:induction false} TagsExactly(start: set<Tag>, runs: seq<Run>, tag: Tag)
    requires forall r :: r in runs ==> Valid(r.at)
    ensures tag in TagsAfter(start, runs) <==>
              tag in start || exists j, c: Channel ::
                && 0 <= j < |runs| && runs[j].succeeded && runs[j].count > 0 && !runs[j].suspicious
                && tag == TagFor(c, runs[j].at)
  {
    hide TagFor, Valid;
    if runs != [] {
      var n := |runs| - 1;
      assert runs == runs[..n] + [runs[n]];
      TagsExactly(start, runs[..n], tag);
      assert forall j :: 0 <= j < n ==> runs[..n][j] == runs[j];
      assert runs[n] in runs;
      NewTagsExactly(runs[n], TagsAfter(start, runs[..n]), tag);
      hide NewTags;
    }
  }

  lemma {:induction false} NewTagsExactly(r: Run, before: set<Tag>, tag: Tag)
    requires Valid(r.at)
    ensures tag in before + NewTags(r, before) <==>
              tag in before || exists c: Channel ::
                && r.succeeded && r.count > 0 && !r.suspicious && tag == TagFor(c, r.at)
  {
    hide TagFor, Valid;
    forall c: Channel | Promotable(r) && tag == TagFor(c, r.at) && tag !in before ensures tag in NewTags(r, before) {
      assert Publishes(c, r, before);
    }
  }

  /** So no daily or weekly tag is ever published twice. */
  lemma {:induction false} NeverRepublished(start: set<Tag>, runs: seq<Run>, i: nat, j: nat, c: Channel)
    requires (forall r :: r in runs ==> Valid(r.at)) && i < j < |runs| && c != Rolling
    requires Publishes(c, runs[i], TagsAfter(start, runs[..i]))
    requires Publishes(c, runs[j], TagsAfter(start, runs[..j]))
    ensures TagFor(c, runs[i].at) != TagFor(c, runs[j].at)
  {
    hide TagFor, SamePeriod, Valid, TagsAfter;
    FirstOfEachPeriod(start, runs, j, c);
    assert runs[i] in runs && runs[j] in runs;
    TagsByChannel(c, runs[i].at, c, runs[j].at);
  }
}
