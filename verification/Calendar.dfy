/** The Gregorian calendar of JavaScript dates (times in milliseconds since
    1970-01-01 UTC) and the next-date rule of recurring orders. */
module Calendar {
  import opened Common

  const MS_PER_DAY := 86_400_000

  /** The largest time a JavaScript date can hold: 100,000,000 days. */
  const MAX_DAY := 100_000_000
  const MAX_TIME := MAX_DAY * MS_PER_DAY

  // ----- months -----

  predicate IsLeap(y: int)
  {
    y % 4 == 0 && (y % 100 != 0 || y % 400 == 0)
  }

  function DaysInMonth(y: int, m: int): (n: nat)
    ensures 28 <= n <= 31
  {
    if m == 1 then (if IsLeap(y) then 29 else 28)
    else if m == 3 || m == 5 || m == 8 || m == 10 then 30
    else 31
  }

  /** Months are counted through the years: month m (0 to 11) of year y is 12 * y + m. */
  function YearOf(month: int): int
  {
    month / 12
  }

  function MonthLength(month: int): (n: nat)
    ensures 28 <= n <= 31
  {
    DaysInMonth(YearOf(month), month % 12)
  }

  /** Number of the first day of a year, counted from 1970-01-01. */
  function DayFromYear(y: int): int
  {
    365 * (y - 1970) + (y - 1969) / 4 - (y - 1901) / 100 + (y - 1601) / 400
  }

  function DaysBefore(y: int, m: nat): int
  {
    if m == 0 then 0 else DaysBefore(y, m - 1) + DaysInMonth(y, m - 1)
  }

  /** Number of the first day of a month, by the formula of the ECMAScript
      specification (Day Numbers). */
  function FormulaStart(month: int): int
  {
    DayFromYear(YearOf(month)) + DaysBefore(YearOf(month), month % 12)
  }

  const EPOCH_MONTH := 12 * 1970

  /** Number of the first day of a month, counting months from the epoch. */
  function MonthStart(month: int): int
    decreases if month < EPOCH_MONTH then EPOCH_MONTH - month else month - EPOCH_MONTH
  {
    if month == EPOCH_MONTH then 0
    else if month > EPOCH_MONTH then MonthStart(month - 1) + MonthLength(month - 1)
    else MonthStart(month + 1) - MonthLength(month)
  }

  lemma YearLength(y: int)
    ensures DayFromYear(y + 1) == DayFromYear(y) + DaysBefore(y, 12)
  {
    assert DaysBefore(y, 12) == if IsLeap(y) then 366 else 365 by {
      var d := if IsLeap(y) then 29 else 28;
      assert DaysBefore(y, 1) == 31 && DaysBefore(y, 2) == 31 + d;
      assert DaysBefore(y, 4) == 92 + d;
      assert DaysBefore(y, 6) == 153 + d;
      assert DaysBefore(y, 8) == 215 + d;
      assert DaysBefore(y, 10) == 276 + d;
    }
    LeapDays(y);
  }

  lemma Fours(y: int)
    ensures (y + 1 - 1969) / 4 - (y - 1969) / 4 == if y % 4 == 0 then 1 else 0
  {
  }

  lemma Hundreds(y: int)
    ensures (y + 1 - 1901) / 100 - (y - 1901) / 100 == if y % 100 == 0 then 1 else 0
  {
  }

  lemma FourHundreds(y: int)
    ensures (y + 1 - 1601) / 400 - (y - 1601) / 400 == if y % 400 == 0 then 1 else 0
  {
  }

  lemma FourDividesHundred(c: int)
    ensures (100 * c) % 4 == 0
  {
  }

  lemma HundredDividesFourHundred(c: int)
    ensures (400 * c) % 100 == 0
  {
  }

  lemma LeapDays(y: int)
    ensures DayFromYear(y + 1) - DayFromYear(y) == if IsLeap(y) then 366 else 365
  {
    Fours(y);
    Hundreds(y);
    FourHundreds(y);
    FourDividesHundred(y / 100);
    HundredDividesFourHundred(y / 400);
  }

  lemma NextMonthOf(month: int)
    ensures month % 12 == 11 ==> YearOf(month + 1) == YearOf(month) + 1 && (month + 1) % 12 == 0
    ensures month % 12 != 11 ==> YearOf(month + 1) == YearOf(month) && (month + 1) % 12 == month % 12 + 1
  {
  }

  lemma FormulaStep(month: int)
    ensures FormulaStart(month + 1) == FormulaStart(month) + MonthLength(month)
  {
    hide YearOf, DayFromYear, DaysInMonth;
    NextMonthOf(month);
    YearLength(YearOf(month));
  }

  lemma Epoch()
    ensures FormulaStart(EPOCH_MONTH) == 0
  {
    assert EPOCH_MONTH == 23640;
    assert YearOf(23640) == 1970 && 23640 % 12 == 0;
    assert DayFromYear(1970) == 0 && DaysBefore(1970, 0) == 0;
  }

  /** Counting month by month agrees with the closed formula. */
  lemma {:induction false} MonthStartFormula(month: int)
    ensures MonthStart(month) == FormulaStart(month)
    decreases if month < EPOCH_MONTH then EPOCH_MONTH - month else month - EPOCH_MONTH
  {
    hide FormulaStart, MonthLength;
    if month == EPOCH_MONTH {
      Epoch();
    } else if month > EPOCH_MONTH {
      MonthStartFormula(month - 1);
      FormulaStep(month - 1);
    } else {
      MonthStartFormula(month + 1);
      FormulaStep(month);
    }
  }

  lemma DaysBeforeAre(y: int, leap: int)
    requires leap == if (y % 4 == 0 && y % 100 != 0) || y % 400 == 0 then 1 else 0
    ensures DaysBefore(y, 0) == 0 && DaysBefore(y, 1) == 31 && DaysBefore(y, 2) == 59 + leap
    ensures DaysBefore(y, 3) == 90 + leap && DaysBefore(y, 4) == 120 + leap && DaysBefore(y, 5) == 151 + leap
    ensures DaysBefore(y, 6) == 181 + leap && DaysBefore(y, 7) == 212 + leap && DaysBefore(y, 8) == 243 + leap
    ensures DaysBefore(y, 9) == 273 + leap && DaysBefore(y, 10) == 304 + leap && DaysBefore(y, 11) == 334 + leap
    ensures DaysBefore(y, 12) == 365 + leap
  {
    assert IsLeap(y) <==> leap == 1 by {
      FourDividesHundred(y / 100);
      HundredDividesFourHundred(y / 400);
    }
    hide IsLeap;
    assert DaysBefore(y, 1) == 31;
    assert DaysBefore(y, 2) == 59 + leap;
    assert DaysBefore(y, 3) == 90 + leap;
    assert DaysBefore(y, 4) == 120 + leap;
    assert DaysBefore(y, 5) == 151 + leap;
    assert DaysBefore(y, 6) == 181 + leap;
    assert DaysBefore(y, 7) == 212 + leap;
    assert DaysBefore(y, 8) == 243 + leap;
    assert DaysBefore(y, 9) == 273 + leap;
    assert DaysBefore(y, 10) == 304 + leap;
    assert DaysBefore(y, 11) == 334 + leap;
  }

  lemma StartInYear(y: int, m: nat)
    requires m < 12
    ensures MonthStart(12 * y + m) == DayFromYear(y) + DaysBefore(y, m)
  {
    hide MonthStart, DayFromYear, DaysBefore;
    MonthStartFormula(12 * y + m);
  }

  /** The days of the year before each month, one more from March on in a leap year. */
  const DAYS_TO_MONTH := [0, 31, 59, 90, 120, 151, 181, 212, 243, 273, 304, 334, 365]

  lemma DaysToMonth(y: int, m: nat)
    requires m <= 12
    ensures var leap := if (y % 4 == 0 && y % 100 != 0) || y % 400 == 0 then 1 else 0;
            DaysBefore(y, m) == DAYS_TO_MONTH[m] + if m >= 2 then leap else 0
  {
    var leap := if (y % 4 == 0 && y % 100 != 0) || y % 400 == 0 then 1 else 0;
    DaysBeforeAre(y, leap);
    hide DaysBefore;
    assert m == 0 || m == 1 || m == 2 || m == 3 || m == 4 || m == 5 || m == 6
        || m == 7 || m == 8 || m == 9 || m == 10 || m == 11 || m == 12;
  }

  /** The first day of a month, by the day numbers of the ECMAScript
      specification (Day Numbers, Month Number). */
  function FirstDay(y: int, m: nat): int
    requires m <= 12
  {
    DayFromYear(y) + DAYS_TO_MONTH[m]
    + if m >= 2 && ((y % 4 == 0 && y % 100 != 0) || y % 400 == 0) then 1 else 0
  }

  /** Every month starts where the specification says. */
  lemma MonthBoundary(y: int, m: nat)
    requires m <= 12
    ensures MonthStart(12 * y + m) == FirstDay(y, m)
  {
    hide MonthStart, DayFromYear, DaysBefore;
    DaysToMonth(y, m);
    if m < 12 {
      StartInYear(y, m);
    } else {
      StartInYear(y + 1, 0);
      YearLength(y);
      NothingBefore(y + 1);
      assert 12 * (y + 1) + 0 == 12 * y + m;
    }
  }

  lemma NothingBefore(y: int)
    ensures DaysBefore(y, 0) == 0
  {
  }

  /** Each month starts where the one before it ends. */
  lemma MonthStartStep(month: int)
    ensures MonthStart(month + 1) == MonthStart(month) + MonthLength(month)
  {
    hide MonthLength;
  }

  lemma {:induction false} MonthStartMonotone(a: int, b: int)
    requires a <= b
    ensures MonthStart(a) + 28 * (b - a) <= MonthStart(b) <= MonthStart(a) + 31 * (b - a)
    decreases b - a
  {
    if a < b {
      MonthStartMonotone(a, b - 1);
      MonthStartStep(b - 1);
    }
  }

  lemma Mod4(y: int)
    ensures (y + 400) % 4 == y % 4
  {
  }

  lemma Mod100(y: int)
    ensures (y + 400) % 100 == y % 100
  {
  }

  lemma Mod400(y: int)
    ensures (y + 400) % 400 == y % 400
  {
  }

  lemma LeapPeriod(y: int)
    ensures IsLeap(y + 400) == IsLeap(y)
  {
    Mod4(y);
    Mod100(y);
    Mod400(y);
  }

  lemma DaysIn400Years(y: int)
    ensures DayFromYear(y + 400) == DayFromYear(y) + 146_097
  {
    assert (y - 1969 + 400) / 4 == (y - 1969) / 4 + 100;
    assert (y - 1901 + 400) / 100 == (y - 1901) / 100 + 4;
    assert (y - 1601 + 400) / 400 == (y - 1601) / 400 + 1;
  }

  lemma SameMonth(month: int)
    ensures YearOf(month + 4800) == YearOf(month) + 400 && (month + 4800) % 12 == month % 12
  {
  }

  lemma {:induction false} SameMonthsBefore(y: int, m: nat)
    ensures DaysBefore(y + 400, m) == DaysBefore(y, m)
  {
    hide IsLeap;
    if m > 0 {
      SameMonthsBefore(y, m - 1);
      LeapPeriod(y);
    }
  }

  /** The calendar repeats every 400 years, that is every 146,097 days. */
  lemma GregorianCycle(month: int)
    ensures MonthStart(month + 4800) == MonthStart(month) + 146_097
  {
    MonthStartFormula(month);
    MonthStartFormula(month + 4800);
    hide DayFromYear, YearOf, MonthStart;
    SameMonth(month);
    DaysIn400Years(YearOf(month));
    SameMonthsBefore(YearOf(month), month % 12);
  }

  // ----- dates -----

  /** A date: its month, its day of the month from 1, and the time of day. */
  datatype Date = Date(month: int, day: int, ms: int)
  {
    predicate Valid()
    {
      1 <= day <= MonthLength(month) && 0 <= ms < MS_PER_DAY
    }
  }

  /** The time value of a date. */
  function Compose(d: Date): int
  {
    (MonthStart(d.month) + d.day - 1) * MS_PER_DAY + d.ms
  }

  /** How far the search for the month of a day still has to go. */
  function Distance(day: int, guess: int): nat
  {
    if day < MonthStart(guess) then MonthStart(guess) - day else day - MonthStart(guess)
  }

  /** The month that contains a day, searched from a starting guess. */
  function FindMonth(day: int, guess: int): (month: int)
    ensures MonthStart(month) <= day < MonthStart(month) + MonthLength(month)
    decreases day < MonthStart(guess), Distance(day, guess)
  {
    hide MonthStart, MonthLength;
    MonthStartStep(guess);
    MonthStartStep(guess - 1);
    if day < MonthStart(guess) then FindMonth(day, guess - 1)
    else if day >= MonthStart(guess + 1) then FindMonth(day, guess + 1)
    else guess
  }

  /** The date of a time value. */
  function Decompose(t: int): (d: Date)
    ensures d.Valid()
  {
    var day := t / MS_PER_DAY;
    var month := FindMonth(day, EPOCH_MONTH);
    Date(month, day - MonthStart(month) + 1, t % MS_PER_DAY)
  }

  lemma ComposeDecompose(t: int)
    ensures Compose(Decompose(t)) == t
  {
  }

  /** A valid date is the date of its own time value, and of no other. */
  lemma DecomposeCompose(d: Date)
    requires d.Valid()
    ensures Decompose(Compose(d)) == d
  {
    hide MonthStart, MonthLength;
    var day := MonthStart(d.month) + d.day - 1;
    DayOfTime(day, d.ms);
    MonthIsUnique(day, d.month, FindMonth(day, EPOCH_MONTH));
  }

  lemma DayOfTime(day: int, ms: int)
    requires 0 <= ms < MS_PER_DAY
    ensures (day * MS_PER_DAY + ms) / MS_PER_DAY == day
    ensures (day * MS_PER_DAY + ms) % MS_PER_DAY == ms
  {
  }

  lemma MonthIsUnique(day: int, a: int, b: int)
    requires MonthStart(a) <= day < MonthStart(a) + MonthLength(a)
    requires MonthStart(b) <= day < MonthStart(b) + MonthLength(b)
    ensures a == b
  {
    hide MonthStart, MonthLength;
    MonthStartStep(a);
    MonthStartStep(b);
    if a < b {
      MonthStartMonotone(a + 1, b);
    } else if b < a {
      MonthStartMonotone(b + 1, a);
    }
  }

  // ----- the next date of a recurring order -----

  /** A JavaScript Date: a time value, or Invalid Date. */
  datatype JsDate = Invalid | Time(ms: int)

  function TimeClip(t: int): JsDate
  {
    if -MAX_TIME <= t <= MAX_TIME then Time(t) else Invalid
  }

  /** Date.UTC reads the years 0 to 99 as 1900 to 1999. */
  function FullYear(y: int): int
  {
    if 0 <= y <= 99 then 1900 + y else y
  }

  /** Date.UTC: a month past the end of the year and a day 0 both carry over. */
  function DateUtc(y: int, m: int, day: int, ms: int): JsDate
  {
    TimeClip((MonthStart(12 * FullYear(y) + m) + day - 1) * MS_PER_DAY + ms)
  }

  datatype Repeat = Once | Daily | Weekly | Monthly

  /** One calendar month later, clamped to the last day of that month. */
  function NextMonthly(t: int): JsDate
  {
    var cur := Decompose(t);
    var y, m := YearOf(cur.month), cur.month % 12;
    var targetYear := if m == 11 then y + 1 else y;
    var targetMonth := (m + 1) % 12;
    match DateUtc(targetYear, targetMonth + 1, 0, 0)
    case Invalid => Invalid
    case Time(last) =>
      var day := Min(cur.day, Decompose(last).day);
      DateUtc(targetYear, targetMonth, day, cur.ms)
  }

  /** The next scheduled_for, or None (null) when there is none. */
  function ComputeNextScheduledFor(current: JsDate, repeat: Repeat): Option<JsDate>
  {
    match current
    case Invalid => None
    case Time(t) =>
      match repeat
      case Once => None
      case Daily => Some(TimeClip(t + MS_PER_DAY))
      case Weekly => Some(TimeClip(t + 7 * MS_PER_DAY))
      case Monthly => Some(NextMonthly(t))
  }

  // ----- what the monthly step does -----

  /** The month that the step from a date in `month` really lands in. */
  function TargetMonth(month: int): int
  {
    if 0 <= YearOf(month + 1) <= 99 then month + 1 + 12 * 1900 else month + 1
  }

  /** The last day of a month is within the range of dates. */
  predicate InRange(month: int)
  {
    MonthStart(month + 1) - 1 <= MAX_DAY
  }

  /** The last representable day is the 13th of its month, so no month ends on it. */
  lemma LastDayInsideMonth(month: int)
    ensures MonthStart(month + 1) - 1 != MAX_DAY
  {
    hide MonthStart, MonthLength;
    SeptemberOfLastYear();
    if month + 1 <= SEPTEMBER_275760 {
      MonthStartMonotone(month + 1, SEPTEMBER_275760);
    } else {
      MonthStartMonotone(SEPTEMBER_275760 + 1, month + 1);
    }
  }

  const SEPTEMBER_275760 := 12 * 275760 + 8

  lemma SeptemberOfLastYear()
    ensures MonthStart(SEPTEMBER_275760) == MAX_DAY - 12
    ensures MonthStart(SEPTEMBER_275760 + 1) == MAX_DAY + 18
  {
    assert YearOf(SEPTEMBER_275760) == 275760 && SEPTEMBER_275760 % 12 == 8;
    assert DaysBefore(275760, 2) == 60 && DaysBefore(275760, 4) == 121;
    assert DaysBefore(275760, 6) == 182 && DaysBefore(275760, 8) == 244;
    MonthStartFormula(SEPTEMBER_275760);
    hide MonthStart;
    MonthStartStep(SEPTEMBER_275760);
  }

  /** The last day of the target month, as Date.UTC computes it from day 0 of
      the month after. */
  lemma LastDayOfMonth(y: int, m: nat)
    requires m < 12
    ensures var month := 12 * FullYear(y) + m;
            var last := (MonthStart(month + 1) - 1) * MS_PER_DAY;
            Decompose(last) == Date(month, MonthLength(month), 0)
  {
    hide MonthStart, MonthLength, FullYear;
    var month := 12 * FullYear(y) + m;
    MonthStartStep(month);
    DecomposeCompose(Date(month, MonthLength(month), 0));
  }

  lemma TargetIsNext(month: int)
    ensures var y, m := YearOf(month), month % 12;
            12 * FullYear(if m == 11 then y + 1 else y) + (m + 1) % 12 == TargetMonth(month)
    ensures month < TargetMonth(month)
  {
  }

  lemma ClipsInRange(cur: Date, target: int)
    requires cur.Valid() && cur.month < target && -MAX_TIME <= Compose(cur)
    ensures var last := (MonthStart(target + 1) - 1) * MS_PER_DAY;
            TimeClip(last) == if InRange(target) then Time(last) else Invalid
    ensures forall day: int :: InRange(target) && 1 <= day <= MonthLength(target) ==>
              TimeClip(Compose(Date(target, day, cur.ms))) == Time(Compose(Date(target, day, cur.ms)))
  {
    LastDayInsideMonth(target);
    MonthStartStep(target);
    MonthStartStep(cur.month);
    MonthStartMonotone(cur.month + 1, target);
  }

  /** The date one monthly step leads to, if it is in range. */
  function Advance(cur: Date): (next: Date)
    ensures cur.Valid() ==> next.Valid()
  {
    var target := TargetMonth(cur.month);
    Date(target, Min(cur.day, MonthLength(target)), cur.ms)
  }

  lemma DateUtcOf(y: int, m: int, day: int, ms: int)
    ensures DateUtc(y, m, day, ms) == TimeClip(Compose(Date(12 * FullYear(y) + m, day, ms)))
  {
  }

  /** The monthly step: the target month, the day clamped to its length, the
      same time of day; Invalid Date exactly past the end of the range. */
  lemma NextMonthlyIs(t: int)
    requires -MAX_TIME <= t
    ensures var next := Advance(Decompose(t));
            NextMonthly(t) == if InRange(next.month) then Time(Compose(next)) else Invalid
  {
    hide MonthStart, MonthLength, TargetMonth, Compose, FullYear;
    var cur := Decompose(t);
    var y, m := YearOf(cur.month), cur.month % 12;
    var targetYear, targetMonth := if m == 11 then y + 1 else y, (m + 1) % 12;
    var target := TargetMonth(cur.month);
    TargetIsNext(cur.month);
    ComposeDecompose(t);
    ClipsInRange(cur, target);
    LastDayOfMonth(targetYear, targetMonth);
    var last := (MonthStart(target + 1) - 1) * MS_PER_DAY;
    assert DateUtc(targetYear, targetMonth + 1, 0, 0) == TimeClip(last);
    DateUtcOf(targetYear, targetMonth, Min(cur.day, MonthLength(target)), cur.ms);
  }

  lemma DaysBetween(cur: Date, next: Date)
    requires cur.Valid() && next.Valid() && cur.month < next.month && next.ms == cur.ms
    requires next.day == Min(cur.day, MonthLength(next.month))
    ensures Compose(next) >= Compose(cur) + 28 * MS_PER_DAY
    ensures next.month == cur.month + 1 ==> Compose(next) <= Compose(cur) + 31 * MS_PER_DAY
  {
    hide MonthStart, MonthLength;
    MonthStartStep(cur.month);
    MonthStartMonotone(cur.month + 1, next.month);
  }

  /** A monthly step lands on a valid date with the same time of day, at least
      28 days later, and at most 31 when it reaches the following month. */
  lemma MonthlyStep(t: int)
    requires -MAX_TIME <= t
    ensures NextMonthly(t).Time? ==>
              var n := NextMonthly(t).ms;
              && Decompose(n) == Advance(Decompose(t))
              && t + 28 * MS_PER_DAY <= n
              && (Decompose(n).month == Decompose(t).month + 1 ==> n <= t + 31 * MS_PER_DAY)
  {
    hide MonthStart, MonthLength, Compose, Decompose, TargetMonth;
    NextMonthlyIs(t);
    ComposeDecompose(t);
    var cur, next := Decompose(t), Advance(Decompose(t));
    TargetIsNext(cur.month);
    DecomposeCompose(next);
    DaysBetween(cur, next);
  }

  /** The monthly step reaches the following month exactly when that month ends
      within the range of dates and its year is not one of 0 to 99. */
  lemma MonthlyAdvancesByOne(t: int)
    requires -MAX_TIME <= t
    ensures (exists n :: NextMonthly(t) == Time(n) && Decompose(n).month == Decompose(t).month + 1)
       <==> Ordinary(Decompose(t).month + 1)
  {
    hide MonthStart, MonthLength, Compose, Decompose, InRange;
    var cur := Decompose(t);
    NextMonthlyIs(t);
    DecomposeCompose(Advance(cur));
    if Ordinary(cur.month + 1) {
      assert NextMonthly(t) == Time(Compose(Advance(cur)));
    }
  }

  /** A month is in range up to August 275760. */
  lemma RangeEnds(month: int)
    ensures InRange(month) <==> month < SEPTEMBER_275760
  {
    hide MonthStart, MonthLength;
    SeptemberOfLastYear();
    if month < SEPTEMBER_275760 {
      MonthStartMonotone(month + 1, SEPTEMBER_275760);
    } else {
      MonthStartMonotone(SEPTEMBER_275760 + 1, month + 1);
    }
  }

  /** The time value of day d of month m (0 to 11) of year y. */
  function TimeOf(y: int, m: nat, d: int, ms: int): int
    requires m < 12
  {
    (FirstDay(y, m) + d - 1) * 86_400_000 + ms
  }

  lemma DateOf(y: int, m: nat, d: int, ms: int)
    requires m < 12 && 1 <= d <= FirstDay(y, m + 1) - FirstDay(y, m) && 0 <= ms < 86_400_000
    ensures Decompose(TimeOf(y, m, d, ms)) == Date(12 * y + m, d, ms)
  {
    hide FirstDay, MonthStart, MonthLength, Decompose;
    MonthBoundary(y, m);
    MonthBoundary(y, m + 1);
    MonthStartStep(12 * y + m);
    DecomposeCompose(Date(12 * y + m, d, ms));
  }

  /** The monthly step in years, months and days: the following month, the day
      clamped to the number of days in that month, the same time of day.  Years 0
      to 99 are read as 1900 to 1999, and August 275760 is the last month. */
  lemma MonthlyStepIs(y: int, m: nat, d: int, ms: int)
    requires m < 12 && 1 <= d <= FirstDay(y, m + 1) - FirstDay(y, m) && 0 <= ms < 86_400_000
    requires -8_640_000_000_000_000 <= TimeOf(y, m, d, ms)
    ensures var (following, month) := if m == 11 then (y + 1, 0) else (y, m + 1);
            var year := if 0 <= following <= 99 then 1900 + following else following;
            var last := FirstDay(year, month + 1) - FirstDay(year, month);
            NextMonthly(TimeOf(y, m, d, ms))
            == if year < 275_760 || (year == 275_760 && month <= 7)
               then Time(TimeOf(year, month, if d <= last then d else last, ms)) else Invalid
  {
    hide FirstDay, MonthStart, MonthLength, Decompose, InRange, NextMonthly, TargetMonth, TimeOf;
    DateOf(y, m, d, ms);
    NextMonthlyIs(TimeOf(y, m, d, ms));
    var (following, month) := if m == 11 then (y + 1, 0) else (y, m + 1);
    var year := if 0 <= following <= 99 then 1900 + following else following;
    TargetIs(y, m);
    RangeEnds(12 * year + month);
    MonthBoundary(year, month);
    MonthBoundary(year, month + 1);
    MonthStartStep(12 * year + month);
    TimeIs(year, month);
  }

  lemma TimeIs(y: int, m: nat)
    requires m < 12
    ensures forall d, ms :: TimeOf(y, m, d, ms) == Compose(Date(12 * y + m, d, ms))
  {
    hide FirstDay, MonthStart;
    MonthBoundary(y, m);
  }

  lemma TargetIs(y: int, m: nat)
    requires m < 12
    ensures var (following, month) := if m == 11 then (y + 1, 0) else (y, m + 1);
            TargetMonth(12 * y + m) == 12 * (if 0 <= following <= 99 then 1900 + following else following) + month
  {
    assert (12 * y + m + 1) / 12 == if m == 11 then y + 1 else y;
  }

  /** From 31 March 2025 the step leads to 30 April, from 31 January 2024 to 29 February. */
  lemma ClampedSteps()
    ensures NextMonthly(1_743_379_200_000) == Time(1_745_971_200_000)
    ensures NextMonthly(1_706_659_200_000) == Time(1_709_164_800_000)
  {
    hide NextMonthly;
    MonthlyStepIs(2025, 2, 31, 0);
    MonthlyStepIs(2024, 0, 31, 0);
  }

  /** From January of year 50 a monthly step leads to February 1950. */
  lemma YearFiftyIsPassedOver()
    ensures NextMonthly(Compose(Date(12 * 50, 1, 0))) == Time(Compose(Date(12 * 1950 + 1, 1, 0)))
  {
    hide MonthStart, MonthLength, Decompose;
    var cur := Date(12 * 50, 1, 0);
    EpochIsZero();
    MonthStartMonotone(cur.month, EPOCH_MONTH);
    MonthStartMonotone(12 * 1950 + 2, EPOCH_MONTH);
    DecomposeCompose(cur);
    NextMonthlyIs(Compose(cur));
  }

  lemma EpochIsZero()
    ensures MonthStart(EPOCH_MONTH) == 0
  {
  }

  /** A month that a monthly step can enter from the month before. */
  predicate Ordinary(month: int)
  {
    InRange(month) && !(0 <= YearOf(month) <= 99)
  }

  /** The next date, if there is one and it is in range. */
  function NextTime(t: int, repeat: Repeat): Option<int>
  {
    match ComputeNextScheduledFor(Time(t), repeat)
    case Some(Time(n)) => Some(n)
    case _ => None
  }

  /** Whatever the rule, the next date is at least a day later. */
  lemma NextIsLater(t: int, repeat: Repeat)
    requires -MAX_TIME <= t
    ensures NextTime(t, repeat).Some? ==> t + MS_PER_DAY <= NextTime(t, repeat).value <= MAX_TIME
  {
    if repeat == Monthly {
      MonthlyStep(t);
      NextInRange(t);
    }
  }

  lemma NextInRange(t: int)
    ensures NextMonthly(t).Time? ==> NextMonthly(t).ms <= MAX_TIME
  {
    hide MonthStart, Decompose;
  }

  /** A next daily or weekly date exists as long as it is in the range of dates,
      a next monthly date up to July 275760, and ONCE has none. */
  lemma NextExists(t: int, repeat: Repeat)
    requires -8_640_000_000_000_000 <= t
    ensures NextTime(t, repeat).Some? <==>
              match repeat
              case Once => false
              case Daily => t + 24 * 60 * 60 * 1000 <= 8_640_000_000_000_000
              case Weekly => t + 7 * 24 * 60 * 60 * 1000 <= 8_640_000_000_000_000
              case Monthly => Decompose(t).month < 12 * 275_760 + 7
  {
    hide Decompose, MonthStart, NextMonthly, InRange;
    NextMonthlyIs(t);
    RangeEnds(TargetMonth(Decompose(t).month));
    TargetNearby(Decompose(t).month);
  }

  lemma TargetNearby(month: int)
    ensures TargetMonth(month) == month + 1 || (TargetMonth(month) < 12 * 2000 && month < 12 * 100)
  {
  }

  /** Daily and weekly dates are exactly 1 and 7 days later, and every rule keeps
      the time of day. */
  lemma NextKeepsTimeOfDay(t: int, repeat: Repeat)
    requires -MAX_TIME <= t
    ensures NextTime(t, repeat).Some? ==>
              var n := NextTime(t, repeat).value;
              && n % MS_PER_DAY == t % MS_PER_DAY
              && (repeat == Daily ==> n / MS_PER_DAY == t / MS_PER_DAY + 1)
              && (repeat == Weekly ==> n / MS_PER_DAY == t / MS_PER_DAY + 7)
  {
    hide FindMonth, MonthStart;
    if repeat == Monthly {
      MonthlyStep(t);
    }
  }

  // ----- repeating the monthly step -----

  function Iterate(t: int, k: nat): JsDate
  {
    if k == 0 then Time(t)
    else
      match Iterate(t, k - 1)
      case Invalid => Invalid
      case Time(u) => NextMonthly(u)
  }

  /** The day of the month after k steps from day d of a month. */
  function ClampedDay(d: int, month: int, k: nat): int
  {
    if k == 0 then d else Min(ClampedDay(d, month, k - 1), MonthLength(month + k))
  }

  /** It is the least of the first day and the lengths of all months entered. */
  lemma {:induction false} ClampedDayIsLeast(d: int, month: int, k: nat)
    ensures ClampedDay(d, month, k) <= d
    ensures forall m :: month < m <= month + k ==> ClampedDay(d, month, k) <= MonthLength(m)
    ensures ClampedDay(d, month, k) == d
         || exists m :: month < m <= month + k && ClampedDay(d, month, k) == MonthLength(m)
  {
    hide MonthLength;
    if k > 0 {
      ClampedDayIsLeast(d, month, k - 1);
      assert ClampedDay(d, month, k) == ClampedDay(d, month, k - 1)
          || ClampedDay(d, month, k) == MonthLength(month + k);
    }
  }

  /** k monthly steps advance the month by exactly k and clamp the day to the
      shortest month entered, the time of day staying the same. */
  lemma {:induction false} MonthlyIterates(t: int, k: nat)
    requires -MAX_TIME <= t
    requires forall m :: Decompose(t).month < m <= Decompose(t).month + k ==> Ordinary(m)
    ensures Iterate(t, k).Time? && t <= Iterate(t, k).ms
    ensures var cur := Decompose(t);
            Decompose(Iterate(t, k).ms) == Date(cur.month + k, ClampedDay(cur.day, cur.month, k), cur.ms)
  {
    hide MonthStart, MonthLength, Compose, Decompose, InRange, NextMonthly;
    if k > 0 {
      MonthlyIterates(t, k - 1);
      var u := Iterate(t, k - 1).ms;
      assert Ordinary(Decompose(t).month + k);
      NextMonthlyIs(u);
      MonthlyStep(u);
    }
  }
}
