/** The civil date of `describe_moment` in `crates/itsanas-cli/src/control.rs`,
    against the Gregorian calendar itself. */
module Civil {
  import opened Arithmetic
  import opened Durations
  import opened Text

  /** The last second of the year 9999. */
  const LAST_DATED_SECOND: nat := 253_402_300_799

  datatype Date = Date(year: nat, month: nat, day: nat)

  // ----------------------------------------------------- the calendar

  /** Appendix C of RFC 3339. */
  predicate LeapYear(year: nat) {
    year % 4 == 0 && (year % 100 != 0 || year % 400 == 0)
  }

  /** The days of a month, section 5.7 of RFC 3339. */
  function MonthLength(year: nat, month: nat): nat
    requires 1 <= month <= 12
  {
    if month == 2 then (if LeapYear(year) then 29 else 28)
    else if month == 4 || month == 6 || month == 9 || month == 11 then 30
    else 31
  }

  predicate ValidDate(d: Date) {
    1 <= d.month <= 12 && 1 <= d.day <= MonthLength(d.year, d.month)
  }

  function Tomorrow(d: Date): Date
    requires ValidDate(d)
  {
    if d.day < MonthLength(d.year, d.month) then d.(day := d.day + 1)
    else if d.month < 12 then Date(d.year, d.month + 1, 1)
    else Date(d.year + 1, 1, 1)
  }

  predicate Before(a: Date, b: Date) {
    a.year < b.year || (a.year == b.year && (a.month < b.month || (a.month == b.month && a.day < b.day)))
  }

  const EPOCH := Date(1970, 1, 1)

  // ---------------------------------------------------- the algorithm

  /** Days from the first of March of a 400-year era to its `y`-th. */
  function DaysBefore(y: nat): nat {
    365 * y + y / 4 - y / 100
  }

  function YearOfEra(doe: nat): nat
    requires doe < 146_097
  {
    (doe - doe / 1460 + doe / 36_524 - doe / 146_096) / 365
  }

  /** The day and month of the `doy`-th day counted from the first of March. */
  function MonthDay(doy: nat): (r: (nat, nat))
    requires doy <= 365
    ensures 1 <= r.0 <= 12 && 1 <= r.1
  {
    var mp := (5 * doy + 2) / 153;
    (if mp < 10 then mp + 3 else mp - 9, doy - (153 * mp + 2) / 5 + 1)
  }

  /** A day of the era, said as a century, a four-year cycle and a day of it. */
  function FromParts(c: nat, k: nat, t: nat): nat {
    36_524 * c + 1461 * k + t
  }

  predicate Parts(c: nat, k: nat, t: nat) {
    c < 4 && k < 25 && t < 1461 && 1461 * k + t < 36_524
  }

  /** The year of a four-year cycle: the fourth one has the extra day. */
  function CycleYear(t: nat): nat {
    if t < 365 then 0 else if t < 730 then 1 else if t < 1095 then 2 else 3
  }

  lemma YearOfParts(c: nat, k: nat, t: nat)
    requires Parts(c, k, t)
    ensures YearOfEra(FromParts(c, k, t)) == 100 * c + 4 * k + CycleYear(t)
  {
    var doe := FromParts(c, k, t);
    var b := if k + t + 24 * c >= 1460 then 1 else 0;
    assert doe == 1460 * (25 * c + k) + (k + t + 24 * c);
    assert doe / 1460 == 25 * c + k + b;
    assert doe / 36_524 == c && doe / 146_096 == 0;
    var x := doe - doe / 1460 + doe / 36_524 - doe / 146_096;
    assert x == 365 * (100 * c + 4 * k) + (t - b);
    assert 365 * CycleYear(t) <= t - b < 365 * (CycleYear(t) + 1);
    assert x / 365 == 100 * c + 4 * k + CycleYear(t);
  }

  lemma DaysBeforeParts(c: nat, j: nat)
    requires c < 4 && j < 100
    ensures DaysBefore(100 * c + j) == 36_524 * c + 365 * j + j / 4
  {
    assert (100 * c + j) / 4 == 25 * c + j / 4;
    assert (100 * c + j) / 100 == c;
  }

  lemma YearHoldsParts(c: nat, k: nat, t: nat)
    requires Parts(c, k, t)
    ensures var y := YearOfEra(FromParts(c, k, t));
            y < 400 && DaysBefore(y) <= FromParts(c, k, t) < DaysBefore(y + 1)
  {
    hide YearOfEra, DaysBefore;
    YearOfParts(c, k, t);
    var j := 4 * k + CycleYear(t);
    assert j < 100 && j / 4 == k;
    DaysBeforeParts(c, j);
    if j < 99 {
      DaysBeforeParts(c, j + 1);
    } else {
      NextCentury(c);
    }
  }

  lemma NextCentury(c: nat)
    requires c < 4
    ensures DaysBefore(100 * c + 100) == 36_524 * (c + 1)
  {
  }

  lemma YearOfEraIs(doe: nat)
    requires doe < 146_097
    ensures var y := YearOfEra(doe);
            y < 400 && DaysBefore(y) <= doe
            && (doe < DaysBefore(y + 1) || (y == 399 && doe < DaysBefore(400) + 1))
  {
    if doe < 146_096 {
      var c, r := doe / 36_524, doe % 36_524;
      var k, t := r / 1461, r % 1461;
      assert doe == FromParts(c, k, t) && Parts(c, k, t);
      YearHoldsParts(c, k, t);
    }
  }

  // ------------------------------------------------- the year's shape

  /** Whether the year counted from March, the `y`-th of its era, ends in a 29
      February: the civil year its February falls in is a leap one. */
  predicate LeapAfter(y: nat) {
    LeapYear(y + 1)
  }

  function YearLength(y: nat): nat {
    if LeapAfter(y) then 366 else 365
  }

  lemma DaysBeforeNext(y: nat)
    requires y < 400
    ensures DaysBefore(y + 1) + (if y == 399 then 1 else 0) == DaysBefore(y) + YearLength(y)
  {
    QuotientsNext(y, 4);
    QuotientsNext(y, 100);
    MultiplesOfAHundred(y + 1);
  }

  /** The quotient steps up exactly at the multiples. */
  lemma QuotientsNext(y: nat, n: nat)
    requires n > 1
    ensures (y + 1) / n == y / n + if (y + 1) % n == 0 then 1 else 0
  {
    var q, r := y / n, y % n;
    Division(y, n);
    if r + 1 < n {
      DivisionIs(y + 1, n, q, r + 1);
    } else {
      assert (q + 1) * n == q * n + n;
      DivisionIs(y + 1, n, q + 1, 0);
    }
  }

  /** In an era only its last year is a multiple of 400. */
  lemma MultiplesOfAHundred(y: nat)
    requires 0 < y <= 400
    ensures y % 100 == 0 ==> y % 4 == 0
    ensures y % 400 == 0 <==> y == 400
  {
  }

  lemma {:induction false} DaysBeforeGrows(a: nat, b: nat)
    requires a < b <= 400
    ensures DaysBefore(a + 1) <= DaysBefore(b)
    decreases b
  {
    if a + 1 < b {
      DaysBeforeGrows(a, b - 1);
      DaysBeforeNext(b - 1);
    }
  }

  /** The year of the era is the one year whose days hold the day. */
  lemma YearIsUnique(doe: nat, y: nat)
    requires doe < 146_097 && y < 400
    requires DaysBefore(y) <= doe < DaysBefore(y) + YearLength(y)
    ensures YearOfEra(doe) == y
  {
    YearOfEraIs(doe);
    DaysBeforeNext(y);
    if y < YearOfEra(doe) {
      DaysBeforeGrows(y, YearOfEra(doe));
    }
  }

  /** The date of the `doy`-th day from the first of March of civil year `year`. */
  function FromMarch(year: nat, doy: nat): Date
    requires doy <= 365
  {
    var (month, day) := MonthDay(doy);
    Date(if month <= 2 then year + 1 else year, month, day)
  }

  /** The same, month by month. */
  function MarchTable(doy: nat): (nat, nat) {
    if doy < 31 then (3, doy + 1) else if doy < 61 then (4, doy - 30) else if doy < 92 then (5, doy - 60)
    else if doy < 122 then (6, doy - 91) else if doy < 153 then (7, doy - 121) else if doy < 184 then (8, doy - 152)
    else if doy < 214 then (9, doy - 183) else if doy < 245 then (10, doy - 213) else if doy < 275 then (11, doy - 244)
    else if doy < 306 then (12, doy - 274) else if doy < 337 then (1, doy - 305) else (2, doy - 336)
  }

  lemma MonthDayIsTable(doy: nat)
    requires doy <= 365
    ensures MonthDay(doy) == MarchTable(doy)
  {
    if doy < 184 {
      ToAugust(doy);
    } else {
      ToFebruary(doy);
    }
    hide MonthDay, MarchTable;
  }

  lemma ToAugust(doy: nat)
    requires doy < 184
    ensures MonthDay(doy) == MarchTable(doy)
  {
  }

  lemma ToFebruary(doy: nat)
    requires 184 <= doy <= 365
    ensures MonthDay(doy) == MarchTable(doy)
  {
  }

  lemma FromMarchNext(year: nat, doy: nat)
    requires doy < YearLength(year)
    ensures ValidDate(FromMarch(year, doy))
    ensures doy + 1 < YearLength(year) ==> Tomorrow(FromMarch(year, doy)) == FromMarch(year, doy + 1)
    ensures doy + 1 == YearLength(year) ==> Tomorrow(FromMarch(year, doy)) == FromMarch(year + 1, 0)
  {
    hide MonthDay, LeapYear;
    MonthDayIsTable(doy);
    MonthDayIsTable(0);
    if doy < 365 {
      MonthDayIsTable(doy + 1);
    }
  }

  /** The civil date of a day counted from 1 January 1970, as
      `describe_moment` computes it. */
  function DateOf(days: nat): Date {
    var shifted := days + 719_468;
    var era := shifted / 146_097;
    var doe := shifted - era * 146_097;
    var y := YearOfEra(doe);
    YearOfEraIs(doe);
    DaysBeforeNext(y);
    var doy := doe - DaysBefore(y);
    var (month, day) := MonthDay(doy);
    Date(y + era * 400 + (if month <= 2 then 1 else 0), month, day)
  }

  lemma Shifted4(a: nat, n: nat)
    ensures (4 * a + n) % 4 == n % 4
  {
  }

  lemma Shifted100(a: nat, n: nat)
    ensures (100 * a + n) % 100 == n % 100
  {
  }

  lemma Shifted400(a: nat, n: nat)
    ensures (400 * a + n) % 400 == n % 400
  {
  }

  lemma LeapRepeats(era: nat, y: nat)
    ensures YearLength(era * 400 + y) == YearLength(y)
  {
    Shifted4(100 * era, y + 1);
    Shifted100(4 * era, y + 1);
    Shifted400(era, y + 1);
  }

  lemma DateInEra(era: nat, y: nat, doy: nat, days: nat)
    requires y < 400 && doy < YearLength(y)
    requires days + 719_468 == era * 146_097 + DaysBefore(y) + doy
    ensures DateOf(days) == FromMarch(era * 400 + y, doy)
  {
    hide YearOfEra, MonthDay, DaysBefore, LeapYear;
    EraHolds(y, doy);
    assert (days + 719_468) / 146_097 == era;
    YearIsUnique(DaysBefore(y) + doy, y);
  }

  lemma EraHolds(y: nat, doy: nat)
    requires y < 400 && doy < YearLength(y)
    ensures DaysBefore(y) + doy < 146_097
  {
    DaysBeforeNext(y);
    if y < 399 {
      DaysBeforeGrows(y, 400);
    }
  }

  /** A day said as an era, a year of it counted from March, and a day of that. */
  lemma Decompose(days: nat) returns (era: nat, y: nat, doy: nat)
    ensures y < 400 && doy < YearLength(y)
    ensures days + 719_468 == era * 146_097 + DaysBefore(y) + doy
  {
    var doe := (days + 719_468) % 146_097;
    era := (days + 719_468) / 146_097;
    y, doy := DayOfYear(doe);
  }

  lemma DayOfYear(doe: nat) returns (y: nat, doy: nat)
    requires doe < 146_097
    ensures y < 400 && doy < YearLength(y) && doe == DaysBefore(y) + doy
  {
    y := YearOfEra(doe);
    YearOfEraIs(doe);
    DaysBeforeNext(y);
    doy := doe - DaysBefore(y);
  }

  lemma NextInEra(era: nat, y: nat, doy: nat, days: nat)
    requires y < 400 && doy < YearLength(y)
    requires days + 719_468 == era * 146_097 + DaysBefore(y) + doy
    ensures DateOf(days + 1)
         == if doy + 1 < YearLength(y) then FromMarch(era * 400 + y, doy + 1) else FromMarch(era * 400 + y + 1, 0)
  {
    hide DateOf, FromMarch, LeapYear;
    DaysBeforeNext(y);
    if doy + 1 < YearLength(y) {
      DateInEra(era, y, doy + 1, days + 1);
    } else if y < 399 {
      hide DaysBefore;
      AYearHasDays(y + 1);
      DateInEra(era, y + 1, 0, days + 1);
    } else {
      assert DaysBefore(0) == 0 && DaysBefore(400) == 146_096;
      AYearHasDays(0);
      assert (era + 1) * 400 == era * 400 + 400;
      DateInEra(era + 1, 0, 0, days + 1);
    }
  }

  lemma AYearHasDays(y: nat)
    ensures 0 < YearLength(y)
  {
  }

  /** Every day's date is a date of the calendar, and the day after is the
      calendar's own tomorrow. */
  lemma DateIsTheCalendar(days: nat)
    ensures ValidDate(DateOf(days)) && DateOf(days + 1) == Tomorrow(DateOf(days))
  {
    hide DateOf, FromMarch;
    var era, y, doy := Decompose(days);
    LeapRepeats(era, y);
    FromMarchNext(era * 400 + y, doy);
    DateInEra(era, y, doy, days);
    NextInEra(era, y, doy, days);
  }

  /** And day 0 is 1 January 1970. */
  lemma DayZero()
    ensures DateOf(0) == EPOCH
  {
    DateInEra(4, 369, 306, 0);
  }

  lemma TomorrowIsLater(a: Date, d: Date)
    requires ValidDate(d) && (a == d || Before(a, d))
    ensures Before(a, Tomorrow(d))
  {
  }

  /** Later days have later dates. */
  lemma {:induction false} DatesIncrease(a: nat, b: nat)
    requires a < b
    ensures Before(DateOf(a), DateOf(b))
    decreases b
  {
    hide DateOf;
    DateIsTheCalendar(b - 1);
    if a < b - 1 {
      DatesIncrease(a, b - 1);
    }
    TomorrowIsLater(DateOf(a), DateOf(b - 1));
  }

  /** Every date of the calendar from 1970 on is some day's, and by
      `DatesIncrease` only one's. */
  lemma {:induction false} EveryDateHasADay(d: Date) returns (days: nat)
    requires ValidDate(d) && !Before(d, EPOCH)
    ensures DateOf(days) == d
    decreases d.year, d.month, d.day
  {
    hide DateOf;
    if d == EPOCH {
      days := 0;
      DayZero();
    } else {
      var p := if d.day > 1 then d.(day := d.day - 1)
               else if d.month > 1 then Date(d.year, d.month - 1, MonthLength(d.year, d.month - 1))
               else Date(d.year - 1, 12, 31);
      assert Tomorrow(p) == d;
      var before := EveryDateHasADay(p);
      DateIsTheCalendar(before);
      days := before + 1;
    }
  }

  // ------------------------------------------------------ the text

  function Clock(hour: nat, minute: nat): string {
    Padded(hour, 2) + (":" + (Padded(minute, 2) + " UTC"))
  }

  function Moment(d: Date, hour: nat, minute: nat): string {
    Padded(d.year, 4) + ("-" + (Padded(d.month, 2) + ("-" + (Padded(d.day, 2) + (" " + Clock(hour, minute))))))
  }

  function DescribeMoment(unix: u64): Option<string> {
    if unix > LAST_DATED_SECOND then None
    else Some(Moment(DateOf(unix / DAY), unix % DAY / 3600, unix % DAY % 3600 / 60))
  }

  /** A moment has a text exactly when its year has four digits. */
  lemma DatedIsFourDigits(unix: u64)
    ensures DescribeMoment(unix).Some? <==> DateOf(unix / DAY).year <= 9999
  {
    hide DateOf, Moment;
    var last := LAST_DATED_SECOND / DAY;
    DateInEra(24, 399, 305, last);
    DateInEra(24, 399, 306, last + 1);
    assert DateOf(last) == Date(9999, 12, 31) && DateOf(last + 1) == Date(10000, 1, 1);
    var days := unix / DAY;
    if days < last {
      DatesIncrease(days, last);
    } else if days > last + 1 {
      DatesIncrease(last + 1, days);
    }
  }

  lemma TwoPlaces(m: nat, n: nat, x: string, y: string)
    requires m < 100 && n < 100 && Padded(m, 2) + x == Padded(n, 2) + y
    ensures m == n && x == y
  {
    assert PowerOfTen(2) == 100;
    PaddedReads(m, 2);
    PaddedReads(n, 2);
    CancelFront(Padded(m, 2), Padded(n, 2), x, y);
  }

  lemma FourPlaces(m: nat, n: nat, x: string, y: string)
    requires m < 10_000 && n < 10_000 && Padded(m, 4) + x == Padded(n, 4) + y
    ensures m == n && x == y
  {
    assert PowerOfTen(4) == 10_000;
    PaddedReads(m, 4);
    PaddedReads(n, 4);
    CancelFront(Padded(m, 4), Padded(n, 4), x, y);
  }

  lemma ClockIsUnique(h: nat, m: nat, hour: nat, minute: nat)
    requires h < 100 && m < 100 && hour < 100 && minute < 100
    requires Clock(h, m) == Clock(hour, minute)
    ensures h == hour && m == minute
  {
    hide Padded;
    TwoPlaces(h, hour, ":" + (Padded(m, 2) + " UTC"), ":" + (Padded(minute, 2) + " UTC"));
    CancelFront(":", ":", Padded(m, 2) + " UTC", Padded(minute, 2) + " UTC");
    TwoPlaces(m, minute, " UTC", " UTC");
  }

  predicate Printable(d: Date) {
    d.year < 10_000 && d.month < 100 && d.day < 100
  }

  lemma MomentIsUnique(d: Date, h: nat, m: nat, date: Date, hour: nat, minute: nat)
    requires Printable(d) && Printable(date)
    requires h < 100 && m < 100 && hour < 100 && minute < 100
    requires Moment(d, h, m) == Moment(date, hour, minute)
    ensures d == date && h == hour && m == minute
  {
    hide Padded, Clock;
    var x3, y3 := " " + Clock(h, m), " " + Clock(hour, minute);
    var x2, y2 := Padded(d.day, 2) + x3, Padded(date.day, 2) + y3;
    var x1, y1 := Padded(d.month, 2) + ("-" + x2), Padded(date.month, 2) + ("-" + y2);
    FourPlaces(d.year, date.year, "-" + x1, "-" + y1);
    CancelFront("-", "-", x1, y1);
    TwoPlaces(d.month, date.month, "-" + x2, "-" + y2);
    CancelFront("-", "-", x2, y2);
    TwoPlaces(d.day, date.day, x3, y3);
    CancelFront(" ", " ", Clock(h, m), Clock(hour, minute));
    ClockIsUnique(h, m, hour, minute);
  }

  /** Two dated moments read the same exactly when they are the same minute. */
  lemma MomentsReadAlike(a: u64, b: u64)
    requires a <= LAST_DATED_SECOND && b <= LAST_DATED_SECOND
    ensures DescribeMoment(a) == DescribeMoment(b) <==> a / 60 == b / 60
  {
    hide DateOf, Moment;
    DayMinute(a);
    DayMinute(b);
    if a / 60 == b / 60 {
      SameMinute(a / DAY, a % DAY / 3600, a % DAY % 3600 / 60, b / DAY, b % DAY / 3600, b % DAY % 3600 / 60);
    } else if DescribeMoment(a) == DescribeMoment(b) {
      DatedIsFourDigits(a);
      DatedIsFourDigits(b);
      DateIsTheCalendar(a / DAY);
      DateIsTheCalendar(b / DAY);
      MomentIsUnique(DateOf(a / DAY), a % DAY / 3600, a % DAY % 3600 / 60,
                     DateOf(b / DAY), b % DAY / 3600, b % DAY % 3600 / 60);
      SameDateSameDay(a / DAY, b / DAY);
    }
  }

  /** A second's minute, from its day, hour and minute of the hour. */
  lemma DayMinute(a: nat)
    ensures a / 60 == 1440 * (a / DAY) + 60 * (a % DAY / 3600) + a % DAY % 3600 / 60
    ensures a % DAY / 3600 < 24 && a % DAY % 3600 / 60 < 60
  {
  }

  lemma SameMinute(d: nat, h: nat, m: nat, day: nat, hour: nat, minute: nat)
    requires h < 24 && m < 60 && hour < 24 && minute < 60
    requires 1440 * d + 60 * h + m == 1440 * day + 60 * hour + minute
    ensures d == day && h == hour && m == minute
  {
  }

  lemma SameDateSameDay(a: nat, b: nat)
    requires DateOf(a) == DateOf(b)
    ensures a == b
  {
    hide DateOf;
    if a < b {
      DatesIncrease(a, b);
    } else if b < a {
      DatesIncrease(b, a);
    }
  }

  // ------------------------------------------------- the text, read back

  /** Where the parts of a moment's text stand. */
  lemma MomentParts(d: Date, hour: nat, minute: nat)
    requires d.year < 10_000 && d.month < 100 && d.day < 100 && hour < 100 && minute < 100
    ensures var t := Moment(d, hour, minute);
            |t| == 20
            && t[..4] == Padded(d.year, 4) && t[5..7] == Padded(d.month, 2) && t[8..10] == Padded(d.day, 2)
            && t[11..13] == Padded(hour, 2) && t[14..16] == Padded(minute, 2)
            && t[4] == '-' && t[7] == '-' && t[10] == ' ' && t[13] == ':' && t[16..] == " UTC"
  {
    assert PowerOfTen(2) == 100 && PowerOfTen(4) == 10_000;
    PaddedReads(d.year, 4);
    PaddedReads(d.month, 2);
    PaddedReads(d.day, 2);
    PaddedReads(hour, 2);
    PaddedReads(minute, 2);
    hide Padded, Clock;
    DateSlices(Padded(d.year, 4), Padded(d.month, 2), Padded(d.day, 2), Clock(hour, minute));
    ClockSlices(hour, minute);
    var t := Moment(d, hour, minute);
    assert t[11..13] == t[11..][..2] && t[14..16] == t[11..][3..5] && t[16..] == t[11..][5..];
  }

  lemma DateSlices(a: string, b: string, c: string, rest: string)
    requires |a| == 4 && |b| == 2 && |c| == 2
    ensures var t := a + ("-" + (b + ("-" + (c + (" " + rest)))));
            |t| == 11 + |rest| && t[..4] == a && t[4] == '-' && t[5..7] == b && t[7] == '-' && t[8..10] == c
            && t[10] == ' ' && t[11..] == rest
  {
  }

  lemma ClockSlices(hour: nat, minute: nat)
    requires |Padded(hour, 2)| == 2 && |Padded(minute, 2)| == 2
    ensures var t := Clock(hour, minute);
            |t| == 9 && t[..2] == Padded(hour, 2) && t[2] == ':' && t[3..5] == Padded(minute, 2) && t[5..] == " UTC"
  {
    hide Padded;
  }

  /** A text of digits that fits parses as its value. */
  lemma PaddedParses(n: nat, width: nat)
    requires 1 <= width <= 4 && n < PowerOfTen(width)
    ensures ParseU64(Padded(n, width)) == Some(n)
  {
    PaddedReads(n, width);
    assert PowerOfTen(1) == 10 && PowerOfTen(2) == 100 && PowerOfTen(3) == 1000 && PowerOfTen(4) == 10_000;
    hide Padded;
  }

  /** A dated moment reads as the date of its day and the hour and minute of its
      second, each where it belongs: `2026-10-06 14:30 UTC`. */
  lemma MomentReads(unix: u64)
    requires unix <= 253_402_300_799
    ensures DescribeMoment(unix).Some?
    ensures var t, d := DescribeMoment(unix).value, DateOf(unix / 86_400);
            |t| == 20 && t[4] == '-' && t[7] == '-' && t[10] == ' ' && t[13] == ':' && t[16..] == " UTC"
            && ParseU64(t[..4]) == Some(d.year) && ParseU64(t[5..7]) == Some(d.month)
            && ParseU64(t[8..10]) == Some(d.day)
            && ParseU64(t[11..13]) == Some(unix % 86_400 / 3600)
            && ParseU64(t[14..16]) == Some(unix % 3600 / 60)
  {
    hide DateOf, Moment, Padded, ParseU64;
    var d, hour, minute := DateOf(unix / 86_400), unix % 86_400 / 3600, unix % 3600 / 60;
    DateFits(unix);
    MinuteOfDay(unix);
    assert PowerOfTen(2) == 100 && PowerOfTen(4) == 10_000;
    MomentParts(d, hour, minute);
    PaddedParses(d.year, 4);
    PaddedParses(d.month, 2);
    PaddedParses(d.day, 2);
    PaddedParses(hour, 2);
    PaddedParses(minute, 2);
  }

  lemma DateFits(unix: u64)
    requires unix <= 253_402_300_799
    ensures var d := DateOf(unix / 86_400); d.year < 10_000 && d.month <= 12 && d.day <= 31
  {
    hide DateOf, Moment;
    DatedIsFourDigits(unix);
    DateIsTheCalendar(unix / 86_400);
    assert ValidDate(DateOf(unix / 86_400));
  }

  lemma MinuteOfDay(unix: nat)
    ensures unix % 86_400 % 3600 == unix % 3600 && unix % 86_400 / 3600 < 24 && unix % 3600 / 60 < 60
  {
  }
}
