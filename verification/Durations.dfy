/** Durations typed and said, from `crates/itsanas-cli/src/control.rs`. */
module Durations {
  import opened Arithmetic
  import opened Text

  const MINUTE: nat := 60
  const HOUR: nat := 3600
  const DAY: nat := 86_400
  const MIN_INTERVAL: nat := 30
  const MAX_INTERVAL: nat := DAY
  const MIN_PAUSE: nat := MINUTE
  const MAX_PAUSE: nat := 30 * DAY

  datatype Refusal = NotADuration | OutOfBounds

  datatype Typed<+T> = Ok(value: T) | Err(refusal: Refusal)

  function Scale(unit: string): Option<nat> {
    if unit == "" || unit == "s" then Some(1)
    else if unit == "m" || unit == "min" then Some(MINUTE)
    else if unit == "h" then Some(HOUR)
    else if unit == "d" then Some(DAY)
    else None
  }

  /** `checked_mul` on 64 bits. */
  function CheckedMul(a: u64, b: nat): Option<u64> {
    if a * b <= U64_MAX then Some(a * b) else None
  }

  function SecondsIn(text: string): Option<u64> {
    var at := DigitsEnd(text);
    match Scale(Trim(text[at..]))
    case None => None
    case Some(scale) =>
      match ParseU64(text[..at])
      case None => None
      case Some(n) => CheckedMul(n, scale)
  }

  predicate SaysAuto(s: string) {
    |s| == 4 && Lower(s[0]) == 'a' && Lower(s[1]) == 'u' && Lower(s[2]) == 't' && Lower(s[3]) == 'o'
  }

  /** `parse_every`; `auto` leaves the daemon its own interval. */
  function ParseEvery(text: string): Typed<Option<u64>> {
    var t := Trim(text);
    if SaysAuto(t) then Ok(None)
    else
      match SecondsIn(t)
      case None => Err(NotADuration)
      case Some(s) => if s < MIN_INTERVAL || s > MAX_INTERVAL then Err(OutOfBounds) else Ok(Some(s))
  }

  function ParsePause(text: string): Typed<u64> {
    match SecondsIn(Trim(text))
    case None => Err(NotADuration)
    case Some(s) => if s < MIN_PAUSE || s > MAX_PAUSE then Err(OutOfBounds) else Ok(s)
  }

  function DescribeEvery(s: u64): string {
    if s == DAY then "1 day"
    else if s % DAY == 0 && s > 0 then Decimal(s / DAY) + " " + "days"
    else if s % HOUR == 0 && s > 0 then Decimal(s / HOUR) + " " + "h"
    else if s % MINUTE == 0 && s > 0 then Decimal(s / MINUTE) + " " + "min"
    else Decimal(s) + " " + "s"
  }

  /** A wait as it is said. */
  datatype Wait = Minutes(n: nat) | Hours(h: nat) | HoursAndMinutes(hours: nat, minutes: nat) | Days(d: nat)

  /** What a wait said is worth, in seconds. */
  function SecondsSaid(w: Wait): nat {
    match w
    case Minutes(n) => n * MINUTE
    case Hours(h) => h * HOUR
    case HoursAndMinutes(h, m) => h * HOUR + m * MINUTE
    case Days(d) => d * DAY
  }

  function InWords(w: Wait): string {
    match w
    case Minutes(n) => Decimal(n) + " min"
    case Hours(h) => Decimal(h) + " h"
    case HoursAndMinutes(h, m) => Decimal(h) + (" h " + (Decimal(m) + " min"))
    case Days(d) => Decimal(d) + " days"
  }

  function MinutesLeft(s: nat): nat {
    (s + 59) / 60
  }

  /** Rounded up to the minute; from two days on, down to the day. */
  function WaitOf(s: nat): Wait {
    var minutes := MinutesLeft(s);
    if minutes < 120 then Minutes(minutes)
    else if minutes < 2880 && minutes % 60 == 0 then Hours(minutes / 60)
    else if minutes < 2880 then HoursAndMinutes(minutes / 60, minutes % 60)
    else Days(minutes / 1440)
  }

  /** `describe_wait`. */
  function DescribeWait(s: u64): string {
    InWords(WaitOf(s))
  }

  /** A number, a space and a word read as the number and the word. */
  lemma SecondsInWords(n: u64, unit: string)
    requires unit != [] && Tight(unit)
    ensures SecondsIn(Decimal(n) + " " + unit)
         == match Scale(unit) case None => None case Some(scale) => CheckedMul(n, scale)
  {
    hide Decimal, ParseU64, Scale, Trim;
    var s := Decimal(n) + " " + unit;
    assert s[..|Decimal(n)|] == Decimal(n) && s[|Decimal(n)|..] == " " + unit;
    DigitsEndIs(s, |Decimal(n)|);
    TrimPadded(" ", unit);
    ParseOfDecimal(n);
  }

  /** What is printed can be typed back, and means the same, except a whole
      number of days: those are printed as `1 day` and `3 days`, which are not
      durations anybody can type. */
  lemma DescribedIsTypable(s: u64)
    ensures SecondsIn(DescribeEvery(s)) == Some(s) <==> !(s > 0 && s % DAY == 0)
    ensures s > 0 && s % DAY == 0 ==> SecondsIn(DescribeEvery(s)) == None
  {
    hide SecondsIn, Decimal;
    if s == DAY {
      DaysAreNotTypable(1, "day");
    } else if s % DAY == 0 && s > 0 {
      DaysAreNotTypable(s / DAY, "days");
    } else if s % HOUR == 0 && s > 0 {
      SecondsInWords(s / HOUR, "h");
    } else if s % MINUTE == 0 && s > 0 {
      SecondsInWords(s / MINUTE, "min");
    } else {
      SecondsInWords(s, "s");
    }
  }

  lemma DaysAreNotTypable(n: u64, unit: string)
    requires unit == "day" || unit == "days"
    ensures SecondsIn(Decimal(n) + " " + unit) == None
    ensures Decimal(1) + " " + "day" == "1 day"
  {
    hide SecondsIn;
    assert Tight(unit) && Scale(unit) == None;
    SecondsInWords(n, unit);
    OneDay();
  }

  lemma OneDay()
    ensures Decimal(1) + " " + "day" == "1 day"
  {
    assert Decimal(1) == "1";
  }

  lemma DescribedIsTight(s: u64)
    ensures Trim(DescribeEvery(s)) == DescribeEvery(s) && !SaysAuto(DescribeEvery(s))
  {
    var t := DescribeEvery(s);
    assert IsDigit(t[0]) by {
      assert IsDigit(Decimal(s)[0]) && IsDigit(Decimal(s / MINUTE)[0]) && IsDigit(Decimal(s / HOUR)[0])
             && IsDigit(Decimal(s / DAY)[0]);
    }
    TrimPadded("", t);
    assert "" + t == t;
  }

  /** A chosen interval, as the daemon says it, is the interval it would be
      given back: for every allowed one but the longest, which is said `1 day`. */
  lemma DescribedIntervalIsAccepted(s: u64)
    ensures ParseEvery(DescribeEvery(s)) == Ok(Some(s)) <==> MIN_INTERVAL <= s < MAX_INTERVAL
  {
    DescribedIsTight(s);
    DescribedIsTypable(s);
  }

  /** The bound of a pause that a refusal names cannot be typed as named, nor
      can any other whole number of days. */
  lemma DescribedPauseIsAccepted(s: u64)
    ensures ParsePause(DescribeEvery(s)) == Ok(s) <==> MIN_PAUSE <= s <= MAX_PAUSE && s % DAY != 0
  {
    DescribedIsTight(s);
    DescribedIsTypable(s);
  }

  // ------------------------------------------------------ the wait said

  lemma NumberFirst(n: nat, rest: string, m: nat, tail: string)
    requires rest != [] && !IsDigit(rest[0]) && tail != [] && !IsDigit(tail[0])
    requires Decimal(n) + rest == Decimal(m) + tail
    ensures n == m && rest == tail
  {
    DigitsEndIs(Decimal(n) + rest, |Decimal(n)|);
    DigitsEndIs(Decimal(m) + tail, |Decimal(m)|);
    CancelFront(Decimal(n), Decimal(m), rest, tail);
    DecimalInjective(n, m);
  }

  /** The words after the first number. */
  function AfterNumber(w: Wait): string {
    match w
    case Minutes(_) => " min"
    case Hours(_) => " h"
    case HoursAndMinutes(_, m) => " h " + (Decimal(m) + " min")
    case Days(_) => " days"
  }

  function FirstNumber(w: Wait): nat {
    match w
    case Minutes(n) => n
    case Hours(h) => h
    case HoursAndMinutes(h, _) => h
    case Days(d) => d
  }

  /** Different waits are said differently. */
  lemma WordsTellTheWait(a: Wait, b: Wait)
    requires InWords(a) == InWords(b)
    ensures a == b
  {
    NumberFirst(FirstNumber(a), AfterNumber(a), FirstNumber(b), AfterNumber(b));
    AfterNumberTells(a, b);
  }

  lemma AfterNumberTells(a: Wait, b: Wait)
    requires AfterNumber(a) == AfterNumber(b) && FirstNumber(a) == FirstNumber(b)
    ensures a == b
  {
    var x, y := AfterNumber(a), AfterNumber(b);
    assert x[1] == y[1] && |x| == |y|;
    if a.HoursAndMinutes? && b.HoursAndMinutes? {
      assert x[3..] == Decimal(a.minutes) + " min" && y[3..] == Decimal(b.minutes) + " min";
      NumberFirst(a.minutes, " min", b.minutes, " min");
    }
  }

  /** The wait said is not shorter than the wait left exactly below two days, and
      at whole days. It is never a minute longer, nor a day shorter. */
  lemma WaitSaidIsNotShort(s: nat)
    ensures s <= SecondsSaid(WaitOf(s)) <==> MinutesLeft(s) < 2880 || MinutesLeft(s) % 1440 == 0
    ensures SecondsSaid(WaitOf(s)) < s + MINUTE && s < SecondsSaid(WaitOf(s)) + DAY
  {
    var minutes := MinutesLeft(s);
    assert minutes * 60 < s + 60 && s <= minutes * 60;
    assert minutes == minutes / 60 * 60 + minutes % 60;
    assert minutes == minutes / 1440 * 1440 + minutes % 1440;
  }

  /** One that is: seventy-one hours are said to be two days. */
  lemma SeventyOneHours()
    ensures DescribeWait(71 * HOUR) == "2 days" && SecondsSaid(WaitOf(71 * HOUR)) == 48 * HOUR
  {
    assert MinutesLeft(71 * HOUR) == 4260;
    assert Decimal(2) == "2";
  }

  /** A pause that still holds is never said to end in `0 min`. */
  lemma NeverZeroMinutes(s: u64)
    ensures DescribeWait(s) == "0 min" <==> s == 0
  {
    assert Decimal(0) == "0" && InWords(Minutes(0)) == "0 min";
    if DescribeWait(s) == "0 min" {
      WordsTellTheWait(WaitOf(s), Minutes(0));
    }
  }

  // ---------------------------------------------------- what can be typed

  /** The seconds a unit stands for: a bare number and `s`, `m` and `min`, `h`, `d`. */
  predicate Unit(unit: string, scale: nat) {
    (unit == "" && scale == 1) || (unit == "s" && scale == 1) || (unit == "m" && scale == 60)
    || (unit == "min" && scale == 60) || (unit == "h" && scale == 3600) || (unit == "d" && scale == 86_400)
  }

  lemma ScaleIsUnit(unit: string, scale: nat)
    ensures Scale(unit) == Some(scale) <==> Unit(unit, scale)
  {
  }

  /** Every duration that can be typed, and no other: digits, at most as much as 64
      bits hold, and a unit with any white space about it, whose product 64 bits
      hold too. */
  lemma DurationMeans(text: string, seconds: u64)
    ensures SecondsIn(text) == Some(seconds)
            <==> exists k: nat, scale: nat ::
                   k <= |text| && AllDigits(text[..k]) && (k < |text| ==> !IsDigit(text[k]))
                   && Unit(Trim(text[k..]), scale) && ParseU64(text[..k]).Some?
                   && ParseU64(text[..k]).value * scale == seconds
  {
    hide ParseU64, Trim, Unit, Scale;
    var at := DigitsEnd(text);
    if k: nat, scale: nat :|
      k <= |text| && AllDigits(text[..k]) && (k < |text| ==> !IsDigit(text[k]))
      && Unit(Trim(text[k..]), scale) && ParseU64(text[..k]).Some? && ParseU64(text[..k]).value * scale == seconds {
      DigitsEndIs(text, k);
      ScaleIsUnit(Trim(text[k..]), scale);
    }
    if SecondsIn(text) == Some(seconds) {
      var scale := Scale(Trim(text[at..])).value;
      ScaleIsUnit(Trim(text[at..]), scale);
      assert at <= |text| && Unit(Trim(text[at..]), scale) && ParseU64(text[..at]).value * scale == seconds;
    }
  }

  /** An interval is taken between half a minute and a day, `auto` in any case being
      the daemon's own; a pause between a minute and thirty days. */
  lemma BoundsMean(text: string)
    ensures ParseEvery(text)
         == var t := Trim(text);
            if |t| == 4 && t[0] in "aA" && t[1] in "uU" && t[2] in "tT" && t[3] in "oO" then Ok(None)
            else match SecondsIn(t)
                 case None => Err(NotADuration)
                 case Some(s) => if 30 <= s <= 86_400 then Ok(Some(s)) else Err(OutOfBounds)
    ensures ParsePause(text)
         == match SecondsIn(Trim(text))
            case None => Err(NotADuration)
            case Some(s) => if 60 <= s <= 2_592_000 then Ok(s) else Err(OutOfBounds)
  {
    hide SecondsIn, Trim;
  }

  // ------------------------------------------------------- what is said

  /** An interval is said in the largest unit that counts it whole. */
  lemma EverySaid(n: nat)
    requires n > 0 && n * 86_400 <= U64_MAX
    ensures DescribeEvery(n * 86_400) == if n == 1 then "1 day" else Decimal(n) + " days"
    ensures n % 24 != 0 ==> DescribeEvery(n * 3600) == Decimal(n) + " h"
    ensures n % 60 != 0 ==> DescribeEvery(n * 60) == Decimal(n) + " min"
    ensures n % 60 != 0 ==> DescribeEvery(n) == Decimal(n) + " s"
  {
    hide DescribeEvery, Decimal;
    SaidInDays(n);
    if n % 24 != 0 {
      SaidInHours(n);
    }
    if n % 60 != 0 {
      SaidInMinutes(n);
      SaidInSeconds(n);
    }
  }

  lemma SaidInDays(n: nat)
    requires n > 0 && n * 86_400 <= U64_MAX
    ensures DescribeEvery(n * 86_400) == if n == 1 then "1 day" else Decimal(n) + " days"
  {
    Whole(n, 1, DAY);
    hide Decimal;
    SpacesJoin(Decimal(n));
  }

  lemma SaidInHours(n: nat)
    requires n % 24 != 0 && n * 3600 <= U64_MAX
    ensures DescribeEvery(n * 3600) == Decimal(n) + " h"
  {
    Whole(n, 24, HOUR);
    hide Decimal;
    SpacesJoin(Decimal(n));
  }

  lemma SaidInMinutes(n: nat)
    requires n % 60 != 0 && n * 60 <= U64_MAX
    ensures DescribeEvery(n * 60) == Decimal(n) + " min"
  {
    Whole(n, 60, MINUTE);
    Whole(n, 1440, MINUTE);
    MultiplesOf(n);
    hide Decimal;
    SpacesJoin(Decimal(n));
  }

  lemma SaidInSeconds(n: nat)
    requires n % 60 != 0 && n <= U64_MAX
    ensures DescribeEvery(n) == Decimal(n) + " s"
  {
    MultiplesOf(n);
    hide Decimal;
    SpacesJoin(Decimal(n));
  }

  lemma MultiplesOf(n: nat)
    requires n % 60 != 0
    ensures n % 1440 != 0 && n % 3600 != 0 && n % 86_400 != 0
  {
    Factor(n, 24, 60);
    Factor(n, 60, 60);
    Factor(n, 1440, 60);
  }

  lemma Factor(n: nat, k: nat, unit: nat)
    requires k > 0 && unit > 0 && k * unit > 0
    ensures n % (k * unit) == 0 ==> n % unit == 0
  {
    var whole := k * unit;
    if n % whole == 0 {
      var q := n / whole;
      Division(n, whole);
      assert q * whole == (q * k) * unit;
      DivisionIs(n, unit, q * k, 0);
    }
  }

  lemma SpacesJoin(s: string)
    ensures s + " " + "days" == s + " days" && s + " " + "h" == s + " h"
    ensures s + " " + "min" == s + " min" && s + " " + "s" == s + " s"
  {
  }

  /** A whole number of units is a whole number of larger ones only if it counts
      them. */
  lemma Whole(n: nat, k: nat, unit: nat)
    requires k > 0 && unit > 0
    ensures n * unit / unit == n && n * unit % unit == 0
    ensures n % k != 0 ==> n * unit % (k * unit) != 0
  {
    DivisionIs(n * unit, unit, n, 0);
    var q, r := n / k, n % k;
    Division(n, k);
    MulMono(r + 1, k, unit);
    MulMono(0, k - 1, unit);
    assert n * unit == q * (k * unit) + r * unit;
    assert (r + 1) * unit == r * unit + unit;
    DivisionIs(n * unit, k * unit, q, r * unit);
    if r != 0 {
      MulMono(1, r, unit);
    }
  }

  /** A wait is said in minutes below two hours, in hours and minutes below two days,
      in days from there, the started minute counted as whole. */
  lemma WaitSaid(s: u64)
    ensures MinutesLeft(s) * 60 < s + 60 <= MinutesLeft(s) * 60 + 60
    ensures forall n :: 0 <= n < 120 && MinutesLeft(s) == n ==> DescribeWait(s) == Decimal(n) + " min"
    ensures forall h :: 2 <= h < 48 && MinutesLeft(s) == 60 * h ==> DescribeWait(s) == Decimal(h) + " h"
    ensures forall h, m :: 2 <= h < 48 && 0 < m < 60 && MinutesLeft(s) == 60 * h + m ==>
              DescribeWait(s) == Decimal(h) + (" h " + (Decimal(m) + " min"))
    ensures forall d :: 2 <= d && 1440 * d <= MinutesLeft(s) < 1440 * (d + 1) ==>
              DescribeWait(s) == Decimal(d) + " days"
  {
    ShortWait(s);
    LongWait(s);
    hide Decimal, DescribeWait, MinutesLeft;
  }

  lemma ShortWait(s: u64)
    ensures MinutesLeft(s) * 60 < s + 60 <= MinutesLeft(s) * 60 + 60
    ensures MinutesLeft(s) < 120 ==> DescribeWait(s) == Decimal(MinutesLeft(s)) + " min"
    ensures forall h :: 2 <= h < 48 && MinutesLeft(s) == 60 * h ==> DescribeWait(s) == Decimal(h) + " h"
  {
    hide Decimal;
  }

  lemma LongWait(s: u64)
    ensures forall h, m :: 2 <= h < 48 && 0 < m < 60 && MinutesLeft(s) == 60 * h + m ==>
              DescribeWait(s) == Decimal(h) + (" h " + (Decimal(m) + " min"))
    ensures forall d :: 2 <= d && 1440 * d <= MinutesLeft(s) < 1440 * (d + 1) ==>
              DescribeWait(s) == Decimal(d) + " days"
  {
    hide Decimal;
  }
}
