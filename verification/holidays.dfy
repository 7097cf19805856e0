/**
 * The holiday catalogue: every recurring German holiday and the rule that gives
 * its date in a year. Fixed holidays are a month and a day; the Easter-relative
 * ones are a day offset from Easter Sunday, which the anonymous Gregorian
 * computus yields for the years 1583 to 9999; Buß- und Bettag is the Wednesday
 * before 23 November.
 */
module Holidays {
  import opened Options
  import opened Time

  datatype Holiday =
    | Neujahr
    | HeiligeDreiKoenige
    | Frauentag
    | Karfreitag
    | Ostermontag
    | TagDerArbeit
    | TagDerBefreiung
    | ChristiHimmelfahrt
    | Pfingstsonntag
    | Pfingstmontag
    | Fronleichnam
    | AugsburgerFriedensfest
    | MariaeHimmelfahrt
    | Weltkindertag
    | TagDerDeutschenEinheit
    | Reformationstag
    | Allerheiligen
    | BussUndBettag
    | ErsterWeihnachtsfeiertag
    | ZweiterWeihnachtsfeiertag

  /** `Holiday::date`: the date of the holiday in `year`, if it can be computed. */
  function HolidayDate(h: Holiday, year: int): Option<Date> {
    match h
    case Neujahr => FromCalendarDate(year, 1, 1)
    case HeiligeDreiKoenige => FromCalendarDate(year, 1, 6)
    case Frauentag => FromCalendarDate(year, 3, 8)
    case Karfreitag => RelativeToEasterSunday(year, -2)
    case Ostermontag => RelativeToEasterSunday(year, 1)
    case TagDerArbeit => FromCalendarDate(year, 5, 1)
    case TagDerBefreiung => FromCalendarDate(year, 5, 8)
    case ChristiHimmelfahrt => RelativeToEasterSunday(year, 39)
    case Pfingstsonntag => RelativeToEasterSunday(year, 49)
    case Pfingstmontag => RelativeToEasterSunday(year, 50)
    case Fronleichnam => RelativeToEasterSunday(year, 60)
    case AugsburgerFriedensfest => FromCalendarDate(year, 8, 8)
    case MariaeHimmelfahrt => FromCalendarDate(year, 8, 15)
    case Weltkindertag => FromCalendarDate(year, 9, 20)
    case TagDerDeutschenEinheit => FromCalendarDate(year, 10, 3)
    case Reformationstag => FromCalendarDate(year, 10, 31)
    case Allerheiligen => FromCalendarDate(year, 11, 1)
    case BussUndBettag => BusUndBettag(year)
    case ErsterWeihnachtsfeiertag => FromCalendarDate(year, 12, 25)
    case ZweiterWeihnachtsfeiertag => FromCalendarDate(year, 12, 26)
  }

  /** `bus_und_bettag`: step back from 23 November to the Wednesday before it. */
  function BusUndBettag(year: int): Option<Date> {
    match FromCalendarDate(year, 11, 23)
    case None => None
    case Some(reference) =>
      var weekday := Weekday(reference);
      var duration := if weekday < 3 then -(weekday + 5) else 2 - weekday;
      Some(AddDays(reference, duration))
  }

  /** `relative_to_easter_sunday`: Easter Sunday moved by a signed number of days. */
  function RelativeToEasterSunday(year: int, offset: int): Option<Date> {
    match ComputusGregorian(year)
    case None => None
    case Some(easter) => Some(AddDays(easter, offset))
  }

  // ---------------------------------------------------------------------------
  // The computus, with Rust's integer operators

  /** Rust's `/` on integers: the quotient is truncated toward zero. */
  function Div(a: int, b: int): int
    requires b > 0
  {
    if a >= 0 then a / b else -((-a) / b)
  }

  /** Rust's `%` on integers: the remainder takes the sign of the dividend. */
  function Rem(a: int, b: int): int
    requires b > 0
  {
    if a >= 0 then a % b else -((-a) % b)
  }

  /** The intermediate values of the computus, named as in the source. */
  datatype Computus = Computus(
    aa: int, bb: int, cc: int, dd: int, ee: int, ff: int, gg: int,
    hh: int, ii: int, kk: int, ll: int, mm: int, month: int, day: int)

  function ComputusSteps(year: int): Computus {
    var aa := Rem(year, 19);
    var bb := Div(year, 100);
    var cc := Rem(year, 100);
    var dd := Div(bb, 4);
    var ee := Rem(bb, 4);
    var ff := Div(bb + 8, 25);
    var gg := Div(bb - ff + 1, 3);
    var hh := Rem(19 * aa + bb - dd - gg + 15, 30);
    var ii := Div(cc, 4);
    var kk := Rem(cc, 4);
    var ll := Rem(32 + 2 * ee + 2 * ii - hh - kk, 7);
    var mm := Div(aa + 11 * hh + 22 * ll, 451);
    var month := Div(hh + ll - 7 * mm + 114, 31);
    var day := Rem(hh + ll - 7 * mm + 114, 31) + 1;
    Computus(aa, bb, cc, dd, ee, ff, gg, hh, ii, kk, ll, mm, month, day)
  }

  /** `x as u8`: keeps the low eight bits. */
  function AsU8(x: int): int {
    x % 256
  }

  /** `Month::try_from(n).ok()`. */
  function MonthTryFrom(n: int): Option<Month> {
    if 1 <= n <= 12 then Some(n) else None
  }

  /** `computus_gregorian`: Easter Sunday of `year`, for the years 1583 to 9999. */
  function ComputusGregorian(year: int): (r: Option<Date>)
    ensures r.Some? ==> IsValid(r.value) && r.value.year == year
  {
    if !(1583 <= year <= 9999) then None
    else
      var s := ComputusSteps(year);
      match MonthTryFrom(AsU8(s.month))
      case None => None
      case Some(month) => FromCalendarDate(year, month, AsU8(s.day))
  }

  /**
   * The computus written with Euclidean `/` and `%`: the textbook form of the
   * anonymous Gregorian algorithm, which the Rust code matches when no
   * dividend is negative.
   */
  ghost predicate ClassicalSteps(year: int, s: Computus) {
    && s.aa == year % 19 && s.bb == year / 100 && s.cc == year % 100
    && s.dd == s.bb / 4 && s.ee == s.bb % 4
    && s.ff == (s.bb + 8) / 25 && s.gg == (s.bb - s.ff + 1) / 3
    && s.hh == (19 * s.aa + s.bb - s.dd - s.gg + 15) % 30
    && s.ii == s.cc / 4 && s.kk == s.cc % 4
    && s.ll == (32 + 2 * s.ee + 2 * s.ii - s.hh - s.kk) % 7
    && s.mm == (s.aa + 11 * s.hh + 22 * s.ll) / 451
    && s.month == (s.hh + s.ll - 7 * s.mm + 114) / 31
    && s.day == (s.hh + s.ll - 7 * s.mm + 114) % 31 + 1
  }

  /**
   * `Div` and `Rem` are Rust's pair: the dividend is quotient times divisor plus
   * remainder, and the remainder has the sign of the dividend.
   */
  lemma TruncatedDivision(a: int, b: int)
    requires 0 < b
    ensures a == b * Div(a, b) + Rem(a, b)
    ensures 0 <= a ==> 0 <= Rem(a, b) < b
    ensures a < 0 ==> -b < Rem(a, b) <= 0
  {
  }

  /** Truncating and Euclidean division agree on a non-negative dividend. */
  lemma TruncationAgrees(a: int, b: int)
    requires 0 <= a && 0 < b
    ensures Div(a, b) == a / b && Rem(a, b) == a % b
  {
  }

  /**
   * Inside the year range every dividend of the computus is non-negative, so
   * Rust's truncating `/` and `%` agree with Dafny's Euclidean ones.
   */
  lemma ComputusStepsInRange(year: int)
    requires 1583 <= year <= 9999
    ensures ClassicalSteps(year, ComputusSteps(year))
  {
    TruncationAgrees(year, 19);
    TruncationAgrees(year, 100);
    var aa, bb, cc := year % 19, year / 100, year % 100;
    TruncationAgrees(bb, 4);
    TruncationAgrees(bb + 8, 25);
    var dd, ee, ff := bb / 4, bb % 4, (bb + 8) / 25;
    TruncationAgrees(bb - ff + 1, 3);
    var gg := (bb - ff + 1) / 3;
    TruncationAgrees(19 * aa + bb - dd - gg + 15, 30);
    var hh := (19 * aa + bb - dd - gg + 15) % 30;
    TruncationAgrees(cc, 4);
    var ii, kk := cc / 4, cc % 4;
    TruncationAgrees(32 + 2 * ee + 2 * ii - hh - kk, 7);
    var ll := (32 + 2 * ee + 2 * ii - hh - kk) % 7;
    TruncationAgrees(aa + 11 * hh + 22 * ll, 451);
    var mm := (aa + 11 * hh + 22 * ll) / 451;
    assert mm <= 1;
    TruncationAgrees(hh + ll - 7 * mm + 114, 31);
    var month, day := (hh + ll - 7 * mm + 114) / 31, (hh + ll - 7 * mm + 114) % 31 + 1;
    assert ComputusSteps(year) == Computus(aa, bb, cc, dd, ee, ff, gg, hh, ii, kk, ll, mm, month, day);
  }

  /** The residues of the computus stay in their classical ranges. */
  lemma ClassicalBounds(year: int, s: Computus)
    requires 1583 <= year <= 9999 && ClassicalSteps(year, s)
    ensures 0 <= s.aa <= 18 && 15 <= s.bb <= 99 && 0 <= s.cc <= 99
    ensures 0 <= s.ee <= 3 && 0 <= s.ff <= 4 && 0 <= s.ii <= 24 && 0 <= s.kk <= 3
    ensures 0 <= s.hh <= 29 && 0 <= s.ll <= 6 && 0 <= s.mm <= 1
    ensures s.mm == 1 ==> s.ll == 6 && 28 <= s.hh
    ensures 0 <= s.hh + s.ll - 7 * s.mm <= 34
    ensures 0 <= 32 + 2 * s.ee + 2 * s.ii - s.hh - s.kk
  {
  }

  /** The day number of 22 March, from the leap-year counts up to and including `year`. */
  lemma March22DayNumber(year: int)
    ensures DayNumber(Date(year, 3, 22)) == 365 * (year - 1) + year / 4 - year / 100 + year / 400 + 80
  {
    DivNext(year - 1, 4);
    DivNext(year - 1, 100);
    DivNext(year - 1, 400);
    assert DaysBeforeMonth(year, 3) == 59 + (if IsLeapYear(year) then 1 else 0);
  }

  /** Splitting a year into century b = 4d + e and year of century c = 4i + k. */
  lemma CenturySplit(year: int, b: int, c: int, d: int, e: int, i: int, k: int)
    requires 0 <= year
    requires b == year / 100 && c == year % 100 && d == b / 4 && e == b % 4 && i == c / 4 && k == c % 4
    ensures year / 4 == 25 * b + i && year / 100 == b && year / 400 == d
    ensures year == 400 * d + 100 * e + 4 * i + k
  {
    assert year == 100 * b + c && b == 4 * d + e && c == 4 * i + k;
    assert year == 4 * (25 * b + i) + k;
    assert year == 400 * d + (100 * e + c);
  }

  /**
   * 22 March of `year` falls on weekday 2 - 2e - 2i + k (modulo 7), with the
   * computus's e = (year / 100) % 4, i = (year % 100) / 4 and k = year % 4.
   */
  lemma March22Weekday(year: int)
    requires 1 <= year
    ensures var b, c := year / 100, year % 100;
      (DayNumber(Date(year, 3, 22)) - (5 * (b % 4) + 5 * (c / 4) + c % 4 + 2)) % 7 == 0
  {
    var b, c := year / 100, year % 100;
    var d, e, i, k := b / 4, b % 4, c / 4, c % 4;
    CenturySplit(year, b, c, d, e, i, k);
    March22DayNumber(year);
    WeekSplit(DayNumber(Date(year, 3, 22)), year, b, d, e, i, k);
  }

  /** The arithmetic behind `March22Weekday`, on plain integers. */
  lemma WeekSplit(dn: int, year: int, b: int, d: int, e: int, i: int, k: int)
    requires year == 400 * d + 100 * e + 4 * i + k && b == 4 * d + e
    requires dn == 365 * (year - 1) + (25 * b + i) - b + d + 80
    ensures (dn - (5 * e + 5 * i + k + 2)) % 7 == 0
  {
    assert dn - (5 * e + 5 * i + k + 2) == 7 * (20871 * d + 5217 * e + 208 * i + 52 * k - 41);
  }

  /** The month and day the computus derives: 22 March plus n = hh + ll - 7 mm days. */
  lemma EasterDate(year: int)
    requires 1583 <= year <= 9999
    ensures var s := ComputusSteps(year);
      var n := s.hh + s.ll - 7 * s.mm;
      && 0 <= n <= 34
      && ComputusGregorian(year) == Some(if n <= 9 then Date(year, 3, 22 + n) else Date(year, 4, n - 9))
  {
    var s := ComputusSteps(year);
    var n := s.hh + s.ll - 7 * s.mm;
    assert 0 <= n <= 34
      && s.month == (if n <= 9 then 3 else 4) && s.day == (if n <= 9 then 22 + n else n - 9)
      && AsU8(s.month) == s.month && AsU8(s.day) == s.day
    by {
      ComputusStepsInRange(year);
      ClassicalBounds(year, s);
      MonthAndDay(n, s.month, s.day);
    }
    var month: Month := s.month;
    assert MonthTryFrom(AsU8(s.month)) == Some(month);
    assert ComputusGregorian(year) == FromCalendarDate(year, month, s.day);
  }

  /** Days 114 to 148 counted from the start of the year in 31-day months. */
  lemma MonthAndDay(n: int, month: int, day: int)
    requires 0 <= n <= 34
    requires month == (n + 114) / 31 && day == (n + 114) % 31 + 1
    ensures n <= 9 ==> month == 3 && day == 22 + n
    ensures n > 9 ==> month == 4 && day == n - 9
    ensures AsU8(month) == month && AsU8(day) == day
  {
  }

  /** 22 March plus n days, for the n the computus can produce. */
  lemma DaysAfterMarch22(year: int, n: int)
    requires 0 <= n <= 34
    ensures var d := if n <= 9 then Date(year, 3, 22 + n) else Date(year, 4, n - 9);
      IsCalendarDate(d) && DayNumber(d) == DayNumber(Date(year, 3, 22)) + n
  {
    DaysBeforeMonthBounds(year, 3);
  }

  /** Easter Sunday is 22 March plus hh + ll - 7 mm days, and a Sunday. */
  lemma EasterFromMarch22(year: int)
    requires 1583 <= year <= 9999
    ensures var s := ComputusSteps(year);
      var n := s.hh + s.ll - 7 * s.mm;
      && 0 <= n <= 34
      && ComputusGregorian(year) == Some(if n <= 9 then Date(year, 3, 22 + n) else Date(year, 4, n - 9))
      && DayNumber(ComputusGregorian(year).value) == DayNumber(Date(year, 3, 22)) + n
      && Weekday(ComputusGregorian(year).value) == 6
  {
    var s := ComputusSteps(year);
    var n := s.hh + s.ll - 7 * s.mm;
    var easter := if n <= 9 then Date(year, 3, 22 + n) else Date(year, 4, n - 9);
    assert 0 <= n <= 34 && ComputusGregorian(year) == Some(easter) by {
      EasterDate(year);
    }
    var m22 := DayNumber(Date(year, 3, 22));
    assert DayNumber(easter) == m22 + n by {
      DaysAfterMarch22(year, n);
    }
    assert (m22 + n) % 7 == 6 by {
      assert && (m22 - (5 * s.ee + 5 * s.ii + s.kk + 2)) % 7 == 0
             && 0 <= 32 + 2 * s.ee + 2 * s.ii - s.hh - s.kk
             && s.ll == (32 + 2 * s.ee + 2 * s.ii - s.hh - s.kk) % 7
      by {
        ComputusStepsInRange(year);
        ClassicalBounds(year, s);
        March22Weekday(year);
      }
      SundayArithmetic(m22, s.ee, s.ii, s.kk, s.hh, s.ll, s.mm);
    }
  }

  /**
   * With 22 March on weekday 2 - 2e - 2i + k and ll = (32 + 2e + 2i - hh - kk) % 7,
   * the day hh + ll - 7 mm after it is a Sunday.
   */
  lemma SundayArithmetic(m22: int, e: int, i: int, k: int, h: int, l: int, m: int)
    requires (m22 - (5 * e + 5 * i + k + 2)) % 7 == 0
    requires 0 <= 32 + 2 * e + 2 * i - h - k && l == (32 + 2 * e + 2 * i - h - k) % 7
    ensures (m22 + h + l - 7 * m) % 7 == 6
  {
    var x := 32 + 2 * e + 2 * i - h - k;
    var q := (m22 - (5 * e + 5 * i + k + 2)) / 7;
    assert m22 - (5 * e + 5 * i + k + 2) == 7 * q;
    assert x == 7 * (x / 7) + l;
    assert m22 + h + l - 7 * m == 7 * (q + e + i + 4 - x / 7 - m) + 6;
  }

  /**
   * The computus is defined exactly for 1583 to 9999, and there it gives a
   * Sunday between 22 March and 25 April of the same year.
   */
  lemma EasterSunday(year: int)
    ensures ComputusGregorian(year).Some? <==> 1583 <= year <= 9999
    ensures ComputusGregorian(year).Some? ==>
      var easter := ComputusGregorian(year).value;
      && IsValid(easter) && easter.year == year
      && ((easter.month == 3 && 22 <= easter.day) || (easter.month == 4 && easter.day <= 25))
      && Weekday(easter) == 6
  {
    if 1583 <= year <= 9999 {
      EasterFromMarch22(year);
    }
  }

  // ---------------------------------------------------------------------------
  // Easter-relative holidays

  /**
   * For the offsets the catalogue uses, the date is defined exactly when Easter
   * is, lies `offset` days from Easter Sunday on the matching weekday, and stays
   * between 20 March and 24 June of the same year (so the step never crosses
   * February or the year's end, and never leaves the year range).
   */
  lemma EasterRelative(year: int, offset: int)
    requires -2 <= offset <= 60
    ensures RelativeToEasterSunday(year, offset).Some? <==> 1583 <= year <= 9999
    ensures RelativeToEasterSunday(year, offset).Some? ==>
      var d := RelativeToEasterSunday(year, offset).value;
      && IsValid(d) && d.year == year
      && DayNumber(d) == DayNumber(ComputusGregorian(year).value) + offset
      && Weekday(d) == (6 + offset) % 7
      && DayNumber(Date(year, 3, 22)) + offset <= DayNumber(d) <= DayNumber(Date(year, 3, 22)) + 34 + offset
      && !Before(d, Date(year, 3, 20)) && !Before(Date(year, 6, 24), d)
  {
    if 1583 <= year <= 9999 {
      var s := ComputusSteps(year);
      var n := s.hh + s.ll - 7 * s.mm;
      assert ComputusGregorian(year).Some? by {
        EasterDate(year);
      }
      var easter := ComputusGregorian(year).value;
      var m22 := DayNumber(Date(year, 3, 22));
      assert 0 <= n <= 34 && IsCalendarDate(easter) && DayNumber(easter) == m22 + n
        && Weekday(easter) == 6
      by {
        EasterFromMarch22(year);
      }
      var d := AddDays(easter, offset);
      AddDaysNumber(easter, offset);
      AddDaysWeekday(easter, offset);
      DaysBeforeMonthBounds(year, 3);
      DaysBeforeMonthBounds(year, 4);
      DaysBeforeMonthBounds(year, 5);
      assert DayNumber(Date(year, 3, 20)) == m22 - 2;
      assert DayNumber(Date(year, 6, 24)) == m22 + 94;
      DayNumberOrder(d, Date(year, 3, 20));
      DayNumberOrder(Date(year, 6, 24), d);
    }
  }

  /** Every day that is Fronleichnam is a Thursday from 21 May to 24 June. */
  lemma FronleichnamSeason(date: Date)
    requires Observes(RuleOf(Fronleichnam), date)
    ensures Weekday(date) == 3
    ensures (date.month == 5 && 21 <= date.day) || (date.month == 6 && date.day <= 24)
  {
    var year := date.year;
    assert && IsCalendarDate(date) && Weekday(date) == (6 + 60) % 7
      && DayNumber(Date(year, 3, 22)) + 60 <= DayNumber(date) && !Before(Date(year, 6, 24), date)
    by {
      HolidayDateObserves(Fronleichnam, date);
      EasterRelative(year, 60);
    }
    assert (6 + 60) % 7 == 3;
    assert DayNumber(Date(year, 5, 21)) == DayNumber(Date(year, 3, 22)) + 60;
    DayNumberOrder(date, Date(year, 5, 21));
  }

  // ---------------------------------------------------------------------------
  // Buß- und Bettag

  /** Two days of one month a week apart or less share a weekday only if they coincide. */
  lemma SameWeekdayWithinWeek(d1: Date, d2: Date)
    requires IsCalendarDate(d1) && IsCalendarDate(d2)
    requires d1.year == d2.year && d1.month == d2.month && -7 < d1.day - d2.day < 7
    requires Weekday(d1) == Weekday(d2)
    ensures d1 == d2
  {
    assert DayNumber(d1) - DayNumber(d2) == d1.day - d2.day;
    SameResidueWithinWeek(DayNumber(d1), DayNumber(d2));
  }

  /** Two numbers less than a week apart with the same remainder modulo 7 are equal. */
  lemma SameResidueWithinWeek(x1: int, x2: int)
    requires x1 % 7 == x2 % 7 && -7 < x1 - x2 < 7
    ensures x1 == x2
  {
    assert x1 == 7 * (x1 / 7) + x1 % 7;
    assert x2 == 7 * (x2 / 7) + x2 % 7;
  }

  /**
   * Buß- und Bettag is defined whenever 23 November is, and is then the latest
   * Wednesday strictly before it: a Wednesday from 16 to 22 November, reached by
   * stepping back w + 5 days when 23 November's weekday w is below 3 and w - 2
   * days otherwise (between one and seven days).
   */
  lemma BusUndBettagSpec(year: int)
    ensures BusUndBettag(year).Some? <==> MinYear <= year <= MaxYear
    ensures BusUndBettag(year).Some? ==>
      var d := BusUndBettag(year).value;
      var w := Weekday(Date(year, 11, 23));
      && IsValid(d) && d.year == year && d.month == 11 && 16 <= d.day <= 22
      && Weekday(d) == 2
      && DayNumber(Date(year, 11, 23)) - DayNumber(d) == (if w < 3 then w + 5 else w - 2)
      && 1 <= DayNumber(Date(year, 11, 23)) - DayNumber(d) <= 7
      && forall later :: d.day < later <= 22 ==> Weekday(Date(year, 11, later)) != 2
  {
    if MinYear <= year <= MaxYear {
      var reference := Date(year, 11, 23);
      var x := DayNumber(reference);
      var w := Weekday(reference);
      var step := if w < 3 then w + 5 else w - 2;
      var d := Date(year, 11, 23 - step);
      assert BusUndBettag(year) == Some(d);
      assert x == 7 * (x / 7) + w;
      forall later | 23 - step <= later <= 22
        ensures Weekday(Date(year, 11, later)) == (w - 23 + later) % 7
      {
        assert DayNumber(Date(year, 11, later)) == 7 * (x / 7) + (w - 23 + later);
        ModSevenShift(x / 7, w - 23 + later);
      }
    }
  }

  // ---------------------------------------------------------------------------
  // The catalogue as a table of rules

  /** How a holiday's date is determined. */
  datatype Rule = Fixed(month: Month, day: int) | EasterOffset(days: int) | WednesdayBeforeNovember23

  /**
   * The catalogue as a specification table: which rule each holiday follows.
   * `Observes` gives each rule its meaning independently of the date computations,
   * and `HolidayDateObserves` proves `HolidayDate` agrees with it.
   */
  function RuleOf(h: Holiday): Rule {
    match h
    case Neujahr => Fixed(1, 1)
    case HeiligeDreiKoenige => Fixed(1, 6)
    case Frauentag => Fixed(3, 8)
    case Karfreitag => EasterOffset(-2)
    case Ostermontag => EasterOffset(1)
    case TagDerArbeit => Fixed(5, 1)
    case TagDerBefreiung => Fixed(5, 8)
    case ChristiHimmelfahrt => EasterOffset(39)
    case Pfingstsonntag => EasterOffset(49)
    case Pfingstmontag => EasterOffset(50)
    case Fronleichnam => EasterOffset(60)
    case AugsburgerFriedensfest => Fixed(8, 8)
    case MariaeHimmelfahrt => Fixed(8, 15)
    case Weltkindertag => Fixed(9, 20)
    case TagDerDeutschenEinheit => Fixed(10, 3)
    case Reformationstag => Fixed(10, 31)
    case Allerheiligen => Fixed(11, 1)
    case BussUndBettag => WednesdayBeforeNovember23
    case ErsterWeihnachtsfeiertag => Fixed(12, 25)
    case ZweiterWeihnachtsfeiertag => Fixed(12, 26)
  }

  /** `date` is the day `rule` names in `date`'s own year. */
  ghost predicate Observes(rule: Rule, date: Date) {
    match rule
    case Fixed(month, day) => IsValid(date) && date.month == month && date.day == day
    case EasterOffset(days) =>
      && IsValid(date) && ComputusGregorian(date.year).Some?
      && DayNumber(date) == DayNumber(ComputusGregorian(date.year).value) + days
    case WednesdayBeforeNovember23 =>
      IsValid(date) && date.month == 11 && 16 <= date.day <= 22 && Weekday(date) == 2
  }

  /** Proof helper: `Holiday::date` dispatches every holiday to the computation its rule names. */
  lemma HolidayDateFollowsRule(h: Holiday, year: int)
    ensures match RuleOf(h)
      case Fixed(month, day) => HolidayDate(h, year) == FromCalendarDate(year, month, day)
      case EasterOffset(days) => -2 <= days <= 60 && HolidayDate(h, year) == RelativeToEasterSunday(year, days)
      case WednesdayBeforeNovember23 => HolidayDate(h, year) == BusUndBettag(year)
  {
  }

  /**
   * A holiday's date is missing only when its computation cannot be done: the
   * computus outside 1583 to 9999 for the Easter-relative ones, the date type's
   * year range for the others. A date that is found lies in the requested year.
   */
  lemma HolidayDateDefined(h: Holiday, year: int)
    ensures HolidayDate(h, year).Some? <==>
      if RuleOf(h).EasterOffset? then 1583 <= year <= 9999 else MinYear <= year <= MaxYear
    ensures HolidayDate(h, year).Some? ==>
      IsValid(HolidayDate(h, year).value) && HolidayDate(h, year).value.year == year
  {
    HolidayDateFollowsRule(h, year);
    match RuleOf(h)
    case Fixed(_, _) =>
    case EasterOffset(days) => EasterRelative(year, days);
    case WednesdayBeforeNovember23 => BusUndBettagSpec(year);
  }

  /** `Holiday::date` finds exactly the days its rule names. */
  lemma HolidayDateObserves(h: Holiday, date: Date)
    ensures HolidayDate(h, date.year) == Some(date) <==> Observes(RuleOf(h), date)
  {
    var year := date.year;
    HolidayDateFollowsRule(h, year);
    match RuleOf(h)
    case Fixed(_, _) =>
    case EasterOffset(days) =>
      EasterRelative(year, days);
      if Observes(RuleOf(h), date) {
        var easter := ComputusGregorian(year).value;
        AddDaysUnique(easter, days, date);
      }
    case WednesdayBeforeNovember23 =>
      BusUndBettagSpec(year);
      if Observes(RuleOf(h), date) {
        SameWeekdayWithinWeek(date, BusUndBettag(year).value);
      }
  }
}
