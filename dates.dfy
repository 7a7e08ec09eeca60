/** The dashboard's look-back window (app/page.tsx, calcFromDate): calendar
    arithmetic on a JavaScript Date, and the ISO 8601 date string it yields. */
module Dates {
  import opened LexOrder

  /** A calendar date; month runs 1..12 (JavaScript's getMonth() is month - 1). */
  datatype Date = Date(year: int, month: int, day: int)

  /** The chart's look-back ranges '1M', '1Y', '3Y', '5Y' and '10Y'. */
  datatype TimeRange = OneMonth | OneYear | ThreeYears | FiveYears | TenYears

  /** Proleptic Gregorian leap years, as ECMAScript's DaysInYear counts them. */
  predicate IsLeapYear(y: int)
  {
    y % 4 == 0 && (y % 100 != 0 || y % 400 == 0)
  }

  function DaysInMonth(y: int, m: int): (n: int)
    requires 1 <= m <= 12
    ensures 28 <= n <= 31
  {
    if m == 2 then (if IsLeapYear(y) then 29 else 28)
    else if m == 4 || m == 6 || m == 9 || m == 11 then 30
    else 31
  }

  predicate ValidDate(d: Date)
  {
    1 <= d.month <= 12 && 1 <= d.day <= DaysInMonth(d.year, d.month)
  }

  /** Chronological order. */
  predicate Before(a: Date, b: Date)
  {
    a.year < b.year
    || (a.year == b.year && (a.month < b.month || (a.month == b.month && a.day < b.day)))
  }

  // ---------------------------------------------------------------------
  // Day numbers: the independent reference for what a JavaScript Date does

  /** ECMAScript's DayFromYear: days from 1970-01-01 to 1 January of y. */
  function DayFromYear(y: int): (n: int)
  {
    365 * (y - 1970) + (y - 1969) / 4 - (y - 1901) / 100 + (y - 1601) / 400
  }

  /** Days from 1 January to the first of month m, as ECMAScript's MonthFromTime table has them. */
  function DaysBeforeMonth(y: int, m: int): (n: int)
    requires 1 <= m <= 12
  {
    var common :=
      if m == 1 then 0 else if m == 2 then 31 else if m == 3 then 59
      else if m == 4 then 90 else if m == 5 then 120 else if m == 6 then 151
      else if m == 7 then 181 else if m == 8 then 212 else if m == 9 then 243
      else if m == 10 then 273 else if m == 11 then 304 else 334;
    common + (if m > 2 && IsLeapYear(y) then 1 else 0)
  }

  /** Days from 1970-01-01 to d: the time value a JavaScript Date holds, in days. */
  function DayNumber(d: Date): (n: int)
    requires 1 <= d.month <= 12
  {
    DayFromYear(d.year) + DaysBeforeMonth(d.year, d.month) + d.day - 1
  }

  lemma LeapStep4(y: int)
    ensures (y - 1968) / 4 - (y - 1969) / 4 == if y % 4 == 0 then 1 else 0
  {
  }

  lemma LeapStep100(y: int)
    ensures (y - 1900) / 100 - (y - 1901) / 100 == if y % 100 == 0 then 1 else 0
  {
  }

  lemma LeapStep400(y: int)
    ensures (y - 1600) / 400 - (y - 1601) / 400 == if y % 400 == 0 then 1 else 0
  {
  }

  lemma LeapNesting(y: int)
    ensures y % 400 == 0 ==> y % 100 == 0
    ensures y % 100 == 0 ==> y % 4 == 0
  {
  }

  /** A year is 366 days long exactly when it is a leap year. */
  lemma YearLength(y: int)
    ensures DayFromYear(y + 1) == DayFromYear(y) + DaysBeforeMonth(y, 12) + 31
  {
    LeapStep4(y);
    LeapStep100(y);
    LeapStep400(y);
    LeapNesting(y);
    assert DaysBeforeMonth(y, 12) == 334 + if IsLeapYear(y) then 1 else 0;
  }

  /** The first of the month after (y, m) is DaysInMonth(y, m) days after the first of (y, m). */
  lemma NextMonthStart(y: int, m: int)
    requires 1 <= m <= 12
    ensures var next := if m == 12 then Date(y + 1, 1, 1) else Date(y, m + 1, 1);
            DayNumber(next) == DayNumber(Date(y, m, 1)) + DaysInMonth(y, m)
  {
    if m == 12 {
      YearLength(y);
    }
  }

  /** Day dd of month m of year y, where dd may run past the month's end: the
      day rolls forward into the next month (ECMAScript's MakeDay); nothing is
      clamped. SettleDayNumber states what date that is. */
  function Settle(y: int, m: int, dd: int): (r: Date)
    requires 1 <= m <= 12 && 1 <= dd <= 31
    ensures ValidDate(r)
  {
    var n := DaysInMonth(y, m);
    if dd <= n then Date(y, m, dd) else Date(y, m + 1, dd - n)
  }

  /** Settle(y, m, dd) is the date dd - 1 days after the first of (y, m). */
  lemma SettleDayNumber(y: int, m: int, dd: int)
    requires 1 <= m <= 12 && 1 <= dd <= 31
    ensures DayNumber(Settle(y, m, dd)) == DayNumber(Date(y, m, 1)) + dd - 1
  {
    if dd > DaysInMonth(y, m) {
      NextMonthStart(y, m);
    }
  }

  /** Two valid dates with the same day number are the same date. */
  lemma DayNumberInjective(a: Date, b: Date)
    requires ValidDate(a) && ValidDate(b)
    ensures DayNumber(a) == DayNumber(b) <==> a == b
    ensures DayNumber(a) < DayNumber(b) <==> Before(a, b)
  {
    if Before(a, b) {
      DayNumberMonotone(a, b);
    } else if Before(b, a) {
      DayNumberMonotone(b, a);
    }
  }

  lemma DayNumberMonotone(a: Date, b: Date)
    requires ValidDate(a) && ValidDate(b) && Before(a, b)
    ensures DayNumber(a) < DayNumber(b)
  {
    if a.year < b.year {
      YearsApart(a.year, b.year);
    }
  }

  /** Every day of an earlier year comes before 1 January of any later year. */
  lemma {:induction false} YearsApart(y: int, z: int)
    requires y < z
    ensures DayFromYear(z) >= DayFromYear(y) + DaysBeforeMonth(y, 12) + 31
    decreases z - y
  {
    YearLength(y);
    if y + 1 < z {
      YearsApart(y + 1, z);
      YearLength(y + 1);
    }
  }

  // ---------------------------------------------------------------------
  // The mutable JavaScript Date that calcFromDate works on

  /** The calendar fields of a JavaScript Date at midnight (time of day and
      time zone are not modelled). */
  class JsDate {
    var year: int
    var month: int  // 0..11, as getMonth() returns it
    var date: int

    predicate Valid()
      reads this
    {
      0 <= month < 12 && ValidDate(Date(year, month + 1, date))
    }

    function ToDate(): (d: Date)
      reads this
    {
      Date(year, month + 1, date)
    }

    /** new Date(baseDate): a copy. */
    constructor (d: Date)
      requires ValidDate(d)
      ensures Valid() && ToDate() == d
    {
      year, month, date := d.year, d.month - 1, d.day;
    }

    /** getMonth(): the zero-based month of the held calendar date. */
    function GetMonth(): (m: int)
      reads this
      ensures Valid() ==> 0 <= m < 12
      ensures m + 1 == ToDate().month
    {
      month
    }

    /** getFullYear(): the year of the held calendar date. */
    function GetFullYear(): (y: int)
      reads this
      ensures y == ToDate().year
    {
      year
    }

    /** setMonth(v): month v counted from January of the current year (v may
        be negative), day of month kept and rolled forward if it overflows. */
    method SetMonth(v: int)
      requires Valid()
      modifies this
      ensures Valid()
      ensures ToDate() == Settle(old(year) + v / 12, v % 12 + 1, old(date))
    {
      var r := Settle(year + v / 12, v % 12 + 1, date);
      year, month, date := r.year, r.month - 1, r.day;
    }

    /** setFullYear(v): year replaced, month and day kept and rolled forward
        if the day does not exist in that year. */
    method SetFullYear(v: int)
      requires Valid()
      modifies this
      ensures Valid()
      ensures ToDate() == Settle(v, old(month) + 1, old(date))
    {
      var r := Settle(v, month + 1, date);
      year, month, date := r.year, r.month - 1, r.day;
    }
  }

  // ---------------------------------------------------------------------
  // calcFromDate

  function YearsBack(range: TimeRange): (n: nat)
  {
    match range
    case OneMonth => 0
    case OneYear => 1
    case ThreeYears => 3
    case FiveYears => 5
    case TenYears => 10
  }

  /** The calendar date calcFromDate arrives at, before it is formatted. */
  function FromDate(range: TimeRange, anchor: Date): (r: Date)
    requires ValidDate(anchor)
    ensures ValidDate(r)
    ensures anchor.year - 10 <= r.year <= anchor.year
  {
    if range == OneMonth then
      // setMonth(getMonth() - 1): month -1 of a year is December of the year before
      if anchor.month == 1 then Settle(anchor.year - 1, 12, anchor.day)
      else Settle(anchor.year, anchor.month - 1, anchor.day)
    else
      Settle(anchor.year - YearsBack(range), anchor.month, anchor.day)
  }

  /** Powers of ten, for fixed-width decimal fields. */
  function Pow10(w: nat): (p: nat)
    ensures p >= 1
  {
    if w == 0 then 1 else 10 * Pow10(w - 1)
  }

  function DigitChar(k: int): (c: char)
    requires 0 <= k < 10
    ensures '0' <= c <= '9'
  {
    ('0' as int + k) as char
  }

  /** n in decimal with exactly w digits, zero-padded on the left. */
  function Digits(n: nat, w: nat): (s: string)
    requires n < Pow10(w)
    ensures |s| == w
    ensures forall k :: 0 <= k < |s| ==> '0' <= s[k] <= '9'
  {
    if w == 0 then "" else Digits(n / 10, w - 1) + [DigitChar(n % 10)]
  }

  /** toISOString().slice(0, 10) of a Date at midnight UTC: "YYYY-MM-DD" for
      years 0..9999; for years before 0 ECMAScript writes a signed six-digit
      year, so the first ten characters are "-YYYYYY-MM". */
  function IsoPrefix(d: Date): (s: string)
    requires ValidDate(d) && -999999 <= d.year <= 9999
    ensures |s| == 10
  {
    if d.year >= 0 then Digits(d.year, 4) + ("-" + (Digits(d.month, 2) + ("-" + Digits(d.day, 2))))
    else "-" + (Digits(-d.year, 6) + ("-" + Digits(d.month, 2)))
  }

  /** The switch of calcFromDate: moves d back by the range. */
  method StepBack(d: JsDate, range: TimeRange)
    requires d.Valid()
    modifies d
    ensures d.Valid() && d.ToDate() == FromDate(range, old(d.ToDate()))
  {
    ghost var a := d.ToDate();
    if range == OneMonth {
      var v := d.GetMonth() - 1;
      if a.month == 1 {
        assert v / 12 == -1 && v % 12 == 11;
      } else {
        assert v / 12 == 0 && v % 12 == a.month - 2;
      }
      d.SetMonth(v);
    } else {
      // '1Y', '3Y', '5Y' and '10Y' differ only in how many years go back
      d.SetFullYear(d.GetFullYear() - YearsBack(range));
    }
  }

  /** calcFromDate(range, baseDate) of app/page.tsx. The anchor comes from a
      "YYYY-MM-DD" string, so its year has four digits. */
  method CalcFromDate(range: TimeRange, baseDate: Date) returns (s: string)
    requires ValidDate(baseDate) && 0 <= baseDate.year <= 9999
    ensures s == IsoPrefix(FromDate(range, baseDate))
  {
    var d := new JsDate(baseDate);
    StepBack(d, range);
    s := IsoPrefix(d.ToDate());
  }

  // ---------------------------------------------------------------------
  // What calcFromDate computes

  /** '1Y', '3Y', '5Y', '10Y': the year goes back by 1, 3, 5 or 10 and month
      and day stay when that day exists in the target year; otherwise (29
      February into a common year) the date rolls forward to 1 March. */
  lemma FromDateYearsBack(range: TimeRange, a: Date)
    requires ValidDate(a) && range != OneMonth
    ensures var y := a.year - YearsBack(range);
            var r := FromDate(range, a);
            if a.day <= DaysInMonth(y, a.month) then r == Date(y, a.month, a.day)
            else a.month == 2 && a.day == 29 && r == Date(y, 3, 1)
  {
  }

  /** '1M': the previous month, January wrapping to December of the previous
      year; a day that does not exist there rolls forward into the following
      month, which is the anchor's own month, by the overflow count. */
  lemma FromDateMonthBack(a: Date)
    requires ValidDate(a)
    ensures var (py, pm) := if a.month == 1 then (a.year - 1, 12) else (a.year, a.month - 1);
            var r := FromDate(OneMonth, a);
            if a.day <= DaysInMonth(py, pm) then r == Date(py, pm, a.day)
            else r == Date(a.year, a.month, a.day - DaysInMonth(py, pm))
  {
  }

  /** The look-back date is always strictly earlier than the anchor. */
  lemma FromDateBefore(range: TimeRange, a: Date)
    requires ValidDate(a)
    ensures Before(FromDate(range, a), a)
  {
    if range == OneMonth {
      FromDateMonthBack(a);
    } else {
      FromDateYearsBack(range, a);
    }
  }

  /** The look-back date, counted in days: anchor's day minus one after the
      first of the target month, whatever that month's length. */
  lemma FromDateDayCount(range: TimeRange, a: Date)
    requires ValidDate(a)
    ensures var (ty, tm) :=
              if range != OneMonth then (a.year - YearsBack(range), a.month)
              else if a.month == 1 then (a.year - 1, 12) else (a.year, a.month - 1);
            DayNumber(FromDate(range, a)) == DayNumber(Date(ty, tm, 1)) + a.day - 1
  {
    if range == OneMonth {
      if a.month == 1 {
        SettleDayNumber(a.year - 1, 12, a.day);
      } else {
        SettleDayNumber(a.year, a.month - 1, a.day);
      }
    } else {
      SettleDayNumber(a.year - YearsBack(range), a.month, a.day);
    }
  }

  // ---------------------------------------------------------------------
  // ISO 8601 strings: text order is date order

  predicate IsDigit(c: char)
  {
    '0' <= c <= '9'
  }

  /** The complete extended calendar date format YYYY-MM-DD of ISO 8601. */
  predicate IsIsoDate(s: string)
  {
    |s| == 10 && s[4] == '-' && s[7] == '-'
    && forall k :: 0 <= k < 10 && k != 4 && k != 7 ==> IsDigit(s[k])
  }

  lemma {:induction false} DigitsAreDigits(n: nat, w: nat)
    requires n < Pow10(w)
    ensures forall k :: 0 <= k < w ==> IsDigit(Digits(n, w)[k])
  {
    if w > 0 {
      DigitsAreDigits(n / 10, w - 1);
    }
  }

  lemma ConcatEq(p: string, s: string, q: string, t: string)
    requires |p| == |q|
    ensures p + s == q + t <==> p == q && s == t
  {
    if p + s == q + t {
      assert p == (p + s)[..|p|] && q == (q + t)[..|q|];
      assert s == (p + s)[|p|..] && t == (q + t)[|q|..];
    }
  }

  /** Zero-padded numerals of one width compare as the numbers do. */
  lemma {:induction false} DigitsOrder(a: nat, b: nat, w: nat)
    requires a < Pow10(w) && b < Pow10(w)
    ensures Less(Digits(a, w), Digits(b, w)) <==> a < b
    ensures Digits(a, w) == Digits(b, w) <==> a == b
  {
    if w > 0 {
      var pa, pb := Digits(a / 10, w - 1), Digits(b / 10, w - 1);
      var ca, cb := DigitChar(a % 10), DigitChar(b % 10);
      DigitsOrder(a / 10, b / 10, w - 1);
      LessConcat(pa, [ca], pb, [cb]);
      ConcatEq(pa, [ca], pb, [cb]);
      assert Less([ca], [cb]) <==> ca < cb;
    }
  }

  /** Every string calcFromDate can return is ten characters long, and it is
      a YYYY-MM-DD date exactly when the year is not before year 0. */
  lemma IsoPrefixShape(d: Date)
    requires ValidDate(d) && -999999 <= d.year <= 9999
    ensures IsIsoDate(IsoPrefix(d)) <==> d.year >= 0
  {
    if d.year >= 0 {
      DigitsAreDigits(d.year, 4);
      DigitsAreDigits(d.month, 2);
      DigitsAreDigits(d.day, 2);
      var s := IsoPrefix(d);
      forall k | 0 <= k < 10 && k != 4 && k != 7
        ensures IsDigit(s[k])
      {
        if k < 4 {
          assert s[k] == Digits(d.year, 4)[k];
        } else if k < 7 {
          assert s[k] == Digits(d.month, 2)[k - 5];
        } else {
          assert s[k] == Digits(d.day, 2)[k - 8];
        }
      }
    } else {
      assert IsoPrefix(d)[0] == '-';
    }
  }

  /** For dates of years 0..9999, comparing the strings as JavaScript does
      compares the dates chronologically. */
  lemma IsoOrder(a: Date, b: Date)
    requires ValidDate(a) && 0 <= a.year <= 9999
    requires ValidDate(b) && 0 <= b.year <= 9999
    ensures Less(IsoPrefix(a), IsoPrefix(b)) <==> Before(a, b)
  {
    var ya, yb := Digits(a.year, 4), Digits(b.year, 4);
    var ma, mb := Digits(a.month, 2), Digits(b.month, 2);
    var da, db := Digits(a.day, 2), Digits(b.day, 2);
    DigitsOrder(a.year, b.year, 4);
    DigitsOrder(a.month, b.month, 2);
    DigitsOrder(a.day, b.day, 2);
    LessIrreflexive("-");
    LessConcat("-", da, "-", db);
    LessConcat(ma, "-" + da, mb, "-" + db);
    LessConcat("-", ma + ("-" + da), "-", mb + ("-" + db));
    LessConcat(ya, "-" + (ma + ("-" + da)), yb, "-" + (mb + ("-" + db)));
  }

  /** Different dates of years 0..9999 have different strings. */
  lemma IsoInjective(a: Date, b: Date)
    requires ValidDate(a) && 0 <= a.year <= 9999
    requires ValidDate(b) && 0 <= b.year <= 9999
    ensures IsoPrefix(a) == IsoPrefix(b) <==> a == b
  {
    var ya, yb := Digits(a.year, 4), Digits(b.year, 4);
    var ma, mb := Digits(a.month, 2), Digits(b.month, 2);
    var da, db := Digits(a.day, 2), Digits(b.day, 2);
    DigitsOrder(a.year, b.year, 4);
    DigitsOrder(a.month, b.month, 2);
    DigitsOrder(a.day, b.day, 2);
    ConcatEq("-", da, "-", db);
    ConcatEq(ma, "-" + da, mb, "-" + db);
    ConcatEq("-", ma + ("-" + da), "-", mb + ("-" + db));
    ConcatEq(ya, "-" + (ma + ("-" + da)), yb, "-" + (mb + ("-" + db)));
  }

  /** The query window [from, latestDate] of fetchData is never empty: the
      string calcFromDate returns sorts strictly before the anchor's own
      YYYY-MM-DD string, also when the year falls before 0. */
  lemma FromDateIsoEarlier(range: TimeRange, a: Date)
    requires ValidDate(a) && 0 <= a.year <= 9999
    ensures Less(IsoPrefix(FromDate(range, a)), IsoPrefix(a))
  {
    var r := FromDate(range, a);
    FromDateBefore(range, a);
    if r.year >= 0 {
      IsoOrder(r, a);
    } else {
      DigitsAreDigits(a.year, 4);
      assert IsoPrefix(r)[0] == '-' && IsoPrefix(a)[0] == Digits(a.year, 4)[0];
    }
  }

  /** The filter fetchData puts on the date column: from <= date <= to, as
      strings. Since string order is total, "not below from and not above to"
      is "equal to or after from, and equal to or before to". */
  predicate InWindow(date: string, from: string, to: string): (b: bool)
    ensures b <==> (date == from || Less(from, date)) && (date == to || Less(date, to))
  {
    LessTotal(date, from);
    LessTotal(to, date);
    LessAsymmetric(from, date);
    LessAsymmetric(date, to);
    LessIrreflexive(date);
    !Less(date, from) && !Less(to, date)
  }

  /** For calendar dates written as YYYY-MM-DD, the string window of
      fetchData holds exactly the days from the computed start to the anchor,
      both included. */
  lemma WindowHoldsDays(range: TimeRange, a: Date, d: Date)
    requires ValidDate(a) && 10 <= a.year <= 9999
    requires ValidDate(d) && 0 <= d.year <= 9999
    ensures InWindow(IsoPrefix(d), IsoPrefix(FromDate(range, a)), IsoPrefix(a))
            <==> !Before(d, FromDate(range, a)) && !Before(a, d)
  {
    IsoOrder(d, FromDate(range, a));
    IsoOrder(a, d);
  }
}
