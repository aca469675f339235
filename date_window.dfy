/**
 * The query window of `calculateDays`: today and one month later, both
 * written as `YYYY-MM-DDT00:00:00.000Z`. Dates are UTC calendar dates in
 * the proleptic Gregorian calendar, with the month counted from 0 as
 * JavaScript's `getMonth` does.
 */
module DateWindow {
  import opened Wrappers
  import opened JsText

  datatype Ymd = Ymd(year: int, month: int, day: int)

  /** The first and last years a JavaScript Date reaches; its time value is
      limited to 100,000,000 days either side of 1970-01-01. */
  const MinYear := -271821
  const MaxYear := 275760

  /** The first and last days of that range (-271821-04-20 and 275760-09-13);
      on the last day only midnight itself is in range. */
  const FirstDay := Ymd(-271821, 3, 20)
  const LastDay := Ymd(275760, 8, 13)

  const MsPerDay := 86400000

  /** What `formatDate` appends to the date part. */
  const Midnight := "T00:00:00.000Z"

  predicate IsLeapYear(y: int) {
    (y % 4 == 0 && y % 100 != 0) || y % 400 == 0
  }

  function DaysInMonth(y: int, m: int): (n: int)
    requires 0 <= m < 12
    ensures 28 <= n <= 31
    ensures n == 28 <==> m == 1 && !IsLeapYear(y)
  {
    if m == 1 then (if IsLeapYear(y) then 29 else 28)
    else if m == 3 || m == 5 || m == 8 || m == 10 then 30
    else 31
  }

  predicate ValidDate(d: Ymd) {
    0 <= d.month < 12 && 1 <= d.day <= DaysInMonth(d.year, d.month)
  }

  /** A valid date in a year toISOString may be asked to write. */
  predicate InRange(d: Ymd) {
    ValidDate(d) && MinYear <= d.year <= MaxYear
  }

  /** `a` is the same day as `b` or an earlier one. */
  predicate NotAfter(a: Ymd, b: Ymd) {
    a.year < b.year || (a.year == b.year && (a.month < b.month || (a.month == b.month && a.day <= b.day)))
  }

  /** `ms` milliseconds into the day `d` is a time value a Date can hold
      (ECMAScript's TimeClip leaves it a number rather than NaN). */
  predicate TimeInRange(d: Ymd, ms: int) {
    && ValidDate(d) && 0 <= ms < MsPerDay
    && NotAfter(FirstDay, d) && NotAfter(d, LastDay)
    && (d == LastDay ==> ms == 0)
  }

  /** The calendar date after `d`. */
  function NextDay(d: Ymd): (r: Ymd)
    requires ValidDate(d)
    ensures ValidDate(r)
  {
    if d.day < DaysInMonth(d.year, d.month) then Ymd(d.year, d.month, d.day + 1)
    else if d.month == 11 then Ymd(d.year + 1, 0, 1)
    else Ymd(d.year, d.month + 1, 1)
  }

  /** The date `n` days after `d`: the reference for day-of-month overflow. */
  function AddDays(d: Ymd, n: nat): (r: Ymd)
    requires ValidDate(d)
    ensures ValidDate(r)
  {
    if n == 0 then d else NextDay(AddDays(d, n - 1))
  }

  // ---- day numbers, as ECMAScript counts them from 1970-01-01 ----

  /** ECMAScript's DayFromYear: the day number of January 1st of `y`. */
  function DayFromYear(y: int): int {
    365 * (y - 1970) + (y - 1969) / 4 - (y - 1901) / 100 + (y - 1601) / 400
  }

  function DaysBeforeMonth(y: int, m: int): (n: int)
    requires 0 <= m <= 12
    ensures 28 * m <= n <= 31 * m
  {
    if m == 0 then 0 else DaysBeforeMonth(y, m - 1) + DaysInMonth(y, m - 1)
  }

  /** The day number of `d`: days since 1970-01-01, negative before it. */
  function DayNumber(d: Ymd): int
    requires ValidDate(d)
  {
    DayFromYear(d.year) + DaysBeforeMonth(d.year, d.month) + d.day - 1
  }

  /** How much `a / k` grows when `a` grows by one. */
  function FloorDiff(a: int, k: int): int
    requires k > 0
  {
    (a + 1) / k - a / k
  }

  /** Floor division by `k` steps up by one exactly where `a + 1` is a multiple of `k`. */
  lemma FloorStep(a: int, k: int)
    requires k == 4 || k == 100 || k == 400
    ensures FloorDiff(a, k) == if (a + 1) % k == 0 then 1 else 0
  {
    var q, r := a / k, a % k;
    if r == k - 1 {
      assert a + 1 == k * (q + 1);
    } else {
      assert a + 1 == k * q + (r + 1);
    }
  }

  /** Moving by whole multiples of `k` keeps the remainder. */
  lemma ModShift(y: int, k: int, c: int)
    requires k == 4 || k == 100 || k == 400
    ensures (y - k * c) % k == y % k
  {
    var q, r := y / k, y % k;
    assert y - k * c == k * (q - c) + r;
  }

  /** The three leap-year corrections of DayFromYear step up exactly at
      multiples of 4, 100 and 400. */
  lemma LeapSteps(y: int)
    ensures FloorDiff(y - 1969, 4) == if y % 4 == 0 then 1 else 0
    ensures FloorDiff(y - 1901, 100) == if y % 100 == 0 then 1 else 0
    ensures FloorDiff(y - 1601, 400) == if y % 400 == 0 then 1 else 0
  {
    FloorStep(y - 1969, 4);
    FloorStep(y - 1901, 100);
    FloorStep(y - 1601, 400);
    ModShift(y, 4, 492);
    ModShift(y, 100, 19);
    ModShift(y, 400, 4);
  }

  lemma DayFromYearDiff(y: int)
    ensures DayFromYear(y + 1) - DayFromYear(y)
         == 365 + FloorDiff(y - 1969, 4) - FloorDiff(y - 1901, 100) + FloorDiff(y - 1601, 400)
  {
    var z := y + 1;
    assert z - 1969 == (y - 1969) + 1 && z - 1901 == (y - 1901) + 1 && z - 1601 == (y - 1601) + 1;
  }

  /** DayFromYear advances by 366 days in a leap year and 365 otherwise. */
  lemma YearStep(y: int)
    ensures DayFromYear(y + 1) - DayFromYear(y) == if IsLeapYear(y) then 366 else 365
  {
    DayFromYearDiff(y);
    LeapSteps(y);
  }

  lemma MonthsOfYear(y: int)
    ensures DaysBeforeMonth(y, 12) == if IsLeapYear(y) then 366 else 365
  {
    var feb := DaysInMonth(y, 1);
    assert DaysBeforeMonth(y, 2) == 31 + feb;
    assert DaysBeforeMonth(y, 3) == 62 + feb;
    assert DaysBeforeMonth(y, 4) == 92 + feb;
    assert DaysBeforeMonth(y, 5) == 123 + feb;
    assert DaysBeforeMonth(y, 6) == 153 + feb;
    assert DaysBeforeMonth(y, 7) == 184 + feb;
    assert DaysBeforeMonth(y, 8) == 215 + feb;
    assert DaysBeforeMonth(y, 9) == 245 + feb;
    assert DaysBeforeMonth(y, 10) == 276 + feb;
    assert DaysBeforeMonth(y, 11) == 306 + feb;
  }

  /** DayFromYear advances by the length of the year's months. */
  lemma YearLength(y: int)
    ensures DayFromYear(y + 1) - DayFromYear(y) == DaysBeforeMonth(y, 12)
  {
    MonthsOfYear(y);
    YearStep(y);
  }

  /** Day numbers count calendar days: the next day is one more. */
  lemma NextDayNumber(d: Ymd)
    requires ValidDate(d)
    ensures DayNumber(NextDay(d)) == DayNumber(d) + 1
  {
    if d.day == DaysInMonth(d.year, d.month) && d.month == 11 {
      YearLength(d.year);
    }
  }

  lemma {:induction false} AddDaysNumber(d: Ymd, n: nat)
    requires ValidDate(d)
    ensures DayNumber(AddDays(d, n)) == DayNumber(d) + n
  {
    if n > 0 {
      AddDaysNumber(d, n - 1);
      NextDayNumber(AddDays(d, n - 1));
    }
  }

  /** The range ends are the days 100,000,000 days either side of 1970-01-01. */
  lemma RangeEnds()
    ensures DayNumber(Ymd(1970, 0, 1)) == 0
    ensures DayNumber(FirstDay) == -100000000
    ensures DayNumber(LastDay) == 100000000
    ensures DayNumber(LastDay) * MsPerDay == 8640000000000000
  {
    assert DaysBeforeMonth(-271821, 3) == 31 + 28 + 31;
    assert DaysBeforeMonth(275760, 8) == 31 + 29 + 31 + 30 + 31 + 30 + 31 + 31;
  }

  /**
   * `date.setMonth(m)` on the date part: the month is m counted from January
   * of d's year (so 12 is January of the next year), the day of the month is
   * kept, and a day the target month lacks runs on into the month after.
   */
  function WithMonth(d: Ymd, m: int): (r: Ymd)
    requires ValidDate(d)
    ensures ValidDate(r)
    ensures r.year >= d.year + m / 12
  {
    var y, mm := d.year + m / 12, m % 12;
    var len := DaysInMonth(y, mm);
    if d.day <= len then Ymd(y, mm, d.day)
    else if mm == 11 then Ymd(y + 1, 0, d.day - len)
    else Ymd(y, mm + 1, d.day - len)
  }

  lemma {:induction false} AddDaysWithinMonth(y: int, m: int, k: nat)
    requires 0 <= m < 12 && k < DaysInMonth(y, m)
    ensures AddDays(Ymd(y, m, 1), k) == Ymd(y, m, k + 1)
  {
    if k > 0 {
      AddDaysWithinMonth(y, m, k - 1);
    }
  }

  lemma {:induction false} AddDaysIntoNextMonth(y: int, m: int, k: nat)
    requires 0 <= m < 12
    requires DaysInMonth(y, m) <= k < DaysInMonth(y, m) + 28
    ensures AddDays(Ymd(y, m, 1), k)
         == if m == 11 then Ymd(y + 1, 0, k - DaysInMonth(y, m) + 1)
            else Ymd(y, m + 1, k - DaysInMonth(y, m) + 1)
  {
    if k == DaysInMonth(y, m) {
      AddDaysWithinMonth(y, m, k - 1);
    } else {
      AddDaysIntoNextMonth(y, m, k - 1);
    }
  }

  /**
   * setMonth agrees with the way ECMAScript's MakeDay builds a date: the
   * first day of the (normalised) target month, plus day - 1 days.
   */
  lemma SetMonthIsDayOffset(d: Ymd, m: int)
    requires ValidDate(d)
    ensures WithMonth(d, m) == AddDays(Ymd(d.year + m / 12, m % 12, 1), d.day - 1)
  {
    var y, mm := d.year + m / 12, m % 12;
    if d.day <= DaysInMonth(y, mm) {
      AddDaysWithinMonth(y, mm, d.day - 1);
    } else {
      AddDaysIntoNextMonth(y, mm, d.day - 1);
    }
  }

  /**
   * `setMonth(getMonth() + 1)`: December wraps to January of the next year;
   * when the target month is too short, the surplus days (at most three)
   * land at the start of the month after it.
   */
  lemma OneMonthLater(d: Ymd)
    requires ValidDate(d)
    ensures var r := WithMonth(d, d.month + 1);
      var (ty, tm) := if d.month == 11 then (d.year + 1, 0) else (d.year, d.month + 1);
      && (d.day <= DaysInMonth(ty, tm) ==> r == Ymd(ty, tm, d.day))
      && (d.day > DaysInMonth(ty, tm) ==>
            tm < 11 && r == Ymd(ty, tm + 1, d.day - DaysInMonth(ty, tm)) && 1 <= r.day <= 3)
  {
  }

  // ---- toISOString and formatDate ----

  function Pow10(w: nat): (p: nat)
    ensures p >= 1
  {
    if w == 0 then 1 else 10 * Pow10(w - 1)
  }

  predicate IsDigit(c: char) {
    '0' <= c <= '9'
  }

  predicate AllDigits(s: string) {
    forall k :: 0 <= k < |s| ==> IsDigit(s[k])
  }

  function DigitChar(n: int): (c: char)
    requires 0 <= n < 10
    ensures IsDigit(c)
  {
    (n + '0' as int) as char
  }

  /** `n` in exactly `w` decimal digits, zero-padded on the left. */
  function Digits(n: nat, w: nat): (s: string)
    requires n < Pow10(w)
    ensures |s| == w && AllDigits(s)
  {
    if w == 0 then "" else Digits(n / 10, w - 1) + [DigitChar(n % 10)]
  }

  function DigitsValue(s: string): nat
    requires AllDigits(s)
  {
    if s == [] then 0
    else DigitsValue(s[..|s| - 1]) * 10 + (s[|s| - 1] as int - '0' as int)
  }

  lemma {:induction false} DigitsRoundTrip(n: nat, w: nat)
    requires n < Pow10(w)
    ensures DigitsValue(Digits(n, w)) == n
  {
    if w > 0 {
      DigitsRoundTrip(n / 10, w - 1);
      var s := Digits(n, w);
      assert s[..|s| - 1] == Digits(n / 10, w - 1);
    }
  }

  /** The year as toISOString writes it: four digits for 0..9999, otherwise
      a sign and six digits. */
  function YearText(y: int): (s: string)
    requires -999999 <= y <= 999999
    ensures 0 <= y <= 9999 ==> |s| == 4 && AllDigits(s)
    ensures !(0 <= y <= 9999) ==> |s| == 7 && s[0] in "+-" && AllDigits(s[1..])
  {
    assert Pow10(4) == 10000 && Pow10(6) == 1000000;
    if 0 <= y <= 9999 then Digits(y, 4)
    else (if y < 0 then "-" else "+") + Digits(if y < 0 then -y else y, 6)
  }

  /** The date part of toISOString: `YYYY-MM-DD`. */
  function IsoDate(d: Ymd): (s: string)
    requires InRange(d)
    ensures 'T' !in s
  {
    assert Pow10(2) == 100;
    var s := YearText(d.year) + "-" + Digits(d.month + 1, 2) + "-" + Digits(d.day, 2);
    assert forall k :: 0 <= k < |s| ==> IsDigit(s[k]) || s[k] in "+-";
    s
  }

  /** `date.toISOString()` for a date and a time of day in milliseconds. */
  function ToIsoString(d: Ymd, ms: int): string
    requires InRange(d) && 0 <= ms < MsPerDay
  {
    assert Pow10(2) == 100 && Pow10(3) == 1000;
    IsoDate(d) + "T" + Digits(ms / 3600000, 2) + ":" + Digits(ms / 60000 % 60, 2) + ":"
      + Digits(ms / 1000 % 60, 2) + "." + Digits(ms % 1000, 3) + "Z"
  }

  /** `formatDate`: the part of an ISO string before its first 'T', then midnight. */
  function FormatDate(iso: string): string {
    Split(iso, 'T')[0] + Midnight
  }

  /** The window string for the day `d`. */
  function MidnightOf(d: Ymd): (s: string)
    requires InRange(d)
  {
    IsoDate(d) + Midnight
  }

  /** formatDate throws the time of day away. */
  lemma FormatDateDropsTime(d: Ymd, ms: int)
    requires InRange(d) && 0 <= ms < MsPerDay
    ensures FormatDate(ToIsoString(d, ms)) == MidnightOf(d)
  {
    var iso := ToIsoString(d, ms);
    var date := IsoDate(d);
    assert iso[..|date|] == date && iso[|date|] == 'T';
    assert IndexOf(iso, 'T') == |date| by {
      assert iso[..|date|] == date;
    }
    SplitPieces(iso, 'T');
  }

  // ---- reading a window string back ----

  function ParseYear(s: string): Option<int> {
    if |s| == 4 && AllDigits(s) then Some(DigitsValue(s))
    else if |s| == 7 && s[0] in "+-" && AllDigits(s[1..]) then
      var v: int := DigitsValue(s[1..]);
      Some(if s[0] == '-' then -v else v)
    else None
  }

  /** Reads `YEAR-MM-DD` + Midnight back into a date. */
  function ParseMidnight(s: string): Option<Ymd> {
    var n := |s| - |Midnight| - 6;
    if n < 0 || s[n + 6..] != Midnight then None
    else
      var mm, dd := s[n + 1..n + 3], s[n + 4..n + 6];
      if s[n] != '-' || s[n + 3] != '-' || !AllDigits(mm) || !AllDigits(dd) then None
      else match ParseYear(s[..n])
        case None => None
        case Some(y) => Some(Ymd(y, DigitsValue(mm) - 1, DigitsValue(dd)))
  }

  lemma YearRoundTrip(y: int)
    requires -999999 <= y <= 999999
    ensures ParseYear(YearText(y)) == Some(y)
  {
    assert Pow10(4) == 10000 && Pow10(6) == 1000000;
    var yt := YearText(y);
    if 0 <= y <= 9999 {
      DigitsRoundTrip(y, 4);
    } else {
      var a := if y < 0 then -y else y;
      DigitsRoundTrip(a, 6);
      assert yt[1..] == Digits(a, 6);
    }
  }

  lemma {:induction false} ParseMidnightParts(yt: string, mt: string, dt: string)
    requires |mt| == 2 && AllDigits(mt) && |dt| == 2 && AllDigits(dt)
    ensures ParseMidnight(yt + "-" + mt + "-" + dt + Midnight)
         == match ParseYear(yt)
            case None => None
            case Some(y) => Some(Ymd(y, DigitsValue(mt) - 1, DigitsValue(dt)))
  {
    var s := yt + "-" + mt + "-" + dt + Midnight;
    var n := |yt|;
    assert |s| - |Midnight| - 6 == n;
    assert s[..n] == yt;
    assert s[n] == '-' && s[n + 3] == '-';
    assert s[n + 1..n + 3] == mt;
    assert s[n + 4..n + 6] == dt;
    assert s[n + 6..] == Midnight;
  }

  /** A window string determines its date: reading it back gives the date. */
  lemma MidnightRoundTrip(d: Ymd)
    requires InRange(d)
    ensures ParseMidnight(MidnightOf(d)) == Some(d)
  {
    assert Pow10(2) == 100;
    var mt, dt := Digits(d.month + 1, 2), Digits(d.day, 2);
    assert MidnightOf(d) == YearText(d.year) + "-" + mt + "-" + dt + Midnight;
    ParseMidnightParts(YearText(d.year), mt, dt);
    YearRoundTrip(d.year);
    DigitsRoundTrip(d.month + 1, 2);
    DigitsRoundTrip(d.day, 2);
  }

  lemma MidnightInjective(d1: Ymd, d2: Ymd)
    requires InRange(d1) && InRange(d2) && MidnightOf(d1) == MidnightOf(d2)
    ensures d1 == d2
  {
    MidnightRoundTrip(d1);
    MidnightRoundTrip(d2);
  }

  // ---- the Date object ----

  /** The part of a JavaScript Date the window uses, read in UTC. */
  class JsDate {
    var date: Ymd
    var msOfDay: int

    ghost predicate Valid()
      reads this
    {
      TimeInRange(date, msOfDay)
    }

    /** `new Date()` at the instant `now`, `ms` milliseconds into the day. */
    constructor (now: Ymd, ms: int)
      requires TimeInRange(now, ms)
      ensures Valid() && date == now && msOfDay == ms
    {
      date, msOfDay := now, ms;
    }

    function GetMonth(): int
      reads this
    {
      date.month
    }

    method SetMonth(m: int)
      requires Valid() && TimeInRange(WithMonth(date, m), msOfDay)
      modifies this
      ensures Valid()
      ensures date == WithMonth(old(date), m) && msOfDay == old(msOfDay)
    {
      date := WithMonth(date, m);
    }

    /** `toISOString()`. */
    function IsoString(): string
      reads this
      requires Valid()
    {
      ToIsoString(date, msOfDay)
    }
  }

  /**
   * `calculateDays` at the instant `now` (`ms` into the UTC day): the start
   * is today at midnight and the end is one month later under setMonth.
   */
  method CalculateDays(now: Ymd, ms: int) returns (startDate: string, endDate: string)
    requires TimeInRange(now, ms) && TimeInRange(WithMonth(now, now.month + 1), ms)
    ensures startDate == MidnightOf(now)
    ensures endDate == MidnightOf(WithMonth(now, now.month + 1))
  {
    var today := new JsDate(now, ms);
    var oneMonthLater := new JsDate(now, ms);
    oneMonthLater.SetMonth(today.GetMonth() + 1);
    ghost var later := oneMonthLater.date;
    assert later == WithMonth(now, now.month + 1);
    var todayIso := today.IsoString();
    var laterIso := oneMonthLater.IsoString();
    FormatDateDropsTime(now, ms);
    FormatDateDropsTime(later, ms);
    startDate := FormatDate(todayIso);
    endDate := FormatDate(laterIso);
  }
}
