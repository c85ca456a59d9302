/**
 * Calendar dates as the application writes and reads them: ISO `YYYY-MM-DD`
 * strings (the stored `championship_date`, the birth date `dob`) and the
 * provider's compact `YYYYMMDD` form. JavaScript's `Date` is only ever used
 * here on such strings at local midnight, so its year, month and day are the
 * string's own fields.
 */
module Dates {
  import opened Strings

  predicate IsLeapYear(y: int) {
    (y % 4 == 0 && y % 100 != 0) || y % 400 == 0
  }

  function DaysInMonth(y: int, m: int): (n: int)
    requires 1 <= m <= 12
    ensures 28 <= n <= 31
  {
    if m == 2 then (if IsLeapYear(y) then 29 else 28)
    else if m == 4 || m == 6 || m == 9 || m == 11 then 30
    else 31
  }

  /** A calendar day as JavaScript's `getFullYear`/`getMonth() + 1`/`getDate` see it. */
  datatype CalendarDate = CalendarDate(year: int, month: int, day: int)

  predicate ValidDate(d: CalendarDate) {
    1 <= d.month <= 12 && 1 <= d.day <= DaysInMonth(d.year, d.month)
  }

  /** The day before: what `setDate(getDate() - 1)` rolls back to. */
  function PrevDay(d: CalendarDate): (r: CalendarDate)
    requires ValidDate(d)
    ensures ValidDate(r)
  {
    if d.day > 1 then CalendarDate(d.year, d.month, d.day - 1)
    else if d.month > 1 then CalendarDate(d.year, d.month - 1, DaysInMonth(d.year, d.month - 1))
    else CalendarDate(d.year - 1, 12, 31)
  }

  /** The day after. */
  function NextDay(d: CalendarDate): (r: CalendarDate)
    requires ValidDate(d)
    ensures ValidDate(r)
  {
    if d.day < DaysInMonth(d.year, d.month) then CalendarDate(d.year, d.month, d.day + 1)
    else if d.month < 12 then CalendarDate(d.year, d.month + 1, 1)
    else CalendarDate(d.year + 1, 1, 1)
  }

  /** Stepping back a day and then forward again returns to the same day. */
  lemma NextOfPrev(d: CalendarDate)
    requires ValidDate(d)
    ensures NextDay(PrevDay(d)) == d
  {
  }

  /** `n` days earlier: `setDate(getDate() - n)`. */
  function DaysBefore(d: CalendarDate, n: nat): (r: CalendarDate)
    requires ValidDate(d)
    ensures ValidDate(r)
    decreases n
  {
    if n == 0 then d else DaysBefore(PrevDay(d), n - 1)
  }

  function DaysAfter(d: CalendarDate, n: nat): (r: CalendarDate)
    requires ValidDate(d)
    ensures ValidDate(r)
    decreases n
  {
    if n == 0 then d else DaysAfter(NextDay(d), n - 1)
  }

  /** Going `n` days back and `n` days forward again is the identity. */
  lemma {:induction false} DaysAfterBefore(d: CalendarDate, n: nat)
    requires ValidDate(d)
    ensures DaysAfter(DaysBefore(d, n), n) == d
    decreases n
  {
    if n > 0 {
      var p := PrevDay(d);
      DaysAfterBefore(p, n - 1);
      DaysAfterSplit(DaysBefore(p, n - 1), n - 1);
      NextOfPrev(d);
    }
  }

  lemma {:induction false} DaysAfterSplit(d: CalendarDate, n: nat)
    requires ValidDate(d)
    ensures DaysAfter(d, n + 1) == NextDay(DaysAfter(d, n))
    decreases n
  {
    if n > 0 {
      DaysAfterSplit(NextDay(d), n - 1);
    }
  }

  function Pad2(n: nat): string {
    PadStart(NatToString(n), 2, '0')
  }

  /** The provider's compact date: `getFullYear()` then the zero-padded month and day. */
  function Compact(d: CalendarDate): (s: string)
    requires ValidDate(d) && d.year >= 0
  {
    NatToString(d.year) + Pad2(d.month) + Pad2(d.day)
  }

  /** For a four-digit year the compact date is eight digits that read back as the date. */
  lemma CompactRoundTrip(d: CalendarDate)
    requires ValidDate(d) && 1000 <= d.year <= 9999
    ensures |Compact(d)| == 8 && AllDigits(Compact(d))
    ensures DigitsValue(Compact(d)[..4]) == d.year
    ensures DigitsValue(Compact(d)[4..6]) == d.month
    ensures DigitsValue(Compact(d)[6..]) == d.day
  {
    var y := NatToString(d.year);
    FourDigitYear(d.year);
    PaddedDigits(d.month, 2);
    PaddedDigits(d.day, 2);
    Slices3(y, Pad2(d.month), Pad2(d.day));
    assert Compact(d) == y + Pad2(d.month) + Pad2(d.day);
  }

  lemma FourDigitYear(year: int)
    requires 1000 <= year <= 9999
    ensures |NatToString(year)| == 4 && AllDigits(NatToString(year))
    ensures DigitsValue(NatToString(year)) == year
  {
    assert Pow10(3) == 1000 && Pow10(4) == 10000;
    NatToStringShort(year, 4);
    NatToStringLong(year, 4);
    NatToStringRoundTrip(year);
  }

  lemma Slices3(a: string, b: string, c: string)
    requires |a| == 4 && |b| == 2 && |c| == 2
    requires AllDigits(a) && AllDigits(b) && AllDigits(c)
    ensures |a + b + c| == 8 && AllDigits(a + b + c)
    ensures (a + b + c)[..4] == a && (a + b + c)[4..6] == b && (a + b + c)[6..] == c
  {
  }

  /** `getDateRange`: the compact window from seven days before `today` to `today`. */
  function DateRange(today: CalendarDate): string
    requires ValidDate(today) && today.year >= 7
  {
    var start := DaysBefore(today, 7);
    DaysBeforeYear(today, 7);
    Compact(start) + "-" + Compact(today)
  }

  lemma {:induction false} DaysBeforeYear(d: CalendarDate, n: nat)
    requires ValidDate(d)
    ensures d.year - n <= DaysBefore(d, n).year <= d.year
    decreases n
  {
    if n > 0 {
      DaysBeforeYear(PrevDay(d), n - 1);
    }
  }

  /**
   * The window starts seven day steps before today, ends today, and joins both
   * ends' eight-digit dates with '-'.
   */
  lemma DateRangeWindow(today: CalendarDate)
    requires ValidDate(today) && 1007 <= today.year <= 9999
    ensures DaysAfter(DaysBefore(today, 7), 7) == today
    ensures |DateRange(today)| == 17 && DateRange(today)[8] == '-'
    ensures DateRange(today)[..8] == Compact(DaysBefore(today, 7))
    ensures DateRange(today)[9..] == Compact(today)
  {
    var start := DaysBefore(today, 7);
    DaysAfterBefore(today, 7);
    DaysBeforeYear(today, 7);
    CompactRoundTrip(today);
    CompactRoundTrip(start);
    DashJoin(Compact(start), Compact(today));
  }

  lemma DashJoin(a: string, b: string)
    requires |a| == 8 && |b| == 8
    ensures |a + "-" + b| == 17 && (a + "-" + b)[8] == '-' && (a + "-" + b)[9..] == b
    ensures (a + "-" + b)[..8] == a
  {
  }

  // ---------------------------------------------------------------------------
  // ISO `YYYY-MM-DD` strings
  // ---------------------------------------------------------------------------

  predicate IsIsoDate(s: string) {
    && |s| == 10 && s[4] == '-' && s[7] == '-'
    && AllDigits(s[..4]) && AllDigits(s[5..7]) && AllDigits(s[8..])
    && 1 <= DigitsValue(s[5..7]) <= 12
    && 1 <= DigitsValue(s[8..]) <= DaysInMonth(DigitsValue(s[..4]), DigitsValue(s[5..7]))
  }

  /** `new Date(s + 'T00:00:00')` for an ISO date string. */
  function ParseIso(s: string): (d: CalendarDate)
    requires IsIsoDate(s)
    ensures ValidDate(d) && 0 <= d.year <= 9999
  {
    FourDigitsBound(s[..4]);
    CalendarDate(DigitsValue(s[..4]), DigitsValue(s[5..7]), DigitsValue(s[8..]))
  }

  lemma FourDigitsBound(s: string)
    requires |s| == 4 && AllDigits(s)
    ensures DigitsValue(s) <= 9999
  {
    DigitsValueBound(s);
    assert Pow10(4) == 10000;
  }

  /** `String(n).padStart(4, '0')` etc.: a date rendered the way the landing page builds `dob`. */
  function FormatIso(d: CalendarDate): string
    requires d.year >= 0 && d.month >= 0 && d.day >= 0
  {
    PadStart(NatToString(d.year), 4, '0') + "-" + Pad2(d.month) + "-" + Pad2(d.day)
  }

  /** Rendering a valid four-digit-year date and parsing it back is the identity. */
  lemma IsoRoundTrip(d: CalendarDate)
    requires ValidDate(d) && 0 <= d.year <= 9999
    ensures IsIsoDate(FormatIso(d)) && ParseIso(FormatIso(d)) == d
  {
    assert Pow10(2) == 100 && Pow10(4) == 10000;
    PaddedDigits(d.year, 4);
    PaddedDigits(d.month, 2);
    PaddedDigits(d.day, 2);
    IsoSlices(PadStart(NatToString(d.year), 4, '0'), Pad2(d.month), Pad2(d.day));
  }

  lemma IsoSlices(a: string, b: string, c: string)
    requires |a| == 4 && |b| == 2 && |c| == 2
    ensures var s := a + "-" + b + "-" + c;
            |s| == 10 && s[4] == '-' && s[7] == '-' && s[..4] == a && s[5..7] == b && s[8..] == c
  {
  }
}
