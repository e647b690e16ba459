/** Due dates (src/cli/linear-request-builders.ts, `getDueDateFlag`).

  The check builds a Date from the three numbers and compares them with what the Date gives back.
  Day numbers follow sections 21.4.1 and 21.4.3.4 of ECMA-262: out-of-range months and days
  overflow into neighbouring months and years, and years 0 to 99 mean 1900 to 1999. */
module CalendarDate {
  import opened Wrappers
  import opened CommandArgs
  import opened StringOps

  // ----- The Gregorian calendar, independently of day numbers

  predicate IsLeap(y: int) {
    y % 4 == 0 && (y % 100 != 0 || y % 400 == 0)
  }

  function DaysInMonth(y: int, month: int): int
    requires 1 <= month <= 12
  {
    if month == 2 then (if IsLeap(y) then 29 else 28)
    else if month in {4, 6, 9, 11} then 30
    else 31
  }

  predicate IsRealDate(y: int, month: int, day: int) {
    1 <= month <= 12 && 1 <= day <= DaysInMonth(y, month)
  }

  // ----- Day numbers (ECMA-262)

  function DayFromYear(y: int): int {
    365 * (y - 1970) + (y - 1969) / 4 - (y - 1901) / 100 + (y - 1601) / 400
  }

  /** Days of the year before month `m`, counting months from 0; `m == 12` is the whole year. */
  function DaysBefore(y: int, m: int): int
    requires 0 <= m <= 12
  {
    if m == 0 then 0 else DaysBefore(y, m - 1) + DaysInMonth(y, m)
  }

  function DayInYear(y: int, m: int, date: int): int
    requires 0 <= m <= 11
  {
    DayFromYear(y) + DaysBefore(y, m) + date - 1
  }

  function MakeDay(year: int, month: int, date: int): int {
    var ym, mn := year + month / 12, month % 12;
    DayInYear(ym, mn, date)
  }

  /** The largest year, at most `y`, that starts no later than day `d`. */
  function YearDown(d: int, y: int): (r: int)
    requires d < DayFromYear(y + 1)
    ensures DayFromYear(r) <= d < DayFromYear(r + 1)
    decreases DayFromYear(y + 1) - d
  {
    if DayFromYear(y) <= d then y
    else
      YearLength(y);
      YearDown(d, y - 1)
  }

  lemma YearLength(y: int)
    ensures DayFromYear(y + 1) - DayFromYear(y) == if IsLeap(y) then 366 else 365
  {
    Quarter(y, 1969, 4);
    Quarter(y, 1901, 100);
    Quarter(y, 1601, 400);
    CenturiesAreQuarters(y);
  }

  lemma CenturiesAreQuarters(y: int)
    ensures y % 400 == 0 ==> y % 100 == 0
    ensures y % 100 == 0 ==> y % 4 == 0
  {
  }

  /** A quotient steps exactly at the multiples of its divisor. */
  lemma Quarter(y: int, base: int, n: int)
    requires n > 1 && (base - 1) % n == 0
    ensures (y + 1 - base) / n - (y - base) / n == if y % n == 0 then 1 else 0
  {
    var r, q := y % n, y / n - (base - 1) / n;
    Distribute(y / n, (base - 1) / n, n);
    assert y + 1 - base == q * n + r;
    DivIs(y + 1 - base, n, q, r);
    if r == 0 {
      Distribute(q, 1, n);
      DivIs(y - base, n, q - 1, n - 1);
    } else {
      DivIs(y - base, n, q, r - 1);
    }
  }

  lemma Distribute(p: int, q: int, n: int)
    ensures (p - q) * n == p * n - q * n
  {
  }

  lemma DivIs(x: int, n: int, q: int, r: int)
    requires n > 0 && 0 <= r < n && x == q * n + r
    ensures x / n == q
  {
    var d := x / n - q;
    Distribute(x / n, q, n);
    assert d * n == r - x % n;
    AtLeastOneFactor(d, n);
  }

  lemma AtLeastOneFactor(d: int, n: int)
    requires n > 0
    ensures d >= 1 ==> d * n >= n
    ensures d <= -1 ==> d * n <= -n
  {
    assert (d - 1) * n == d * n - n && (d + 1) * n == d * n + n;
  }

  lemma {:induction false} YearsGrow(y: int, n: nat)
    ensures DayFromYear(y + n) >= DayFromYear(y) + 365 * n
  {
    if n > 0 {
      YearsGrow(y, n - 1);
      YearLength(y + n - 1);
    }
  }

  function YearFromDay(d: int): (r: int)
    ensures DayFromYear(r) <= d < DayFromYear(r + 1)
  {
    var n: nat := if d < 0 then -d else d;
    YearsGrow(1970, n + 1);
    YearDown(d, 1970 + n)
  }

  /** The month, from 0, of day `offset` of year `y`. */
  function MonthDown(y: int, offset: int, m: int): (r: int)
    requires 0 <= m <= 11 && 0 <= offset < DaysBefore(y, m + 1)
    ensures 0 <= r <= 11 && DaysBefore(y, r) <= offset < DaysBefore(y, r + 1)
    decreases m
  {
    if DaysBefore(y, m) <= offset then m else MonthDown(y, offset, m - 1)
  }

  lemma WholeYear(y: int)
    ensures DaysBefore(y, 12) == if IsLeap(y) then 366 else 365
  {
    var feb := if IsLeap(y) then 29 else 28;
    assert DaysBefore(y, 1) == 31;
    assert DaysBefore(y, 2) == 31 + feb;
    assert DaysBefore(y, 3) == 62 + feb;
    assert DaysBefore(y, 4) == 92 + feb;
    assert DaysBefore(y, 5) == 123 + feb;
    assert DaysBefore(y, 6) == 153 + feb;
    assert DaysBefore(y, 7) == 184 + feb;
    assert DaysBefore(y, 8) == 215 + feb;
    assert DaysBefore(y, 9) == 245 + feb;
    assert DaysBefore(y, 10) == 276 + feb;
    assert DaysBefore(y, 11) == 306 + feb;
  }

  /** What `getUTCFullYear`, `getUTCMonth` and `getUTCDate` return. */
  datatype Fields = Fields(year: int, month: int, date: int)

  function FieldsOf(d: int): Fields {
    var y := YearFromDay(d);
    var offset := d - DayFromYear(y);
    YearLength(y);
    WholeYear(y);
    var m := MonthDown(y, offset, 11);
    Fields(y, m, offset - DaysBefore(y, m) + 1)
  }

  // ----- Day numbers and real dates correspond

  lemma MakeDayInRange(year: int, month: int, date: int)
    requires 0 <= month <= 11
    ensures MakeDay(year, month, date) == DayInYear(year, month, date)
  {
    var ym, mn := year + month / 12, month % 12;
    assert month / 12 == 0 && month % 12 == month;
    assert ym == year && mn == month;
  }

  /** Every day number has a real date, and that date leads back to it. */
  lemma FieldsAreReal(d: int)
    ensures
      var f := FieldsOf(d);
      IsRealDate(f.year, f.month + 1, f.date) && MakeDay(f.year, f.month, f.date) == d
  {
    var f := FieldsOf(d);
    MakeDayInRange(f.year, f.month, f.date);
    assert DaysBefore(f.year, f.month + 1) == DaysBefore(f.year, f.month) + DaysInMonth(f.year, f.month + 1);
  }

  lemma {:induction false} YearsOrdered(y: int, z: int)
    requires y < z
    ensures DayFromYear(y + 1) <= DayFromYear(z)
  {
    YearsGrow(y + 1, z - y - 1);
  }

  lemma {:induction false} DaysBeforeOrdered(y: int, m: int, n: int)
    requires 0 <= m <= n <= 12
    ensures DaysBefore(y, m) <= DaysBefore(y, n)
    decreases n
  {
    if m < n {
      DaysBeforeOrdered(y, m, n - 1);
    }
  }

  /** A day belongs to one year only. */
  lemma OneYear(d: int, y: int, z: int)
    requires DayFromYear(y) <= d < DayFromYear(y + 1)
    requires DayFromYear(z) <= d < DayFromYear(z + 1)
    ensures y == z
  {
    if y < z {
      YearsOrdered(y, z);
    } else if z < y {
      YearsOrdered(z, y);
    }
  }

  /** A day of the year belongs to one month only. */
  lemma OneMonth(y: int, offset: int, m: int, n: int)
    requires 0 <= m <= 11 && 0 <= n <= 11
    requires DaysBefore(y, m) <= offset < DaysBefore(y, m + 1)
    requires DaysBefore(y, n) <= offset < DaysBefore(y, n + 1)
    ensures m == n
  {
    if m < n {
      DaysBeforeOrdered(y, m + 1, n);
    } else if n < m {
      DaysBeforeOrdered(y, n + 1, m);
    }
  }

  lemma OffsetInYear(y: int, month: int, date: int, offset: int)
    requires 0 <= month <= 11 && 1 <= date <= DaysInMonth(y, month + 1)
    requires offset == DaysBefore(y, month) + date - 1
    ensures DaysBefore(y, month) <= offset < DaysBefore(y, month + 1)
    ensures 0 <= offset < DayFromYear(y + 1) - DayFromYear(y)
  {
    DaysBeforeOrdered(y, 0, month);
    DaysBeforeOrdered(y, month + 1, 12);
    WholeYear(y);
    YearLength(y);
  }

  /** The fields are determined by the year and the month that hold the day. */
  lemma FieldsFrom(d: int, y: int, m: int, date: int, offset: int)
    requires DayFromYear(y) <= d < DayFromYear(y + 1) && d == DayFromYear(y) + offset
    requires 0 <= m <= 11 && DaysBefore(y, m) <= offset < DaysBefore(y, m + 1)
    requires offset == DaysBefore(y, m) + date - 1
    ensures FieldsOf(d) == Fields(y, m, date)
  {
    OneYear(d, YearFromDay(d), y);
    var f := FieldsOf(d);
    OneMonth(y, offset, f.month, m);
  }

  /** Every real date is read back from its day number. */
  lemma RealDateReadBack(y: int, month: int, date: int, d: int)
    requires IsRealDate(y, month + 1, date) && d == MakeDay(y, month, date)
    ensures FieldsOf(d) == Fields(y, month, date)
  {
    var offset := DaysBefore(y, month) + date - 1;
    MakeDayInRange(y, month, date);
    OffsetInYear(y, month, date, offset);
    FieldsFrom(d, y, month, date, offset);
  }

  // ----- The flag

  datatype DateError = MissingFlag | BadFormat | NotACalendarDate

  predicate HasFormat(value: string) {
    && |value| == 10 && value[4] == '-' && value[7] == '-'
    && forall i :: 0 <= i < 10 && i != 4 && i != 7 ==> IsDigit(value[i])
  }

  /** `Date.UTC` reads the years 0 to 99 as 1900 to 1999. */
  function UtcDay(year: int, month: int, date: int): int {
    MakeDay(if 0 <= year <= 99 then 1900 + year else year, month, date)
  }

  function GetRequiredStringFlag(flags: Flags, name: string): Option<string> {
    GetOptionalStringFlag(flags, name)
  }

  /** The three numbers of a well-formed value. */
  function Triple(value: string): Fields
    requires HasFormat(value)
  {
    Fields(ParseNat(value[..4]), ParseNat(value[5..7]), ParseNat(value[8..]))
  }

  /** The three comparisons of a date's fields with the numbers it was made from. */
  predicate ReadsBack(value: string)
    requires HasFormat(value)
  {
    var t := Triple(value);
    var date := FieldsOf(UtcDay(t.year, t.month - 1, t.date));
    date.year == t.year && date.month == t.month - 1 && date.date == t.date
  }

  function GetDueDateFlag(flags: Flags, name: string): Result<string, DateError> {
    var required := GetRequiredStringFlag(flags, name);
    if required.None? then Err(MissingFlag)
    else
      var value := required.value;
      if !HasFormat(value) then Err(BadFormat)
      else if !ReadsBack(value) then Err(NotACalendarDate)
      else Ok(value)
  }

  /** Overflow never lands back on the same triple: reading a day number back gives the numbers it
    was made from exactly when they name a real date. */
  lemma ReadBackIff(y: int, month: int, day: int)
    ensures FieldsOf(MakeDay(y, month, day)) == Fields(y, month, day) <==> IsRealDate(y, month + 1, day)
  {
    var d := MakeDay(y, month, day);
    FieldsAreReal(d);
    if IsRealDate(y, month + 1, day) {
      RealDateReadBack(y, month, day, d);
    }
  }

  /** A year from 0 to 99 is never read back, because it was moved by 1900. */
  lemma TwoDigitYearNotReadBack(year: int, month: int, day: int)
    ensures FieldsOf(MakeDay(1900 + year, month, day)) != Fields(year, month, day)
  {
    var d := MakeDay(1900 + year, month, day);
    FieldsAreReal(d);
    if 0 <= month <= 11 {
      TwoDigitYearMoves(year, month, day);
    }
  }

  /** The comparison succeeds exactly for the real dates from year 100 on. */
  lemma ComparisonIsExact(year: int, month: int, day: int)
    requires 0 <= year
    ensures FieldsOf(UtcDay(year, month - 1, day)) == Fields(year, month - 1, day)
       <==> year >= 100 && IsRealDate(year, month, day)
  {
    if year >= 100 {
      ReadBackIff(year, month - 1, day);
    } else {
      TwoDigitYearNotReadBack(year, month - 1, day);
    }
  }

  lemma TwoDigitYearMoves(year: int, month: int, day: int)
    requires 0 <= month <= 11
    ensures MakeDay(1900 + year, month, day) != MakeDay(year, month, day)
  {
    MakeDayInRange(year, month, day);
    MakeDayInRange(1900 + year, month, day);
    YearsGrow(year, 1900);
    DaysBeforeOrdered(1900 + year, 0, month);
    DaysBeforeOrdered(year, month, 12);
    WholeYear(year);
  }

  /** The value names a real Gregorian date of year 100 or later. */
  predicate NamesRealDate(value: string)
    requires HasFormat(value)
  {
    var t := Triple(value);
    t.year >= 100 && IsRealDate(t.year, t.month, t.date)
  }

  lemma ReadsBackIff(value: string)
    requires HasFormat(value)
    ensures ReadsBack(value) <==> NamesRealDate(value)
  {
    var t := Triple(value);
    ComparisonIsExact(t.year, t.month, t.date);
  }

  // ----- What the flag accepts, character by character

  function Digit(value: string, i: nat): int
    requires i < |value|
  {
    value[i] as int - '0' as int
  }

  /** Four digits, a hyphen, two digits, a hyphen, two digits. */
  predicate IsDateText(value: string) {
    && |value| == 10
    && forall i :: 0 <= i < 10 ==> if i == 4 || i == 7 then value[i] == '-' else '0' <= value[i] <= '9'
  }

  /** The digits are those of a date of the Gregorian calendar, of year 100 or later. */
  predicate NamesDate(value: string)
    requires |value| == 10
  {
    var y := 1000 * Digit(value, 0) + 100 * Digit(value, 1) + 10 * Digit(value, 2) + Digit(value, 3);
    var month := 10 * Digit(value, 5) + Digit(value, 6);
    var day := 10 * Digit(value, 8) + Digit(value, 9);
    y >= 100 && IsGregorian(y, month, day)
  }

  /** The day exists in the Gregorian calendar. */
  predicate IsGregorian(y: int, month: int, day: int) {
    && 1 <= month <= 12 && 1 <= day <= 31
    && (month == 2 && ((y % 4 == 0 && y % 100 != 0) || y % 400 == 0) ==> day <= 29)
    && (month == 2 && !((y % 4 == 0 && y % 100 != 0) || y % 400 == 0) ==> day <= 28)
    && (month == 4 || month == 6 || month == 9 || month == 11 ==> day <= 30)
  }

  lemma RealDateIs(y: int, month: int, day: int)
    ensures IsRealDate(y, month, day) <==> IsGregorian(y, month, day)
  {
    CenturiesAreQuarters(y);
  }

  lemma TwoDigits(s: string)
    requires |s| == 2 && IsDigit(s[0]) && IsDigit(s[1])
    ensures ParseNat(s) == 10 * Digit(s, 0) + Digit(s, 1)
  {
    assert s[..1][..0] == "" && s[..1][0] == s[0];
    assert ParseNat(s[..1]) == 0 * 10 + Digit(s, 0);
  }

  lemma FourDigits(s: string)
    requires |s| == 4 && forall i :: 0 <= i < 4 ==> IsDigit(s[i])
    ensures ParseNat(s) == 1000 * Digit(s, 0) + 100 * Digit(s, 1) + 10 * Digit(s, 2) + Digit(s, 3)
  {
    var two, three := s[..2], s[..3];
    assert three[..2] == two && three[2] == s[2];
    TwoDigits(two);
    assert ParseNat(three) == ParseNat(two) * 10 + Digit(s, 2);
    assert ParseNat(s) == ParseNat(three) * 10 + Digit(s, 3);
  }

  lemma TripleIs(value: string)
    requires HasFormat(value)
    ensures
      var t := Triple(value);
      && t.year == 1000 * Digit(value, 0) + 100 * Digit(value, 1) + 10 * Digit(value, 2) + Digit(value, 3)
      && t.month == 10 * Digit(value, 5) + Digit(value, 6)
      && t.date == 10 * Digit(value, 8) + Digit(value, 9)
  {
    FourDigits(value[..4]);
    TwoDigits(value[5..7]);
    TwoDigits(value[8..]);
  }

  lemma NamesRealDateIff(value: string)
    requires HasFormat(value)
    ensures NamesRealDate(value) <==> NamesDate(value)
  {
    var t := Triple(value);
    TripleIs(value);
    RealDateIs(t.year, t.month, t.date);
  }

  lemma FormatIff(value: string)
    ensures HasFormat(value) <==> IsDateText(value)
  {
  }

  /** A due date is accepted exactly when it is a four-two-two digit string naming a real
    Gregorian date of year 100 or later; accepted dates are returned unchanged. */
  lemma AcceptsExactlyRealDates(flags: Flags, name: string)
    ensures
      var given := name in flags && flags[name].Text? && flags[name].text != "";
      match GetDueDateFlag(flags, name)
      case Ok(value) => given && flags[name].text == value && IsDateText(value) && NamesDate(value)
      case Err(MissingFlag) => !given
      case Err(BadFormat) => given && !IsDateText(flags[name].text)
      case Err(NotACalendarDate) => given && IsDateText(flags[name].text) && !NamesDate(flags[name].text)
  {
    if name in flags && flags[name].Text? {
      var value := flags[name].text;
      FormatIff(value);
      if HasFormat(value) {
        ReadsBackIff(value);
        NamesRealDateIff(value);
      }
    }
  }
}
