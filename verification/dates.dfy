/** Calendar dates as the downloader's `datetime` values use them: the
    proleptic Gregorian calendar over years 1..9999 (Python's `date.min` to
    `date.max`), one-day steps (`timedelta(days=1)`), and the `%Y-%m-%d`
    rendering that names every persisted file. */
module Dates {
  import opened Options

  datatype Date = Date(year: int, month: int, day: int)

  const MinYear: int := 1
  const MaxYear: int := 9999
  const MinDate: Date := Date(1, 1, 1)
  const MaxDate: Date := Date(9999, 12, 31)

  predicate IsLeap(y: int) {
    (y % 4 == 0 && y % 100 != 0) || y % 400 == 0
  }

  function DaysInMonth(y: int, m: int): int {
    if m == 2 then (if IsLeap(y) then 29 else 28)
    else if m == 4 || m == 6 || m == 9 || m == 11 then 30
    else 31
  }

  /** A date Python's `datetime` can represent. */
  predicate Valid(d: Date) {
    && MinYear <= d.year <= MaxYear
    && 1 <= d.month <= 12
    && 1 <= d.day <= DaysInMonth(d.year, d.month)
  }

  /** Chronological order: year, then month, then day. */
  predicate Before(a: Date, b: Date) {
    || a.year < b.year
    || (a.year == b.year && a.month < b.month)
    || (a.year == b.year && a.month == b.month && a.day < b.day)
  }

  lemma BeforeTransitive(a: Date, b: Date, c: Date)
    requires Before(a, b) && Before(b, c)
    ensures Before(a, c)
  {
  }

  /** `d + timedelta(days=1)`: the earliest valid date after `d`. */
  function NextDay(d: Date): (r: Date)
    requires Valid(d) && d != MaxDate
    ensures Valid(r) && Before(d, r)
  {
    if d.day < DaysInMonth(d.year, d.month) then Date(d.year, d.month, d.day + 1)
    else if d.month < 12 then Date(d.year, d.month + 1, 1)
    else Date(d.year + 1, 1, 1)
  }

  /** No valid date lies strictly between a date and its successor. */
  lemma NextDayIsSuccessor(d: Date, x: Date)
    requires Valid(d) && d != MaxDate && Valid(x) && Before(d, x)
    ensures x == NextDay(d) || Before(NextDay(d), x)
  {
  }

  /** `d - timedelta(days=1)`: the date whose successor is `d`. */
  function PrevDay(d: Date): (r: Date)
    requires Valid(d) && d != MinDate
    ensures Valid(r) && r != MaxDate && NextDay(r) == d
  {
    if d.day > 1 then Date(d.year, d.month, d.day - 1)
    else if d.month > 1 then Date(d.year, d.month - 1, DaysInMonth(d.year, d.month - 1))
    else Date(d.year - 1, 12, 31)
  }

  // ---------------------------------------------------------------------
  // Day numbers: the count of days from 0001-01-01 (day 1), Python's
  // `date.toordinal()`. They are the independent reference for `n`-day steps.

  function YearLength(y: int): int {
    if IsLeap(y) then 366 else 365
  }

  /** Days in the years before `y`. */
  function DaysBeforeYear(y: int): int
    requires y >= 1
  {
    var k := y - 1;
    365 * k + k / 4 - k / 100 + k / 400
  }

  /** Days in the months of year `y` before month `m`. */
  function DaysBeforeMonth(y: int, m: int): int {
    var leap := if m > 2 && IsLeap(y) then 1 else 0;
    leap + (if m <= 1 then 0 else if m == 2 then 31 else if m == 3 then 59
      else if m == 4 then 90 else if m == 5 then 120 else if m == 6 then 151
      else if m == 7 then 181 else if m == 8 then 212 else if m == 9 then 243
      else if m == 10 then 273 else if m == 11 then 304 else if m == 12 then 334
      else 365)
  }

  function DayNumber(d: Date): int
    requires Valid(d)
  {
    DaysBeforeYear(d.year) + DaysBeforeMonth(d.year, d.month) + d.day
  }

  /** Counting multiples of `m` up to `k + 1` rather than `k` adds one
      exactly when `k + 1` is a multiple. */
  lemma DivStep(k: int, m: int)
    requires k >= 0 && (m == 4 || m == 100 || m == 400)
    ensures (k + 1) / m == k / m + (if (k + 1) % m == 0 then 1 else 0)
  {
  }

  lemma YearStep(y: int)
    requires y >= 1
    ensures DaysBeforeYear(y + 1) == DaysBeforeYear(y) + YearLength(y)
  {
    var k := y - 1;
    DivStep(k, 4);
    DivStep(k, 100);
    DivStep(k, 400);
    LeapDivisors(y);
  }

  /** A multiple of 400 is a multiple of 100, and that is a multiple of 4. */
  lemma LeapDivisors(y: int)
    ensures y % 400 == 0 ==> y % 100 == 0
    ensures y % 100 == 0 ==> y % 4 == 0
  {
    MultipleOf(y, 400, 100);
    MultipleOf(y, 100, 4);
  }

  /** A multiple of `m` is a multiple of every `k` dividing `m`. */
  lemma MultipleOf(y: int, m: int, k: int)
    requires (m == 400 && k == 100) || (m == 100 && k == 4)
    ensures y % m == 0 ==> y % k == 0
  {
    if y % m == 0 {
      var q := y / m;
      assert y == m * q;
      var c := m / k;
      assert y == k * (c * q);
    }
  }

  /** A step of one day adds one to the day number. */
  lemma NextDayNumber(d: Date)
    requires Valid(d) && d != MaxDate
    ensures DayNumber(NextDay(d)) == DayNumber(d) + 1
  {
    if d.day == DaysInMonth(d.year, d.month) && d.month == 12 {
      YearStep(d.year);
    }
  }

  /** Years never get shorter in day numbers. */
  lemma {:induction false} DaysBeforeYearMonotone(y: int, z: int)
    requires 1 <= y <= z
    ensures DaysBeforeYear(y) <= DaysBeforeYear(z)
    decreases z - y
  {
    if y < z {
      YearStep(y);
      DaysBeforeYearMonotone(y + 1, z);
    }
  }

  /** The day number of 9999-12-31, the last day Python can represent. */
  const MaxDayNumber: int := 3652059

  lemma LastDayNumber(d: Date)
    requires d == MaxDate
    ensures Valid(d) && DayNumber(d) == MaxDayNumber
  {
  }

  lemma FirstDayNumber(d: Date)
    requires d == MinDate
    ensures Valid(d) && DayNumber(d) == 1
  {
  }

  /** One step of `Back` away from 0001-01-01 goes to the previous day,
      one day number lower. */
  lemma BackStep(d: Date, n: nat)
    requires Valid(d) && d != MinDate && n > 0
    ensures Back(d, n) == Back(PrevDay(d), n - 1)
    ensures DayNumber(PrevDay(d)) + 1 == DayNumber(d)
  {
    NextDayNumber(PrevDay(d));
  }

  /** Nothing precedes 0001-01-01. */
  lemma BackFromFirst(d: Date, n: nat)
    requires d == MinDate && n > 0
    ensures Back(d, n) == None
  {
  }

  /** A valid day of the month stays within its year. */
  lemma WithinYear(d: Date)
    requires Valid(d)
    ensures 1 <= DaysBeforeMonth(d.year, d.month) + d.day <= YearLength(d.year)
  {
  }

  /** Valid dates have day numbers from 1 (0001-01-01) to that of 9999-12-31. */
  lemma DayNumberBounds(d: Date)
    requires Valid(d)
    ensures 1 <= DayNumber(d) <= MaxDayNumber
  {
    WithinYear(d);
    YearStep(d.year);
    DaysBeforeYearMonotone(d.year + 1, MaxYear + 1);
    DaysBeforeYearMonotone(1, d.year);
    assert DaysBeforeYear(MaxYear + 1) == MaxDayNumber;
  }

  /** `d + timedelta(days=n)`, or None where Python raises OverflowError
      (ForwardDayNumber says exactly when). */
  function Forward(d: Date, n: nat): (r: Option<Date>)
    requires Valid(d)
    ensures r.Some? ==> Valid(r.value)
    decreases n
  {
    if n == 0 then Some(d)
    else if d == MaxDate then None
    else Forward(NextDay(d), n - 1)
  }

  /** `d - timedelta(days=n)`, or None where Python raises OverflowError
      (BackDayNumber says exactly when). */
  function Back(d: Date, n: nat): (r: Option<Date>)
    requires Valid(d)
    ensures r.Some? ==> Valid(r.value)
    decreases n
  {
    if n == 0 then Some(d)
    else if d == MinDate then None
    else Back(PrevDay(d), n - 1)
  }

  /** `d + timedelta(days=k)` for any integer `k`. */
  function AddDays(d: Date, k: int): (r: Option<Date>)
    requires Valid(d)
    ensures r.Some? ==> Valid(r.value)
  {
    if k >= 0 then Forward(d, k) else Back(d, -k)
  }

  /** Stepping forward is defined exactly while the day number stays within
      the calendar. */
  lemma {:induction false} ForwardDefined(d: Date, n: nat)
    requires Valid(d)
    ensures Forward(d, n).Some? <==> DayNumber(d) + n <= MaxDayNumber
    decreases n
  {
    if n == 0 {
      DayNumberBounds(d);
    } else if d == MaxDate {
      ForwardFromLast(d, n);
      LastDayNumber(d);
    } else {
      ForwardStepFirst(d, n);
      ForwardDefined(NextDay(d), n - 1);
    }
  }

  /** A defined forward step adds `n` to the day number. */
  lemma {:induction false} ForwardValue(d: Date, n: nat)
    requires Valid(d) && Forward(d, n).Some?
    ensures DayNumber(Forward(d, n).value) == DayNumber(d) + n
    decreases n
  {
    if n > 0 {
      ForwardStepFirst(d, n);
      ForwardValue(NextDay(d), n - 1);
    }
  }

  /** Stepping forward is defined exactly while the day number stays within
      the calendar, and it adds `n` to the day number. */
  lemma ForwardDayNumber(d: Date, n: nat)
    requires Valid(d)
    ensures Forward(d, n).Some? <==> DayNumber(d) + n <= MaxDayNumber
    ensures Forward(d, n).Some? ==> DayNumber(Forward(d, n).value) == DayNumber(d) + n
  {
    ForwardDefined(d, n);
    if Forward(d, n).Some? {
      ForwardValue(d, n);
    }
  }

  /** Nothing follows 9999-12-31. */
  lemma ForwardFromLast(d: Date, n: nat)
    requires d == MaxDate && n > 0
    ensures Forward(d, n) == None
  {
  }

  /** One step of `Forward` away from 9999-12-31 goes to the next day, one
      day number higher. */
  lemma ForwardStepFirst(d: Date, n: nat)
    requires Valid(d) && d != MaxDate && n > 0
    ensures Forward(d, n) == Forward(NextDay(d), n - 1)
    ensures DayNumber(NextDay(d)) == DayNumber(d) + 1
  {
    NextDayNumber(d);
  }

  /** Stepping back is defined whenever the day number stays at 1 or
      above. */
  lemma {:induction false} BackDefined(d: Date, n: nat)
    requires Valid(d)
    ensures DayNumber(d) - n >= 1 ==> Back(d, n).Some?
    decreases n
  {
    if n > 0 && DayNumber(d) - n >= 1 {
      if d == MinDate {
        FirstDayNumber(d);
        assert false;
      }
      var p := PrevDay(d);
      BackStep(d, n);
      BackDefined(p, n - 1);
    }
  }

  /** Stepping back is defined exactly while the day number stays at 1 or
      above, and it subtracts `n` from the day number. */
  lemma BackDayNumber(d: Date, n: nat)
    requires Valid(d)
    ensures Back(d, n).Some? <==> DayNumber(d) - n >= 1
    ensures Back(d, n).Some? ==> DayNumber(Back(d, n).value) == DayNumber(d) - n
  {
    BackDefined(d, n);
    if Back(d, n).Some? {
      var b := Back(d, n).value;
      BackThenForward(d, n);
      ForwardDayNumber(b, n);
      DayNumberBounds(b);
    }
  }

  /** `date + timedelta(days=k)` raises OverflowError exactly when the
      resulting day number falls outside 1..MaxDayNumber. */
  lemma AddDaysDayNumber(d: Date, k: int)
    requires Valid(d)
    ensures AddDays(d, k).Some? <==> 1 <= DayNumber(d) + k <= MaxDayNumber
    ensures AddDays(d, k).Some? ==> DayNumber(AddDays(d, k).value) == DayNumber(d) + k
  {
    if k >= 0 {
      ForwardDayNumber(d, k);
      DayNumberBounds(d);
    } else {
      BackDayNumber(d, -k);
      DayNumberBounds(d);
    }
  }

  /** Stepping `n` days forward and then one more is stepping `n + 1` days. */
  lemma {:induction false} ForwardStep(d: Date, n: nat)
    requires Valid(d)
    requires Forward(d, n).Some? && Forward(d, n).value != MaxDate
    ensures Forward(d, n + 1) == Some(NextDay(Forward(d, n).value))
    decreases n
  {
    if n > 0 {
      ForwardStep(NextDay(d), n - 1);
    }
  }

  /** Going back `n` days and then forward `n` days returns to the start. */
  lemma {:induction false} BackThenForward(d: Date, n: nat)
    requires Valid(d) && Back(d, n).Some?
    ensures Forward(Back(d, n).value, n) == Some(d)
    decreases n
  {
    if n > 0 {
      var p := PrevDay(d);
      BackThenForward(p, n - 1);
      var s := Back(d, n).value;
      assert Forward(s, n - 1) == Some(p);
      ForwardStep(s, n - 1);
    }
  }

  // ---------------------------------------------------------------------
  // Decimal rendering

  predicate IsDigit(c: char) {
    '0' <= c <= '9'
  }

  predicate AllDigits(s: string) {
    forall i :: 0 <= i < |s| ==> IsDigit(s[i])
  }

  function Digit(n: int): (c: char)
    requires 0 <= n <= 9
    ensures IsDigit(c)
  {
    ('0' as int + n) as char
  }

  function DigitValue(c: char): int {
    c as int - '0' as int
  }

  function Pow10(w: nat): (r: nat)
    ensures r >= 1
  {
    if w == 0 then 1 else 10 * Pow10(w - 1)
  }

  /** The value of a string of decimal digits, most significant first. */
  function DecimalValue(s: string): int {
    if s == [] then 0 else 10 * DecimalValue(s[..|s| - 1]) + DigitValue(s[|s| - 1])
  }

  /** The last `width` decimal digits of `n`, zero-padded on the left. */
  function Pad(n: nat, width: nat): (s: string)
    ensures |s| == width && AllDigits(s)
  {
    if width == 0 then [] else Pad(n / 10, width - 1) + [Digit(n % 10)]
  }

  lemma {:induction false} PadValue(n: nat, width: nat)
    requires n < Pow10(width)
    ensures DecimalValue(Pad(n, width)) == n
  {
    if width > 0 {
      PadValue(n / 10, width - 1);
      var s := Pad(n, width);
      assert s[..|s| - 1] == Pad(n / 10, width - 1);
    }
  }

  /** Padding a digit string's value back to its width gives the string. */
  lemma {:induction false} PadDecimal(t: string)
    requires AllDigits(t)
    ensures 0 <= DecimalValue(t) < Pow10(|t|)
    ensures Pad(DecimalValue(t), |t|) == t
    decreases |t|
  {
    if t != [] {
      var u := t[..|t| - 1];
      var c := t[|t| - 1];
      assert AllDigits(u) by {
        forall i | 0 <= i < |u| ensures IsDigit(u[i]) {
          assert u[i] == t[i];
        }
      }
      PadDecimal(u);
      var v := DecimalValue(t);
      assert v == 10 * DecimalValue(u) + DigitValue(c);
      assert 0 <= DigitValue(c) <= 9;
      assert v / 10 == DecimalValue(u) && v % 10 == DigitValue(c);
      assert Digit(DigitValue(c)) == c;
      assert t == u + [c];
    }
  }

  /** `date.strftime("%Y-%m-%d")`. */
  function Format(d: Date): (s: string)
    requires Valid(d)
    ensures |s| == 10 && s[4] == '-' && s[7] == '-'
    ensures AllDigits(s[..4]) && AllDigits(s[5..7]) && AllDigits(s[8..])
  {
    var s := Pad(d.year, 4) + "-" + Pad(d.month, 2) + "-" + Pad(d.day, 2);
    assert s[..4] == Pad(d.year, 4) && s[5..7] == Pad(d.month, 2) && s[8..] == Pad(d.day, 2);
    s
  }

  /** Reads a `YYYY-MM-DD` string back into a date; None for anything that is
      not the rendering of a valid date. */
  function Parse(s: string): (r: Option<Date>)
    ensures r.Some? ==> Valid(r.value)
  {
    if |s| == 10 && s[4] == '-' && s[7] == '-'
       && AllDigits(s[..4]) && AllDigits(s[5..7]) && AllDigits(s[8..])
    then
      var d := Date(DecimalValue(s[..4]), DecimalValue(s[5..7]), DecimalValue(s[8..]));
      if Valid(d) then Some(d) else None
    else None
  }

  /** Parsing inverts the rendering. */
  lemma ParseFormat(d: Date)
    requires Valid(d)
    ensures Parse(Format(d)) == Some(d)
  {
    var s := Format(d);
    assert s[..4] == Pad(d.year, 4) && s[5..7] == Pad(d.month, 2) && s[8..] == Pad(d.day, 2);
    PadValue(d.year, 4);
    PadValue(d.month, 2);
    PadValue(d.day, 2);
  }

  /** Parsing accepts only renderings: whatever Parse reads back, Format
      writes as the same string. */
  lemma FormatParse(s: string)
    requires Parse(s).Some?
    ensures Format(Parse(s).value) == s
  {
    PadDecimal(s[..4]);
    PadDecimal(s[5..7]);
    PadDecimal(s[8..]);
    var f := Format(Parse(s).value);
    assert f[..4] == s[..4] && f[5..7] == s[5..7] && f[8..] == s[8..];
    assert f == f[..4] + "-" + f[5..7] + "-" + f[8..];
    assert s == s[..4] + "-" + s[5..7] + "-" + s[8..];
  }

  /** Distinct dates render to distinct strings, so the string is a faithful
      key for "already downloaded". */
  lemma FormatInjective(a: Date, b: Date)
    requires Valid(a) && Valid(b)
    ensures Format(a) == Format(b) <==> a == b
  {
    if Format(a) == Format(b) {
      ParseFormat(a);
      ParseFormat(b);
    }
  }
}
