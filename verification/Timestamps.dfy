/** Fixed-width UTC timestamps: comparing their texts compares the moments they name. */
module Timestamps {
  import opened Text

  // The calendar

  /** A UTC date and time of day of the Gregorian calendar. */
  datatype Civil = Civil(year: nat, month: nat, day: nat, hour: nat, minute: nat, second: nat)

  predicate Leap(year: nat) {
    year % 4 == 0 && (year % 100 != 0 || year % 400 == 0)
  }

  function YearLength(year: nat): nat {
    if Leap(year) then 366 else 365
  }

  function MonthLength(year: nat, month: nat): nat {
    if month == 2 then (if Leap(year) then 29 else 28)
    else if month in {4, 6, 9, 11} then 30
    else 31
  }

  predicate Valid(c: Civil) {
    && 1 <= c.month <= 12
    && 1 <= c.day <= MonthLength(c.year, c.month)
    && c.hour < 24 && c.minute < 60 && c.second < 60
  }

  function DaysBeforeYear(year: nat): nat {
    if year == 0 then 0 else DaysBeforeYear(year - 1) + YearLength(year - 1)
  }

  function DaysBeforeMonth(year: nat, month: nat): nat {
    if month <= 1 then 0 else DaysBeforeMonth(year, month - 1) + MonthLength(year, month - 1)
  }

  function DayNumber(c: Civil): int {
    DaysBeforeYear(c.year) + DaysBeforeMonth(c.year, c.month) + c.day - 1
  }

  /** Seconds since the start of year 0. */
  function Instant(c: Civil): int {
    DayNumber(c) * 86400 + c.hour * 3600 + c.minute * 60 + c.second
  }

  lemma {:induction false} YearsGrow(a: nat, b: nat)
    requires a < b
    ensures DaysBeforeYear(a) + YearLength(a) <= DaysBeforeYear(b)
  {
    if a + 1 < b {
      YearsGrow(a, b - 1);
    }
  }

  lemma {:induction false} MonthsGrow(year: nat, a: nat, b: nat)
    requires 1 <= a < b
    ensures DaysBeforeMonth(year, a) + MonthLength(year, a) <= DaysBeforeMonth(year, b)
  {
    if a + 1 < b {
      MonthsGrow(year, a, b - 1);
    }
  }

  lemma MonthsFillYear(year: nat)
    ensures DaysBeforeMonth(year, 13) == YearLength(year)
  {
    var february := MonthLength(year, 2);
    assert DaysBeforeMonth(year, 2) == 31;
    assert DaysBeforeMonth(year, 3) == 31 + february;
    assert DaysBeforeMonth(year, 5) == 92 + february;
    assert DaysBeforeMonth(year, 7) == 153 + february;
    assert DaysBeforeMonth(year, 9) == 215 + february;
    assert DaysBeforeMonth(year, 11) == 276 + february;
  }

  /** The days before a year in closed form: one more every fourth year, but not in three of four centuries. */
  lemma {:induction false} DaysBeforeYearIs(year: nat)
    ensures DaysBeforeYear(year) == 365 * year + (year + 3) / 4 - (year + 99) / 100 + (year + 399) / 400
  {
    if year > 0 {
      DaysBeforeYearIs(year - 1);
      LeapAdds(year - 1);
    }
  }

  lemma LeapAdds(year: nat)
    ensures YearLength(year) == 365 + ((year + 4) / 4 - (year + 3) / 4) - ((year + 100) / 100 - (year + 99) / 100)
                                + ((year + 400) / 400 - (year + 399) / 400)
  {
    OneMoreMultiple(year, 4);
    OneMoreMultiple(year, 100);
    OneMoreMultiple(year, 400);
    HundredsAreFourths(year);
  }

  lemma OneMoreMultiple(year: nat, m: nat)
    requires m in {4, 100, 400}
    ensures (year + m) / m - (year + m - 1) / m == if year % m == 0 then 1 else 0
  {
  }

  lemma HundredsAreFourths(year: nat)
    ensures year % 400 == 0 ==> year % 100 == 0
    ensures year % 100 == 0 ==> year % 4 == 0
  {
    if year % 400 == 0 {
      assert year % 100 == 100 * (4 * (year / 400) - year / 100);
    }
    if year % 100 == 0 {
      assert year % 4 == 4 * (25 * (year / 100) - year / 4);
    }
  }

  /** And before a month: from March on the lengths go round in five months of 153 days. */
  lemma DaysBeforeMonthIs(year: nat, month: nat)
    requires 1 <= month <= 13
    ensures DaysBeforeMonth(year, month)
            == if month <= 2 then 31 * (month - 1) else (153 * (month - 3) + 2) / 5 + (if Leap(year) then 60 else 59)
  {
    var february := MonthLength(year, 2);
    assert DaysBeforeMonth(year, 1) == 0 && DaysBeforeMonth(year, 2) == 31;
    assert DaysBeforeMonth(year, 3) == 31 + february;
    assert DaysBeforeMonth(year, 4) == 62 + february && DaysBeforeMonth(year, 5) == 92 + february;
    assert DaysBeforeMonth(year, 6) == 123 + february && DaysBeforeMonth(year, 7) == 153 + february;
    assert DaysBeforeMonth(year, 8) == 184 + february && DaysBeforeMonth(year, 9) == 215 + february;
    assert DaysBeforeMonth(year, 10) == 245 + february && DaysBeforeMonth(year, 11) == 276 + february;
    assert DaysBeforeMonth(year, 12) == 306 + february && DaysBeforeMonth(year, 13) == 337 + february;
  }

  /** The last second of a day comes right before the first of the next. */
  lemma DaysAreFull(c: Civil, d: Civil)
    requires DayNumber(d) == DayNumber(c) + 1 && c.hour == 23 && c.minute == 59 && c.second == 59
    requires d.hour == 0 && d.minute == 0 && d.second == 0
    ensures Instant(d) == Instant(c) + 1
  {
  }

  predicate DateBefore(a: Civil, b: Civil) {
    a.year < b.year || (a.year == b.year && (a.month < b.month || (a.month == b.month && a.day < b.day)))
  }

  lemma DatesAscend(a: Civil, b: Civil)
    requires Valid(a) && Valid(b) && DateBefore(a, b)
    ensures DayNumber(a) < DayNumber(b)
  {
    if a.year < b.year {
      MonthsGrow(a.year, a.month, 13);
      MonthsFillYear(a.year);
      YearsGrow(a.year, b.year);
    } else if a.month < b.month {
      MonthsGrow(a.year, a.month, b.month);
    }
  }

  predicate TimeBefore(a: Civil, b: Civil) {
    a.hour < b.hour || (a.hour == b.hour && (a.minute < b.minute || (a.minute == b.minute && a.second < b.second)))
  }

  predicate SameDate(a: Civil, b: Civil) {
    a.year == b.year && a.month == b.month && a.day == b.day
  }

  /** Field by field, most significant first. */
  predicate Before(a: Civil, b: Civil) {
    DateBefore(a, b) || (SameDate(a, b) && TimeBefore(a, b))
  }

  lemma BeforeAscends(a: Civil, b: Civil)
    requires Valid(a) && Valid(b) && Before(a, b)
    ensures Instant(a) < Instant(b)
  {
    if DateBefore(a, b) {
      DatesAscend(a, b);
    }
  }

  /** Comparing fields compares moments. */
  lemma BeforeIsEarlier(a: Civil, b: Civil)
    requires Valid(a) && Valid(b)
    ensures Before(a, b) <==> Instant(a) < Instant(b)
    ensures a == b <==> Instant(a) == Instant(b)
  {
    if Before(a, b) {
      BeforeAscends(a, b);
    } else if a != b {
      BeforeAscends(b, a);
    }
  }

  // Texts

  /** The order of Go's strings. */
  predicate LexLe(a: string, b: string) {
    a == "" || (b != "" && (a[0] < b[0] || (a[0] == b[0] && LexLe(a[1..], b[1..]))))
  }

  lemma {:induction false} LexTotal(a: string, b: string)
    ensures LexLe(a, b) || LexLe(b, a)
    ensures LexLe(a, b) && LexLe(b, a) ==> a == b
    ensures LexLe(a, a)
  {
    if a != "" {
      LexTotal(a[1..], a[1..]);
      if b != "" {
        LexTotal(a[1..], b[1..]);
        assert a == [a[0]] + a[1..] && b == [b[0]] + b[1..];
      }
    }
  }

  lemma {:induction false} LexTransitive(a: string, b: string, c: string)
    requires LexLe(a, b) && LexLe(b, c)
    ensures LexLe(a, c)
  {
    if a != "" && a[0] == b[0] == c[0] {
      LexTransitive(a[1..], b[1..], c[1..]);
    }
  }

  lemma {:induction false} LexConcat(a: string, b: string, x: string, y: string)
    requires |a| == |b|
    ensures LexLe(a + x, b + y) <==> if a == b then LexLe(x, y) else LexLe(a, b)
  {
    if a == "" {
      assert a + x == x && b + y == y;
    } else {
      LexConcat(a[1..], b[1..], x, y);
      assert (a + x)[1..] == a[1..] + x && (b + y)[1..] == b[1..] + y;
      assert a == [a[0]] + a[1..] && b == [b[0]] + b[1..];
    }
  }

  function Pow10(w: nat): nat {
    if w == 0 then 1 else 10 * Pow10(w - 1)
  }

  lemma {:induction false} PadWidth(n: nat, w: nat)
    requires w > 0 && n < Pow10(w)
    ensures |Pad(n, w)| == w
  {
    if w > 1 {
      PadWidth(n / 10, w - 1);
    } else {
      assert Pow10(1) == 10 * Pow10(0);
    }
  }

  lemma {:induction false} PadOrder(n: nat, m: nat, w: nat)
    requires w > 0 && n < Pow10(w) && m < Pow10(w)
    ensures LexLe(Pad(n, w), Pad(m, w)) <==> n <= m
    ensures Pad(n, w) == Pad(m, w) <==> n == m
  {
    if w == 1 {
      assert Pow10(1) == 10 * Pow10(0);
      assert Pad(n, 1) == [DigitChar(n)] && Pad(m, 1) == [DigitChar(m)];
    } else {
      PadOrder(n / 10, m / 10, w - 1);
      PadWidth(n / 10, w - 1);
      PadWidth(m / 10, w - 1);
      var a, b := Pad(n / 10, w - 1), Pad(m / 10, w - 1);
      LexConcat(a, b, [DigitChar(n % 10)], [DigitChar(m % 10)]);
      assert Pad(n, w)[..w - 1] == a && Pad(m, w)[..w - 1] == b;
      assert Pad(n, w)[w - 1] == DigitChar(n % 10) && Pad(m, w)[w - 1] == DigitChar(m % 10);
    }
  }

  /** A field of fixed width decides, unless it is the same on both sides. */
  lemma FieldOrder(n: nat, m: nat, w: nat, x: string, y: string)
    requires w > 0 && n < Pow10(w) && m < Pow10(w)
    ensures LexLe(Pad(n, w) + x, Pad(m, w) + y) <==> n < m || (n == m && LexLe(x, y))
  {
    PadOrder(n, m, w);
    PadWidth(n, w);
    PadWidth(m, w);
    LexConcat(Pad(n, w), Pad(m, w), x, y);
  }

  function TimeText(c: Civil, suffix: string): string {
    Pad(c.hour, 2) + (Pad(c.minute, 2) + (Pad(c.second, 2) + suffix))
  }

  /** The layout 20060102-150405 between a prefix and a suffix. */
  function Stamped(prefix: string, c: Civil, suffix: string): string {
    prefix + (Pad(c.year, 4) + (Pad(c.month, 2) + (Pad(c.day, 2) + ("-" + TimeText(c, suffix)))))
  }

  /** After the prefix comes a digit. */
  lemma StampedRest(prefix: string, c: Civil, suffix: string) returns (rest: string)
    ensures Stamped(prefix, c, suffix) == prefix + rest && |rest| > 0 && IsDigit(rest[0])
    ensures Pad(c.year, 4) != "" && rest[0] == Pad(c.year, 4)[0]
  {
    var year, tail := Pad(c.year, 4), Pad(c.month, 2) + (Pad(c.day, 2) + ("-" + TimeText(c, suffix)));
    rest := year + tail;
    PadDigits(c.year, 4);
    assert rest[0] == year[0];
  }

  lemma TimeTextOrder(a: Civil, b: Civil, suffix: string)
    requires Valid(a) && Valid(b)
    ensures LexLe(TimeText(a, suffix), TimeText(b, suffix)) <==> !TimeBefore(b, a)
  {
    assert Pow10(2) == 100;
    LexTotal(suffix, suffix);
    FieldOrder(a.second, b.second, 2, suffix, suffix);
    FieldOrder(a.minute, b.minute, 2, Pad(a.second, 2) + suffix, Pad(b.second, 2) + suffix);
    FieldOrder(a.hour, b.hour, 2, Pad(a.minute, 2) + (Pad(a.second, 2) + suffix), Pad(b.minute, 2) + (Pad(b.second, 2) + suffix));
  }

  /** For years up to 9999 stamped names sort as the moments they name. */
  lemma StampsChronological(prefix: string, suffix: string, a: Civil, b: Civil)
    requires Valid(a) && Valid(b) && a.year <= 9999 && b.year <= 9999
    ensures LexLe(Stamped(prefix, a, suffix), Stamped(prefix, b, suffix)) <==> Instant(a) <= Instant(b)
    ensures Stamped(prefix, a, suffix) == Stamped(prefix, b, suffix) <==> a == b
  {
    StampsByField(prefix, suffix, a, b);
    StampsByField(prefix, suffix, b, a);
    BeforeIsEarlier(a, b);
    BeforeIsEarlier(b, a);
    LexTotal(Stamped(prefix, a, suffix), Stamped(prefix, b, suffix));
  }

  lemma StampsByField(prefix: string, suffix: string, a: Civil, b: Civil)
    requires Valid(a) && Valid(b) && a.year <= 9999 && b.year <= 9999
    ensures LexLe(Stamped(prefix, a, suffix), Stamped(prefix, b, suffix)) <==> !Before(b, a)
  {
    var ta, tb := "-" + TimeText(a, suffix), "-" + TimeText(b, suffix);
    assert Pow10(2) == 100 && Pow10(4) == 10000;
    TimeTextOrder(a, b, suffix);
    LexConcat("-", "-", TimeText(a, suffix), TimeText(b, suffix));
    FieldOrder(a.day, b.day, 2, ta, tb);
    FieldOrder(a.month, b.month, 2, Pad(a.day, 2) + ta, Pad(b.day, 2) + tb);
    FieldOrder(a.year, b.year, 4, Pad(a.month, 2) + (Pad(a.day, 2) + ta), Pad(b.month, 2) + (Pad(b.day, 2) + tb));
    LexConcat(prefix, prefix, Pad(a.year, 4) + (Pad(a.month, 2) + (Pad(a.day, 2) + ta)),
              Pad(b.year, 4) + (Pad(b.month, 2) + (Pad(b.day, 2) + tb)));
  }

  lemma FirstStays(n: nat, w: nat)
    requires !(n < 10 && w <= 1)
    ensures Pad(n, w) != "" && Pad(n / 10, if w > 0 then w - 1 else 0) != ""
    ensures Pad(n, w)[0] == Pad(n / 10, if w > 0 then w - 1 else 0)[0]
  {
  }

  lemma FirstOfFour(n: nat)
    requires 1000 <= n <= 9999
    ensures Pad(n, 4) != "" && Pad(n, 4)[0] == DigitChar(n / 1000)
  {
    FirstStays(n, 4);
    FirstStays(n / 10, 3);
    FirstStays(n / 100, 2);
    assert n / 10 / 10 == n / 100 && n / 100 / 10 == n / 1000;
  }

  lemma FirstOfFive(n: nat)
    requires 10000 <= n <= 99999
    ensures Pad(n, 4) != "" && Pad(n, 4)[0] == DigitChar(n / 10000)
  {
    FirstStays(n, 4);
    FirstStays(n / 10, 3);
    FirstStays(n / 100, 2);
    FirstStays(n / 1000, 1);
    assert n / 10 / 10 == n / 100 && n / 100 / 10 == n / 1000 && n / 1000 / 10 == n / 10000;
  }

  /** Years from 10000 on need a fifth digit, and sort before years that begin with a greater one. */
  lemma FiveDigitYearsSortEarly(prefix: string, suffix: string, a: Civil, b: Civil)
    requires 10000 <= a.year <= 99999 && 1000 <= b.year <= 9999 && a.year / 10000 < b.year / 1000
    ensures LexLe(Stamped(prefix, a, suffix), Stamped(prefix, b, suffix))
            && !LexLe(Stamped(prefix, b, suffix), Stamped(prefix, a, suffix))
  {
    FirstOfFive(a.year);
    FirstOfFour(b.year);
    var x := StampedRest(prefix, a, suffix);
    var y := StampedRest(prefix, b, suffix);
    LexConcat(prefix, prefix, x, y);
    LexConcat(prefix, prefix, y, x);
  }
}
