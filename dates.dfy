/** `getFormattedDate`: a local calendar date written as `YYYY-MM-DD`, and why comparing
    such strings as text compares the dates. */
module Dates {
  import opened Text

  /** A local date as JavaScript's `Date` getters report it: `getFullYear()`,
      the zero-based `getMonth()` and `getDate()`. */
  datatype CalendarDate = CalendarDate(year: nat, monthIndex: nat, day: nat)

  /** A date with a four-digit year, a month index 0..11 and a day 1..31. */
  predicate IsValid(d: CalendarDate) {
    1000 <= d.year <= 9999 && d.monthIndex < 12 && 1 <= d.day <= 31
  }

  /** Calendar order: by year, then month, then day. */
  predicate Before(a: CalendarDate, b: CalendarDate) {
    a.year < b.year ||
    (a.year == b.year && (a.monthIndex < b.monthIndex ||
                          (a.monthIndex == b.monthIndex && a.day < b.day)))
  }

  predicate IsDigit(c: char) {
    '0' <= c <= '9'
  }

  function DigitChar(n: nat): (c: char)
    requires n < 10
    ensures IsDigit(c)
  {
    ('0' as int + n) as char
  }

  /** The number a string of decimal digits denotes. */
  function DigitsValue(s: string): nat
    requires forall i :: 0 <= i < |s| ==> IsDigit(s[i])
  {
    if s == [] then 0
    else
      assert IsDigit(s[|s| - 1]);
      10 * DigitsValue(s[..|s| - 1]) + (s[|s| - 1] as int - '0' as int)
  }

  /** `String(n)`: the decimal digits of `n`, with no leading zero, denoting `n`. */
  function Decimal(n: nat): (r: string)
    ensures 1 <= |r|
    ensures forall i :: 0 <= i < |r| ==> IsDigit(r[i])
    ensures DigitsValue(r) == n
    ensures r[0] == '0' ==> n == 0 && r == "0"
    decreases n
  {
    if n < 10 then [DigitChar(n)]
    else
      var front := Decimal(n / 10);
      var r := front + [DigitChar(n % 10)];
      assert r[..|r| - 1] == front;
      r
  }

  /** `padStart(2, '0')`. */
  function PadTwo(s: string): (r: string)
    ensures |s| < 2 ==> |r| == 2
    ensures |s| >= 2 ==> r == s
  {
    if |s| >= 2 then s else seq(2 - |s|, _ => '0') + s
  }

  /** Padding keeps the input as the suffix and puts only zeros before it. */
  lemma PadTwoZeros(s: string)
    ensures |PadTwo(s)| >= |s| && PadTwo(s)[|PadTwo(s)| - |s|..] == s
    ensures forall i :: 0 <= i < |PadTwo(s)| - |s| ==> PadTwo(s)[i] == '0'
  {
    if |s| < 2 {
      assert PadTwo(s)[2 - |s|..] == s;
    }
  }

  /** `getFormattedDate`: year, then the one-based month and the day, each padded to two digits. */
  function FormatDate(d: CalendarDate): (r: string)
    ensures IsValid(d) ==> |r| == 10 && r[4] == '-' && r[7] == '-'
    ensures IsValid(d) ==> forall i :: 0 <= i < 10 && i != 4 && i != 7 ==> IsDigit(r[i])
  {
    var r := Decimal(d.year) + "-" + PadTwo(Decimal(d.monthIndex + 1)) + "-" + PadTwo(Decimal(d.day));
    if IsValid(d) then
      DecimalFourDigits(d.year);
      PadTwoDecimal(d.monthIndex + 1);
      PadTwoDecimal(d.day);
      DateShape(TwoDigits(d.year / 100), TwoDigits(d.year % 100), TwoDigits(d.monthIndex + 1), TwoDigits(d.day));
      r
    else r
  }

  /** Four two-digit groups joined as `YYYY-MM-DD`. */
  lemma DateShape(y: string, z: string, m: string, n: string)
    requires |y| == |z| == |m| == |n| == 2
    requires IsDigit(y[0]) && IsDigit(y[1]) && IsDigit(z[0]) && IsDigit(z[1])
    requires IsDigit(m[0]) && IsDigit(m[1]) && IsDigit(n[0]) && IsDigit(n[1])
    ensures var r := y + z + "-" + m + "-" + n;
            |r| == 10 && r[4] == '-' && r[7] == '-' &&
            forall i :: 0 <= i < 10 && i != 4 && i != 7 ==> IsDigit(r[i])
  {
    var r := y + z + "-" + m + "-" + n;
    assert r == [y[0], y[1], z[0], z[1], '-', m[0], m[1], '-', n[0], n[1]];
  }

  /** The two characters `padStart(2, '0')` gives for a number below 100. */
  function TwoDigits(n: nat): (r: string)
    requires n < 100
    ensures |r| == 2 && IsDigit(r[0]) && IsDigit(r[1])
  {
    [DigitChar(n / 10), DigitChar(n % 10)]
  }

  lemma PadTwoDecimal(n: nat)
    requires n < 100
    ensures PadTwo(Decimal(n)) == TwoDigits(n)
  {
    if n >= 10 {
      assert Decimal(n) == Decimal(n / 10) + [DigitChar(n % 10)];
    }
  }

  lemma DecimalFourDigits(n: nat)
    requires 1000 <= n <= 9999
    ensures Decimal(n) == TwoDigits(n / 100) + TwoDigits(n % 100)
  {
    assert Decimal(n / 100) == Decimal(n / 1000) + [DigitChar(n / 100 % 10)];
    assert n / 100 / 10 == n / 1000;
    assert n / 10 / 10 == n / 100;
    assert n / 10 % 10 == n % 100 / 10;
    assert n % 10 == n % 100 % 10;
  }

  lemma FormatDateShape(d: CalendarDate)
    requires IsValid(d)
    ensures FormatDate(d) == TwoDigits(d.year / 100) + TwoDigits(d.year % 100) + "-" +
                             TwoDigits(d.monthIndex + 1) + "-" + TwoDigits(d.day)
  {
    DecimalFourDigits(d.year);
    PadTwoDecimal(d.monthIndex + 1);
    PadTwoDecimal(d.day);
  }

  /** Two-digit strings compare as the numbers they denote. */
  lemma TwoDigitsOrder(m: nat, n: nat)
    requires m < 100 && n < 100
    ensures StrLess(TwoDigits(m), TwoDigits(n)) <==> m < n
    ensures TwoDigits(m) == TwoDigits(n) <==> m == n
  {
    var a, b := TwoDigits(m), TwoDigits(n);
    assert a == [a[0]] + [a[1]] && b == [b[0]] + [b[1]];
    StrLessConcat([a[0]], [a[1]], [b[0]], [b[1]]);
    assert StrLess([a[0]], [b[0]]) <==> a[0] < b[0] by {
      assert [a[0]][1..] == [] && [b[0]][1..] == [];
    }
    assert StrLess([a[1]], [b[1]]) <==> a[1] < b[1] by {
      assert [a[1]][1..] == [] && [b[1]][1..] == [];
    }
    assert m == 10 * (m / 10) + m % 10 && n == 10 * (n / 10) + n % 10;
  }

  /** Four-digit strings compare as the numbers they denote. */
  lemma YearOrder(m: nat, n: nat)
    requires 1000 <= m <= 9999 && 1000 <= n <= 9999
    ensures StrLess(Decimal(m), Decimal(n)) <==> m < n
    ensures Decimal(m) == Decimal(n) <==> m == n
  {
    DecimalFourDigits(m);
    DecimalFourDigits(n);
    StrLessConcat(TwoDigits(m / 100), TwoDigits(m % 100), TwoDigits(n / 100), TwoDigits(n % 100));
    TwoDigitsOrder(m / 100, n / 100);
    TwoDigitsOrder(m % 100, n % 100);
    assert m == 100 * (m / 100) + m % 100 && n == 100 * (n / 100) + n % 100;
    if Decimal(m) == Decimal(n) {
      assert TwoDigits(m / 100) == Decimal(m)[..2] == Decimal(n)[..2] == TwoDigits(n / 100);
      assert TwoDigits(m % 100) == Decimal(m)[2..] == Decimal(n)[2..] == TwoDigits(n % 100);
    }
  }

  /** The part of a formatted date after the year: `-MM-DD`. */
  function MonthDay(month: nat, day: nat): string
    requires month < 100 && day < 100
  {
    "-" + (TwoDigits(month) + ("-" + TwoDigits(day)))
  }

  /** A common one-character prefix does not change the comparison. */
  lemma DashOrder(x: string, y: string)
    ensures StrLess("-" + x, "-" + y) <==> StrLess(x, y)
    ensures "-" + x == "-" + y <==> x == y
  {
    StrLessIrreflexive("-");
    StrLessConcat("-", x, "-", y);
    if "-" + x == "-" + y {
      assert x == ("-" + x)[1..] == ("-" + y)[1..] == y;
    }
  }

  /** `-MM-DD`-shaped strings compare by their first group, then their second. */
  lemma DashPairOrder(p: string, q: string, r: string, s: string)
    requires |p| == |q|
    ensures StrLess("-" + (p + ("-" + r)), "-" + (q + ("-" + s))) <==>
            StrLess(p, q) || (p == q && StrLess(r, s))
    ensures "-" + (p + ("-" + r)) == "-" + (q + ("-" + s)) <==> p == q && r == s
  {
    DashOrder(p + ("-" + r), q + ("-" + s));
    DashOrder(r, s);
    StrLessConcat(p, "-" + r, q, "-" + s);
    if p + ("-" + r) == q + ("-" + s) {
      assert p == (p + ("-" + r))[..|p|] == (q + ("-" + s))[..|q|] == q;
      assert "-" + r == (p + ("-" + r))[|p|..] == (q + ("-" + s))[|q|..] == "-" + s;
    }
  }

  lemma MonthDayOrder(m1: nat, d1: nat, m2: nat, d2: nat)
    requires m1 < 100 && d1 < 100 && m2 < 100 && d2 < 100
    ensures StrLess(MonthDay(m1, d1), MonthDay(m2, d2)) <==> m1 < m2 || (m1 == m2 && d1 < d2)
    ensures MonthDay(m1, d1) == MonthDay(m2, d2) <==> m1 == m2 && d1 == d2
  {
    TwoDigitsOrder(m1, m2);
    TwoDigitsOrder(d1, d2);
    DashPairOrder(TwoDigits(m1), TwoDigits(m2), TwoDigits(d1), TwoDigits(d2));
  }

  /** A formatted date is its year followed by its `-MM-DD` part. */
  lemma FormatDateSplit(d: CalendarDate)
    requires IsValid(d)
    ensures |Decimal(d.year)| == 4
    ensures FormatDate(d) == Decimal(d.year) + MonthDay(d.monthIndex + 1, d.day)
  {
    DecimalFourDigits(d.year);
    PadTwoDecimal(d.monthIndex + 1);
    PadTwoDecimal(d.day);
    var y, m, n := Decimal(d.year), TwoDigits(d.monthIndex + 1), TwoDigits(d.day);
    assert y + "-" + m + "-" + n == y + ("-" + (m + ("-" + n)));
  }

  /** Concatenations whose first parts have equal length are equal exactly when both parts are. */
  lemma ConcatEqual(p: string, x: string, q: string, y: string)
    requires |p| == |q|
    ensures p + x == q + y <==> p == q && x == y
  {
    if p + x == q + y {
      assert p == (p + x)[..|p|] == (q + y)[..|q|] == q;
      assert x == (p + x)[|p|..] == (q + y)[|q|..] == y;
    }
  }

  lemma FormatDateLess(a: CalendarDate, b: CalendarDate)
    requires IsValid(a) && IsValid(b)
    ensures StrLess(FormatDate(a), FormatDate(b)) <==> Before(a, b)
  {
    FormatDateSplit(a);
    FormatDateSplit(b);
    var ya, yb := Decimal(a.year), Decimal(b.year);
    var ma, mb := MonthDay(a.monthIndex + 1, a.day), MonthDay(b.monthIndex + 1, b.day);
    YearOrder(a.year, b.year);
    MonthDayOrder(a.monthIndex + 1, a.day, b.monthIndex + 1, b.day);
    StrLessConcat(ya, ma, yb, mb);
  }

  lemma FormatDateSame(a: CalendarDate, b: CalendarDate)
    requires IsValid(a) && IsValid(b)
    ensures FormatDate(a) == FormatDate(b) <==> a == b
  {
    FormatDateSplit(a);
    FormatDateSplit(b);
    var ya, yb := Decimal(a.year), Decimal(b.year);
    var ma, mb := MonthDay(a.monthIndex + 1, a.day), MonthDay(b.monthIndex + 1, b.day);
    YearOrder(a.year, b.year);
    MonthDayOrder(a.monthIndex + 1, a.day, b.monthIndex + 1, b.day);
    ConcatEqual(ya, ma, yb, mb);
  }

  /** For valid dates, comparing the formatted strings as text is comparing the dates:
      this is what lets the model order due dates by their text. */
  lemma FormatDateOrder(a: CalendarDate, b: CalendarDate)
    requires IsValid(a) && IsValid(b)
    ensures StrLess(FormatDate(a), FormatDate(b)) <==> Before(a, b)
    ensures FormatDate(a) == FormatDate(b) <==> a == b
  {
    FormatDateLess(a, b);
    FormatDateSame(a, b);
  }
}
