/**
 * Transaction dates. The store keeps dates as the strings the caller gave
 * (`YYYY-MM-DD`), orders them by calendar value when listing recent
 * transactions, and shows them as `MM-DD-YYYY`.
 */
module Dates {
  import opened Strings

  /** What a JavaScript template string prints for a missing array element. */
  const Undefined: string := "undefined"

  predicate IsDigit(c: char)
  {
    '0' <= c <= '9'
  }

  predicate AllDigits(s: string)
  {
    forall i :: 0 <= i < |s| ==> IsDigit(s[i])
  }

  /** The decimal value of a string of digits (most significant first). */
  function DigitsValue(s: string): (n: nat)
    requires AllDigits(s)
  {
    if s == [] then 0
    else DigitsValue(s[..|s| - 1]) * 10 + (s[|s| - 1] as int - '0' as int)
  }

  predicate IsLeapYear(year: int)
  {
    year % 4 == 0 && (year % 100 != 0 || year % 400 == 0)
  }

  function DaysInMonth(year: int, month: int): (days: int)
    requires 1 <= month <= 12
  {
    if month == 2 then (if IsLeapYear(year) then 29 else 28)
    else if month == 4 || month == 6 || month == 9 || month == 11 then 30
    else 31
  }

  predicate IsCalendarDate(year: int, month: int, day: int)
  {
    1 <= month <= 12 && 1 <= day <= DaysInMonth(year, month)
  }

  /** The zero-padded `YYYY-MM-DD` layout, without regard to the calendar. */
  predicate IsoShape(s: string)
  {
    |s| == 10 && s[4] == '-' && s[7] == '-' &&
    AllDigits(s[..4]) && AllDigits(s[5..7]) && AllDigits(s[8..])
  }

  function Year(s: string): (year: nat) requires IsoShape(s) { DigitsValue(s[..4]) }
  function Month(s: string): (month: nat) requires IsoShape(s) { DigitsValue(s[5..7]) }
  function Day(s: string): (day: nat) requires IsoShape(s) { DigitsValue(s[8..]) }

  /** A zero-padded `YYYY-MM-DD` string naming a day of the calendar. */
  predicate WellFormedDate(s: string)
  {
    IsoShape(s) && IsCalendarDate(Year(s), Month(s), Day(s))
  }

  /**
   * The calendar position of a date as one number. Month and day stay below
   * 100, so comparing keys compares (year, month, day) lexicographically.
   */
  function DateKey(s: string): (key: int)
    requires WellFormedDate(s)
  {
    Year(s) * 10000 + Month(s) * 100 + Day(s)
  }

  /** `a` falls on an earlier day of the calendar than `b`. */
  predicate CalendarBefore(a: string, b: string)
    requires WellFormedDate(a) && WellFormedDate(b)
  {
    Year(a) < Year(b) ||
    (Year(a) == Year(b) && Month(a) < Month(b)) ||
    (Year(a) == Year(b) && Month(a) == Month(b) && Day(a) < Day(b))
  }

  /** Keys order dates exactly as the calendar does. */
  lemma DateKeyIsCalendarOrder(a: string, b: string)
    requires WellFormedDate(a) && WellFormedDate(b)
    ensures DateKey(a) < DateKey(b) <==> CalendarBefore(a, b)
    ensures DateKey(a) == DateKey(b) <==> a == b
  {
    if DateKey(a) == DateKey(b) {
      assert Year(a) == Year(b) && Month(a) == Month(b) && Day(a) == Day(b);
      DigitsInjective(a[..4], b[..4]);
      DigitsInjective(a[5..7], b[5..7]);
      DigitsInjective(a[8..], b[8..]);
      assert a == a[..4] + "-" + a[5..7] + "-" + a[8..];
      assert b == b[..4] + "-" + b[5..7] + "-" + b[8..];
    }
  }

  /** Equal-length digit strings with equal values are equal. */
  lemma {:induction false} DigitsInjective(x: string, y: string)
    requires AllDigits(x) && AllDigits(y) && |x| == |y|
    requires DigitsValue(x) == DigitsValue(y)
    ensures x == y
  {
    if x != [] {
      var n := |x| - 1;
      assert AllDigits(x[..n]) && AllDigits(y[..n]);
      assert IsDigit(x[n]) && IsDigit(y[n]);
      // the last digits agree modulo 10, hence so do the prefixes
      assert x[n] == y[n];
      DigitsInjective(x[..n], y[..n]);
      assert x == x[..n] + [x[n]];
      assert y == y[..n] + [y[n]];
    }
  }

  /**
   * `formatDateForDisplay`: split on `-`, then print the second, third and
   * first pieces joined by `-`. Any string is accepted; a missing piece
   * prints as `undefined`, and pieces after the third are dropped.
   */
  function FormatDateForDisplay(dateStr: string): (shown: string)
  {
    var parts := Split(dateStr, '-');
    var year := parts[0];
    var month := if |parts| > 1 then parts[1] else Undefined;
    var day := if |parts| > 2 then parts[2] else Undefined;
    month + "-" + day + "-" + year
  }

  /** A string without `-` is one piece: month and day print as `undefined`. */
  lemma FormatWithoutDash(dateStr: string)
    requires '-' !in dateStr
    ensures FormatDateForDisplay(dateStr) == Undefined + "-" + Undefined + "-" + dateStr
  {
    SplitPieces(dateStr, '-');
  }

  /** A date with three dash-free pieces `Y-M-D` is shown as `M-D-Y`. */
  lemma FormatThreePieces(y: string, m: string, d: string)
    requires '-' !in y && '-' !in m && '-' !in d
    ensures FormatDateForDisplay(y + "-" + m + "-" + d) == m + "-" + d + "-" + y
    ensures Split(FormatDateForDisplay(y + "-" + m + "-" + d), '-') == [m, d, y]
  {
    JoinThree(y, m, d);
    SplitJoin([y, m, d], '-');
    JoinThree(m, d, y);
    SplitJoin([m, d, y], '-');
  }

  lemma JoinThree(a: string, b: string, c: string)
    ensures Join([a, b, c], '-') == a + "-" + b + "-" + c
  {
    assert [a, b, c][1..] == [b, c];
    assert [b, c][1..] == [c];
    assert Join([b, c], '-') == b + ['-'] + c;
    assert Join([a, b, c], '-') == a + ['-'] + (b + ['-'] + c);
  }

  /** The zero-padded `MM-DD-YYYY` layout the display uses. */
  predicate DisplayShape(s: string)
  {
    |s| == 10 && s[2] == '-' && s[5] == '-' &&
    AllDigits(s[..2]) && AllDigits(s[3..5]) && AllDigits(s[6..])
  }

  /** The calendar key of a displayed `MM-DD-YYYY` date. */
  function DisplayDateKey(s: string): (key: int)
    requires DisplayShape(s)
  {
    DigitsValue(s[6..]) * 10000 + DigitsValue(s[..2]) * 100 + DigitsValue(s[3..5])
  }

  /**
   * A well-formed date is displayed as `MM-DD-YYYY` built from its own
   * digits, and the display keeps its calendar key.
   */
  lemma FormatWellFormed(s: string)
    requires WellFormedDate(s)
    ensures FormatDateForDisplay(s) == s[5..7] + "-" + s[8..] + "-" + s[..4]
    ensures DisplayShape(FormatDateForDisplay(s))
    ensures DisplayDateKey(FormatDateForDisplay(s)) == DateKey(s)
  {
    var y, m, d := s[..4], s[5..7], s[8..];
    NoDashInDigits(y);
    NoDashInDigits(m);
    NoDashInDigits(d);
    assert s == y + "-" + m + "-" + d;
    FormatThreePieces(y, m, d);
    var r := m + "-" + d + "-" + y;
    assert r[..2] == m && r[3..5] == d && r[6..] == y;
  }

  lemma NoDashInDigits(s: string)
    requires AllDigits(s)
    ensures '-' !in s
  {
  }

  /** Different well-formed dates are displayed differently. */
  lemma FormatInjective(a: string, b: string)
    requires WellFormedDate(a) && WellFormedDate(b)
    requires FormatDateForDisplay(a) == FormatDateForDisplay(b)
    ensures a == b
  {
    FormatWellFormed(a);
    FormatWellFormed(b);
    var ra, rb := FormatDateForDisplay(a), FormatDateForDisplay(b);
    assert a[5..7] == ra[..2] == rb[..2] == b[5..7];
    assert a[8..] == ra[3..5] == rb[3..5] == b[8..];
    assert a[..4] == ra[6..] == rb[6..] == b[..4];
    assert a == a[..4] + "-" + a[5..7] + "-" + a[8..];
    assert b == b[..4] + "-" + b[5..7] + "-" + b[8..];
  }
}
