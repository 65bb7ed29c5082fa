/** The `date` field `save_to_db` writes (main.py:87):
    `datetime.now().strftime("%Y-%m-%d %H:%M:%S.%f")`. The clock reading is
    an input; the format is a pure function of it. Its partner is ReadDate,
    which reads the seven fields back from a formatted date. */
module Timestamp {

  predicate IsDigit(c: char) {
    '0' <= c <= '9'
  }

  predicate AllDigits(s: string) {
    forall i :: 0 <= i < |s| ==> IsDigit(s[i])
  }

  function Pow10(n: nat): (p: nat)
    ensures p >= 1
  {
    if n == 0 then 1 else 10 * Pow10(n - 1)
  }

  /** The last `width` decimal digits of `n`, zero-padded, as strftime writes
      a field. */
  function Digits(n: nat, width: nat): (r: string)
    ensures |r| == width && AllDigits(r)
    decreases width
  {
    if width == 0 then []
    else Digits(n / 10, width - 1) + [('0' as int + n % 10) as char]
  }

  /** The number a string of decimal digits denotes. */
  function ValueOf(s: string): nat
    requires AllDigits(s)
    decreases |s|
  {
    if s == [] then 0
    else 10 * ValueOf(s[..|s| - 1]) + (s[|s| - 1] as int - '0' as int)
  }

  /** A number that fits its width is written without loss. */
  lemma {:induction false} DigitsRoundTrip(n: nat, width: nat)
    requires n < Pow10(width)
    ensures ValueOf(Digits(n, width)) == n
    decreases width
  {
    if width > 0 {
      var r := Digits(n, width);
      assert r[..|r| - 1] == Digits(n / 10, width - 1);
      assert n / 10 < Pow10(width - 1);
      DigitsRoundTrip(n / 10, width - 1);
    }
  }

  function DaysInMonth(year: int, month: int): int
    requires 1 <= month <= 12
  {
    if month == 2 then
      (if year % 4 == 0 && (year % 100 != 0 || year % 400 == 0) then 29 else 28)
    else if month == 4 || month == 6 || month == 9 || month == 11 then 30
    else 31
  }

  /** A reading `datetime` can hold: years 1 to 9999, a real calendar day,
      and microseconds below one million. */
  datatype DateTime = DateTime(year: int, month: int, day: int,
                               hour: int, minute: int, second: int, microsecond: int)
  {
    predicate Valid() {
      && 1 <= year <= 9999
      && 1 <= month <= 12
      && 1 <= day <= DaysInMonth(year, month)
      && 0 <= hour < 24 && 0 <= minute < 60 && 0 <= second < 60
      && 0 <= microsecond < 1000000
    }
  }

  /** `a`, one separator, `b`: the pieces are found again by position. */
  lemma Glue(a: string, c: char, b: string)
    ensures (a + [c] + b)[..|a|] == a
    ensures (a + [c] + b)[|a|] == c
    ensures (a + [c] + b)[|a| + 1..] == b
  {
  }

  /** `YYYY-MM-DD`. */
  predicate IsDatePart(t: string) {
    |t| == 10 && t[4] == '-' && t[7] == '-'
    && AllDigits(t[..4]) && AllDigits(t[5..7]) && AllDigits(t[8..])
  }

  /** `HH:MM:SS`. */
  predicate IsClockPart(t: string) {
    |t| == 8 && t[2] == ':' && t[5] == ':'
    && AllDigits(t[..2]) && AllDigits(t[3..5]) && AllDigits(t[6..])
  }

  /** The shape of a formatted date, `YYYY-MM-DD HH:MM:SS.ffffff`: 26
      characters, `-` at 4 and 7, a space at 10, `:` at 13 and 16, `.` at 19
      and digits everywhere else. */
  predicate IsTimestamp(t: string) {
    |t| == 26 && t[10] == ' ' && t[19] == '.'
    && IsDatePart(t[..10]) && IsClockPart(t[11..19]) && AllDigits(t[20..])
  }

  /** Three fields and the two separators between them. */
  function Fields3(a: string, c: char, b: string, c': char, e: string): string {
    a + [c] + b + [c'] + e
  }

  lemma Fields3Parts(a: string, c: char, b: string, c': char, e: string)
    ensures Fields3(a, c, b, c', e)[..|a|] == a && Fields3(a, c, b, c', e)[|a|] == c
    ensures Fields3(a, c, b, c', e)[|a| + 1..|a| + 1 + |b|] == b
    ensures Fields3(a, c, b, c', e)[|a| + 1 + |b|] == c'
    ensures Fields3(a, c, b, c', e)[|a| + 2 + |b|..] == e
  {
    Glue(a + [c] + b, c', e);
    Glue(a, c, b);
    assert Fields3(a, c, b, c', e)[..|a| + 1 + |b|] == a + [c] + b;
  }

  function DatePart(y: nat, mo: nat, d: nat): string {
    Fields3(Digits(y, 4), '-', Digits(mo, 2), '-', Digits(d, 2))
  }

  function ClockPart(h: nat, mi: nat, s: nat): string {
    Fields3(Digits(h, 2), ':', Digits(mi, 2), ':', Digits(s, 2))
  }

  lemma DatePartFields(y: nat, mo: nat, d: nat)
    ensures IsDatePart(DatePart(y, mo, d))
    ensures var t := DatePart(y, mo, d);
      t[..4] == Digits(y, 4) && t[5..7] == Digits(mo, 2) && t[8..] == Digits(d, 2)
  {
    Fields3Parts(Digits(y, 4), '-', Digits(mo, 2), '-', Digits(d, 2));
  }

  lemma ClockPartFields(h: nat, mi: nat, s: nat)
    ensures IsClockPart(ClockPart(h, mi, s))
    ensures var t := ClockPart(h, mi, s);
      t[..2] == Digits(h, 2) && t[3..5] == Digits(mi, 2) && t[6..] == Digits(s, 2)
  {
    Fields3Parts(Digits(h, 2), ':', Digits(mi, 2), ':', Digits(s, 2));
  }

  /** `strftime("%Y-%m-%d %H:%M:%S.%f")` for a valid reading. */
  function FormatDate(y: int, mo: int, d: int, h: int, mi: int, s: int, us: int): (r: string)
    requires DateTime(y, mo, d, h, mi, s, us).Valid()
    ensures IsTimestamp(r)
    ensures r[..10] == DatePart(y, mo, d) && r[11..19] == ClockPart(h, mi, s) && r[20..] == Digits(us, 6)
  {
    var date, clock, micros := DatePart(y, mo, d), ClockPart(h, mi, s), Digits(us, 6);
    DatePartFields(y, mo, d);
    ClockPartFields(h, mi, s);
    Fields3Parts(date, ' ', clock, '.', micros);
    Fields3(date, ' ', clock, '.', micros)
  }

  /** `strptime` with the same format: the seven fields of a formatted date. */
  function ReadDate(t: string): DateTime
    requires IsTimestamp(t)
  {
    var date, clock := t[..10], t[11..19];
    DateTime(ValueOf(date[..4]), ValueOf(date[5..7]), ValueOf(date[8..]),
             ValueOf(clock[..2]), ValueOf(clock[3..5]), ValueOf(clock[6..]), ValueOf(t[20..]))
  }

  /** The round trip: the stored date gives back the clock reading it was
      made from, to the microsecond. */
  lemma ReadFormatDate(t: DateTime)
    requires t.Valid()
    ensures ReadDate(FormatDate(t.year, t.month, t.day, t.hour, t.minute, t.second, t.microsecond)) == t
  {
    DatePartFields(t.year, t.month, t.day);
    ClockPartFields(t.hour, t.minute, t.second);
    assert Pow10(2) == 100 && Pow10(4) == 10000 && Pow10(6) == 1000000;
    DigitsRoundTrip(t.year, 4);
    DigitsRoundTrip(t.month, 2);
    DigitsRoundTrip(t.day, 2);
    DigitsRoundTrip(t.hour, 2);
    DigitsRoundTrip(t.minute, 2);
    DigitsRoundTrip(t.second, 2);
    DigitsRoundTrip(t.microsecond, 6);
  }
}
