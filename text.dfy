/**
 * The two library services the aggregation leans on for text: `str.lower`
 * (restricted to ASCII) and the strict `%Y-%m-%d` date check that
 * `datetime.strptime` performs.
 */
module Text {

  predicate IsUpper(c: char)
  {
    'A' <= c <= 'Z'
  }

  function LowerChar(c: char): (d: char)
    ensures !IsUpper(d)
    ensures !IsUpper(c) ==> d == c
  {
    if IsUpper(c) then (c as int + 32) as char else c
  }

  /** `s.lower()` for ASCII text. */
  function Lower(s: string): (r: string)
    ensures |r| == |s|
    ensures forall i :: 0 <= i < |s| ==> r[i] == LowerChar(s[i])
    ensures forall i :: 0 <= i < |r| ==> !IsUpper(r[i])
  {
    if s == [] then [] else [LowerChar(s[0])] + Lower(s[1..])
  }

  /** Lowering twice is lowering once: grouping keys are stable. */
  lemma LowerIdempotent(s: string)
    ensures Lower(Lower(s)) == Lower(s)
  {
    var r := Lower(s);
    assert forall i :: 0 <= i < |r| ==> Lower(r)[i] == r[i];
  }

  predicate IsDigit(c: char)
  {
    '0' <= c <= '9'
  }

  predicate AllDigits(s: string)
  {
    forall i :: 0 <= i < |s| ==> IsDigit(s[i])
  }

  function Pow10(k: nat): (p: nat)
    ensures p >= 1
  {
    if k == 0 then 1 else 10 * Pow10(k - 1)
  }

  /** The decimal value of a run of digits. */
  function Number(s: string): (n: nat)
    requires AllDigits(s)
    ensures n < Pow10(|s|)
  {
    if s == [] then 0
    else
      assert AllDigits(s[..|s| - 1]);
      10 * Number(s[..|s| - 1]) + (s[|s| - 1] as int - '0' as int)
  }

  predicate IsLeap(y: int)
  {
    y % 4 == 0 && (y % 100 != 0 || y % 400 == 0)
  }

  /** Days in month `m` of year `y` (proleptic Gregorian, as `datetime` uses). */
  function DaysInMonth(y: int, m: int): int
  {
    if m == 2 then (if IsLeap(y) then 29 else 28)
    else if m == 4 || m == 6 || m == 9 || m == 11 then 30
    else 31
  }

  function DigitValue(c: char): int
  {
    c as int - '0' as int
  }

  /** What `%m` matches: 1 to 12, with or without a leading zero. */
  predicate MonthField(m: string)
  {
    || (|m| == 1 && '1' <= m[0] <= '9')
    || (|m| == 2 && m[0] == '0' && '1' <= m[1] <= '9')
    || (|m| == 2 && m[0] == '1' && '0' <= m[1] <= '2')
  }

  /** What `%d` matches: 1 to 31, with or without a leading zero, or a space and one digit. */
  predicate DayField(d: string)
  {
    || (|d| == 1 && '1' <= d[0] <= '9')
    || (|d| == 2 && (d[0] == ' ' || d[0] == '0') && '1' <= d[1] <= '9')
    || (|d| == 2 && (d[0] == '1' || d[0] == '2') && IsDigit(d[1]))
    || (|d| == 2 && d[0] == '3' && (d[1] == '0' || d[1] == '1'))
  }

  /** The number a month or day field denotes (`int` ignores the leading space). */
  function FieldValue(f: string): (v: int)
    requires MonthField(f) || DayField(f)
    ensures MonthField(f) ==> 1 <= v <= 12
    ensures DayField(f) ==> 1 <= v <= 31
  {
    if |f| == 1 then DigitValue(f[0])
    else if f[0] == ' ' then DigitValue(f[1])
    else 10 * DigitValue(f[0]) + DigitValue(f[1])
  }

  /**
   * Where the month field ends. The field is one or two characters long and
   * a '-' follows it; a digit can never stand where that '-' must be, so the
   * second '-' at 6 or at 7 decides.
   */
  function MonthEnd(s: string): nat
    requires |s| >= 7
  {
    if s[6] == '-' then 6 else 7
  }

  /**
   * The strings `datetime.strptime(s, '%Y-%m-%d')` accepts: exactly four
   * year digits, '-', a `%m` field, '-', a `%d` field and nothing after it,
   * naming an existing calendar day in `datetime`'s years 1..9999.
   */
  predicate ValidYmd(s: string)
    ensures ValidYmd(s) ==> 8 <= |s| <= 10 && s[4] == '-' && AllDigits(s[..4])
  {
    && |s| >= 8
    && s[4] == '-' && AllDigits(s[..4]) && 1 <= Number(s[..4])
    && var k := MonthEnd(s);
       && s[k] == '-'
       && MonthField(s[5..k]) && DayField(s[k + 1..])
       && FieldValue(s[k + 1..]) <= DaysInMonth(Number(s[..4]), FieldValue(s[5..k]))
  }

  /** `date.year` of a parsed date: never 0, so always truthy in Python. */
  function YearOf(s: string): (y: int)
    requires ValidYmd(s)
    ensures 1 <= y <= 9999
  {
    assert Pow10(|s[..4]|) == 10000;
    Number(s[..4])
  }

  /** `date.month` and `date.day` of a parsed date: a real calendar day. */
  function MonthDayOf(s: string): (md: (int, int))
    requires ValidYmd(s)
    ensures 1 <= md.0 <= 12
    ensures 1 <= md.1 <= DaysInMonth(YearOf(s), md.0)
  {
    var k := MonthEnd(s);
    (FieldValue(s[5..k]), FieldValue(s[k + 1..]))
  }

  /** The character of a decimal digit 0..9. */
  function DigitChar(n: int): (c: char)
    requires 0 <= n <= 9
    ensures IsDigit(c) && DigitValue(c) == n
  {
    ('0' as int + n) as char
  }

  /** The last `width` decimal digits of `n`, zero-padded, as `%04d` and `%02d` write them. */
  function Padded(n: nat, width: nat): (s: string)
    ensures |s| == width && AllDigits(s)
  {
    if width == 0 then []
    else Padded(n / 10, width - 1) + [DigitChar(n % 10)]
  }

  /** Reading back a zero-padded number wide enough to hold it gives the number. */
  lemma {:induction false} PaddedNumber(n: nat, width: nat)
    requires n < Pow10(width)
    ensures Number(Padded(n, width)) == n
  {
    if width > 0 {
      var s := Padded(n, width);
      assert n / 10 < Pow10(width - 1);
      PaddedNumber(n / 10, width - 1);
      assert s[..|s| - 1] == Padded(n / 10, width - 1);
    }
  }

  /** `date(y, m, d).isoformat()`: YYYY-MM-DD with zero padding. */
  function IsoDate(y: nat, m: nat, d: nat): string
  {
    Padded(y, 4) + "-" + Padded(m, 2) + "-" + Padded(d, 2)
  }

  lemma TwoDigits(n: nat)
    requires n < 100
    ensures Padded(n, 2) == [DigitChar(n / 10), DigitChar(n % 10)]
  {
    assert Padded(n / 10, 1) == [DigitChar(n / 10)];
  }

  /**
   * Every calendar day of `datetime`'s years, written the way `isoformat`
   * writes it, is accepted, and parses back to that year, month and day.
   */
  lemma IsoDateAccepted(y: nat, m: nat, d: nat)
    requires 1 <= y <= 9999 && 1 <= m <= 12 && 1 <= d <= DaysInMonth(y, m)
    ensures ValidYmd(IsoDate(y, m, d))
    ensures YearOf(IsoDate(y, m, d)) == y && MonthDayOf(IsoDate(y, m, d)) == (m, d)
  {
    var s := IsoDate(y, m, d);
    var ys, ms, ds := Padded(y, 4), Padded(m, 2), Padded(d, 2);
    TwoDigits(m);
    TwoDigits(d);
    assert s[..4] == ys && s[4] == '-';
    assert s[5..7] == ms && s[7] == '-' && s[8..] == ds;
    assert MonthEnd(s) == 7;
    assert Pow10(4) == 10000;
    PaddedNumber(y, 4);
    assert MonthField(ms) && FieldValue(ms) == m;
    assert DayField(ds) && FieldValue(ds) == d;
  }

  lemma Number2019()
    ensures AllDigits("2019") && Number("2019") == 2019
  {
    assert "2019"[..3] == "201" && "201"[..2] == "20" && "20"[..1] == "2" && "2"[..0] == "";
  }

  lemma Number2020()
    ensures AllDigits("2020") && Number("2020") == 2020
  {
    assert "2020"[..3] == "202" && "202"[..2] == "20" && "20"[..1] == "2" && "2"[..0] == "";
  }

  /** Single-digit and space-padded fields are accepted, as `strptime` does. */
  lemma ShortFieldsAccepted()
    ensures ValidYmd("2019-5-1") && MonthDayOf("2019-5-1") == (5, 1)
    ensures ValidYmd("2019-05- 7") && MonthDayOf("2019-05- 7") == (5, 7)
  {
    Number2019();
    assert "2019-5-1"[..4] == "2019" && "2019-5-1"[5..6] == "5" && "2019-5-1"[7..] == "1";
    assert "2019-05- 7"[..4] == "2019" && "2019-05- 7"[5..7] == "05" && "2019-05- 7"[8..] == " 7";
  }

  /** February 29 exists only in leap years; trailing text is refused. */
  lemma CalendarChecked()
    ensures ValidYmd("2020-02-29")
    ensures !ValidYmd("2019-02-29")
    ensures !ValidYmd("2019-02-011")
  {
    Number2019();
    Number2020();
    assert "2020-02-29"[..4] == "2020" && "2020-02-29"[5..7] == "02" && "2020-02-29"[8..] == "29";
    assert "2019-02-29"[..4] == "2019" && "2019-02-29"[5..7] == "02" && "2019-02-29"[8..] == "29";
    assert "2019-02-011"[8..] == "011";
  }
}
