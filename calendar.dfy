/**
 * Calendar dates and local date-times as `java.time.LocalDate` and `LocalDateTime`
 * read and write them: ISO 8601 calendar dates `yyyy-MM-dd` (section 4.1.2 of
 * ISO 8601:2004) and date-times `yyyy-MM-ddTHH:mm[:ss[.fraction]]` (section 4.3).
 */
module Calendar {
  import opened Wrappers
  import opened JavaText

  /** A proleptic Gregorian calendar date. */
  datatype Date = Date(year: int, month: int, day: int)

  predicate IsLeapYear(y: int) {
    y % 4 == 0 && (y % 100 != 0 || y % 400 == 0)
  }

  function DaysInMonth(y: int, m: int): int
    requires 1 <= m <= 12
  {
    if m == 2 then (if IsLeapYear(y) then 29 else 28)
    else if m == 4 || m == 6 || m == 9 || m == 11 then 30
    else 31
  }

  /** A real calendar day whose year is written with four digits. */
  predicate ValidDate(d: Date) {
    0 <= d.year <= 9999 && 1 <= d.month <= 12 && 1 <= d.day <= DaysInMonth(d.year, d.month)
  }

  /** `LocalDate.isBefore`: chronological order, which is lexicographic on (year, month, day). */
  predicate Before(a: Date, b: Date) {
    a.year < b.year ||
    (a.year == b.year && (a.month < b.month || (a.month == b.month && a.day < b.day)))
  }

  predicate IsDigit(c: char) {
    '0' <= c <= '9'
  }

  predicate AllDigits(s: string) {
    forall i :: 0 <= i < |s| ==> IsDigit(s[i])
  }

  function DigitValue(c: char): nat
    requires IsDigit(c)
  {
    c as int - '0' as int
  }

  function DigitChar(n: nat): char
    requires n <= 9
  {
    ('0' as int + n) as char
  }

  function Pow10(n: nat): nat {
    if n == 0 then 1 else 10 * Pow10(n - 1)
  }

  /** The value of a decimal numeral. */
  function NumberValue(s: string): nat
    requires AllDigits(s)
  {
    if s == [] then 0 else 10 * NumberValue(s[..|s| - 1]) + DigitValue(s[|s| - 1])
  }

  /** The last `width` decimal digits of `n`, zero-padded on the left. */
  function Padded(n: nat, width: nat): (s: string)
    ensures |s| == width && AllDigits(s)
  {
    if width == 0 then "" else Padded(n / 10, width - 1) + [DigitChar(n % 10)]
  }

  lemma {:induction false} NumberValueOfPadded(n: nat, width: nat)
    requires n < Pow10(width)
    ensures NumberValue(Padded(n, width)) == n
  {
    if width > 0 {
      var s := Padded(n, width);
      assert s[..|s| - 1] == Padded(n / 10, width - 1);
      NumberValueOfPadded(n / 10, width - 1);
    }
  }

  lemma {:induction false} PaddedOfNumberValue(s: string)
    requires AllDigits(s)
    ensures NumberValue(s) < Pow10(|s|)
    ensures Padded(NumberValue(s), |s|) == s
  {
    if s != [] {
      var init := s[..|s| - 1];
      PaddedOfNumberValue(init);
      var n := NumberValue(s);
      assert n / 10 == NumberValue(init) && n % 10 == DigitValue(s[|s| - 1]);
      assert s == init + [s[|s| - 1]];
    }
  }

  /** `LocalDate.toString` for a four-digit year. */
  function RenderDate(d: Date): string
    requires ValidDate(d)
  {
    Padded(d.year, 4) + "-" + Padded(d.month, 2) + "-" + Padded(d.day, 2)
  }

  /** `LocalDate.parse` with the ISO local date format, for four-digit years; `None` where Java throws. */
  function ParseDate(s: string): (r: Option<Date>)
    ensures r.Some? ==> ValidDate(r.value)
  {
    if |s| == 10 && s[4] == '-' && s[7] == '-' &&
       AllDigits(s[..4]) && AllDigits(s[5..7]) && AllDigits(s[8..])
    then
      var d := Date(NumberValue(s[..4]), NumberValue(s[5..7]), NumberValue(s[8..]));
      if ValidDate(d) then Some(d) else None
    else None
  }

  lemma ParseRenderDate(d: Date)
    requires ValidDate(d)
    ensures ParseDate(RenderDate(d)) == Some(d)
  {
    var s := RenderDate(d);
    assert s[..4] == Padded(d.year, 4) && s[5..7] == Padded(d.month, 2) && s[8..] == Padded(d.day, 2);
    NumberValueOfPadded(d.year, 4);
    NumberValueOfPadded(d.month, 2);
    NumberValueOfPadded(d.day, 2);
  }

  lemma RenderParseDate(s: string)
    requires ParseDate(s).Some?
    ensures RenderDate(ParseDate(s).value) == s
  {
    PaddedOfNumberValue(s[..4]);
    PaddedOfNumberValue(s[5..7]);
    PaddedOfNumberValue(s[8..]);
    assert s == s[..4] + "-" + s[5..7] + "-" + s[8..];
  }

  /** A local date-time; the time of day is kept as its ISO text `HH:mm[:ss[.fraction]]`. */
  datatype DateTime = DateTime(date: Date, clock: string)

  /** Two digits at `i` whose value is at most `max`. */
  predicate TwoDigitsAt(s: string, i: nat, max: nat) {
    i + 2 <= |s| && IsDigit(s[i]) && IsDigit(s[i + 1]) &&
    10 * DigitValue(s[i]) + DigitValue(s[i + 1]) <= max
  }

  /** The ISO local time format: hour and minute, optional second, optional 1 to 9 fraction digits. */
  predicate IsClockText(s: string) {
    (|s| == 5 || |s| == 8 || 10 <= |s| <= 18) &&
    TwoDigitsAt(s, 0, 23) && s[2] == ':' && TwoDigitsAt(s, 3, 59) &&
    (|s| >= 8 ==> s[5] == ':' && TwoDigitsAt(s, 6, 59)) &&
    (|s| >= 10 ==> s[8] == '.' && AllDigits(s[9..]))
  }

  function Zeros(n: nat): (z: string)
    ensures |z| == n && forall i :: 0 <= i < n ==> z[i] == '0'
  {
    if n == 0 then "" else Zeros(n - 1) + "0"
  }

  predicate AllZeros(s: string) {
    forall i :: 0 <= i < |s| ==> s[i] == '0'
  }

  /** The two second digits of a clock text; "00" when it has none. */
  function SecondText(c: string): string
    requires IsClockText(c)
  {
    if |c| >= 8 then c[6..8] else "00"
  }

  /** The nine nanosecond digits of a clock text: its fraction padded with zeros on the right. */
  function NanoText(c: string): (n: string)
    requires IsClockText(c)
    ensures |n| == 9 && AllDigits(n)
  {
    if |c| >= 10 then c[9..] + Zeros(18 - |c|) else Zeros(9)
  }

  /** How `LocalTime.toString` writes nanoseconds: nothing, or 3, 6 or 9 digits, the fewest that lose nothing. */
  function FractionText(n: string): string
    requires |n| == 9
  {
    if AllZeros(n) then ""
    else if AllZeros(n[3..]) then "." + n[..3]
    else if AllZeros(n[6..]) then "." + n[..6]
    else "." + n
  }

  /**
   * `LocalTime.toString` of the time a clock text denotes: the seconds only when the
   * seconds or the nanoseconds are not zero, then the shortest exact fraction.
   */
  function CanonicalClock(c: string): (r: string)
    requires IsClockText(c)
  {
    var n := NanoText(c);
    if SecondText(c) == "00" && AllZeros(n) then c[..5]
    else c[..5] + ":" + SecondText(c) + FractionText(n)
  }

  /** Canonical texts are clock texts that `toString` writes back unchanged. */
  lemma CanonicalClockIsCanonical(c: string)
    requires IsClockText(c)
    ensures IsClockText(CanonicalClock(c)) && CanonicalClock(CanonicalClock(c)) == CanonicalClock(c)
  {
    if SecondText(c) == "00" && AllZeros(NanoText(c)) {
      CanonicalWithoutSeconds(c);
    } else {
      CanonicalWithSeconds(c);
    }
  }

  /** A time on the minute is written as hour and minute, which stays as it is. */
  lemma CanonicalWithoutSeconds(c: string)
    requires IsClockText(c) && SecondText(c) == "00" && AllZeros(NanoText(c))
    ensures IsClockText(CanonicalClock(c)) && CanonicalClock(CanonicalClock(c)) == CanonicalClock(c)
  {
    var r := CanonicalClock(c);
    assert r == c[..5];
    assert NanoText(r) == Zeros(9);
  }

  /** Any other time is written with its seconds and shortest fraction, which stay as they are. */
  lemma CanonicalWithSeconds(c: string)
    requires IsClockText(c) && !(SecondText(c) == "00" && AllZeros(NanoText(c)))
    ensures IsClockText(CanonicalClock(c)) && CanonicalClock(CanonicalClock(c)) == CanonicalClock(c)
  {
    var n := NanoText(c);
    var r := CanonicalClock(c);
    ClockWithSeconds(c, FractionText(n));
    if AllZeros(n) {
      assert NanoText(r) == Zeros(9);
    } else if AllZeros(n[3..]) {
      CanonicalMillis(c, r);
    } else if AllZeros(n[6..]) {
      CanonicalMicros(c, r);
    } else {
      assert r[9..] == n;
      assert NanoText(r) == n;
    }
  }

  /** The hour, minute and second of a clock text followed by a fraction text. */
  lemma ClockWithSeconds(c: string, f: string)
    requires IsClockText(c) && f == FractionText(NanoText(c))
    ensures var r := c[..5] + ":" + SecondText(c) + f;
      |r| == 8 + |f| && r[..5] == c[..5] && r[5] == ':' && r[6..8] == SecondText(c) && r[8..] == f &&
      TwoDigitsAt(r, 0, 23) && r[2] == ':' && TwoDigitsAt(r, 3, 59) && TwoDigitsAt(r, 6, 59)
  {
    var ss := SecondText(c);
    var r := c[..5] + ":" + ss + f;
    assert r[6] == ss[0] && r[7] == ss[1];
  }

  /** Three fraction digits stay three. */
  lemma CanonicalMillis(c: string, r: string)
    requires IsClockText(c) && var n := NanoText(c); !AllZeros(n) && AllZeros(n[3..])
    requires r == c[..5] + ":" + SecondText(c) + FractionText(NanoText(c))
    requires |r| == 12 && r[8..] == FractionText(NanoText(c)) && IsClockText(r)
    ensures NanoText(r) == NanoText(c)[..3] + Zeros(6) && FractionText(NanoText(r)) == FractionText(NanoText(c))
  {
    var n := NanoText(c);
    assert r[9..] == n[..3];
    var m := NanoText(r);
    assert m == n[..3] + Zeros(6);
    assert m == n by {
      forall i | 3 <= i < 9 ensures m[i] == n[i] {
        assert n[3..][i - 3] == '0';
      }
    }
  }

  /** Six fraction digits stay six. */
  lemma CanonicalMicros(c: string, r: string)
    requires IsClockText(c) && var n := NanoText(c); !AllZeros(n[3..]) && AllZeros(n[6..])
    requires r == c[..5] + ":" + SecondText(c) + FractionText(NanoText(c))
    requires |r| == 15 && r[8..] == FractionText(NanoText(c)) && IsClockText(r)
    ensures NanoText(r) == NanoText(c)[..6] + Zeros(3) && FractionText(NanoText(r)) == FractionText(NanoText(c))
  {
    var n := NanoText(c);
    assert r[9..] == n[..6];
    var m := NanoText(r);
    assert m == n[..6] + Zeros(3);
    assert m == n by {
      forall i | 6 <= i < 9 ensures m[i] == n[i] {
        assert n[6..][i - 6] == '0';
      }
    }
  }

  /** A date-time `LocalDateTime.toString` can write: a real date and a canonical time of day. */
  predicate ValidDateTime(t: DateTime) {
    ValidDate(t.date) && IsClockText(t.clock) && CanonicalClock(t.clock) == t.clock
  }

  /** The date-times the repository holds: every one came from `LocalDateTime.parse` or the clock. */
  type Timestamp = t: DateTime | ValidDateTime(t) witness DateTime(Date(2000, 1, 1), "00:00")

  /** `LocalDateTime.toString`. */
  function RenderDateTime(t: DateTime): string
    requires ValidDateTime(t)
  {
    RenderDate(t.date) + "T" + t.clock
  }

  /** The date-time separator; the ISO parser ignores case, so 't' is accepted too. */
  predicate IsTimeSeparator(c: char) {
    c == 'T' || c == 't'
  }

  /** `LocalDateTime.parse`; `None` where Java throws. */
  function ParseDateTime(s: string): (r: Option<DateTime>)
    ensures r.Some? ==> ValidDateTime(r.value)
    ensures r.Some? ==> |s| >= 11 && IsTimeSeparator(s[10]) && ParseDate(s[..10]) == Some(r.value.date)
  {
    if |s| >= 11 && IsTimeSeparator(s[10]) && ParseDate(s[..10]).Some? && IsClockText(s[11..])
    then
      CanonicalClockIsCanonical(s[11..]);
      Some(DateTime(ParseDate(s[..10]).value, CanonicalClock(s[11..])))
    else None
  }

  lemma ParseRenderDateTime(t: DateTime)
    requires ValidDateTime(t)
    ensures ParseDateTime(RenderDateTime(t)) == Some(t)
  {
    var s := RenderDateTime(t);
    assert s[..10] == RenderDate(t.date) && s[11..] == t.clock;
    ParseRenderDate(t.date);
  }

  /**
   * Rendering a parsed date-time gives the text back with an upper-case separator and
   * its time of day in canonical form.
   */
  lemma RenderParseDateTime(s: string)
    requires ParseDateTime(s).Some?
    ensures RenderDateTime(ParseDateTime(s).value) == s[..10] + "T" + CanonicalClock(s[11..])
    ensures s[10] == 'T' && CanonicalClock(s[11..]) == s[11..] ==> RenderDateTime(ParseDateTime(s).value) == s
  {
    RenderParseDate(s[..10]);
    if s[10] == 'T' {
      assert s[..11] == s[..10] + "T";
      assert s == s[..11] + s[11..];
    }
  }

  /** A lower-case separator reads as the upper-case one. */
  lemma LowerCaseSeparatorIsAccepted(s: string)
    requires |s| >= 11 && s[10] == 't'
    ensures ParseDateTime(s) == ParseDateTime(s[..10] + "T" + s[11..])
  {
    var u := s[..10] + "T" + s[11..];
    assert u[..10] == s[..10] && u[10] == 'T' && u[11..] == s[11..];
  }

  /** The characters a rendered date or date-time is written with. */
  predicate IsPlainChar(c: char) {
    IsDigit(c) || c == '-' || c == 'T' || c == ':' || c == '.'
  }

  predicate IsPlainText(s: string) {
    forall i :: 0 <= i < |s| ==> IsPlainChar(s[i])
  }

  lemma RenderedDateIsPlain(d: Date)
    requires ValidDate(d)
    ensures IsPlainText(RenderDate(d)) && |RenderDate(d)| == 10
  {
    var s := RenderDate(d);
    forall i | 0 <= i < |s|
      ensures IsPlainChar(s[i])
    {
      if i < 4 {
        assert s[i] == Padded(d.year, 4)[i];
      } else if 4 < i < 7 {
        assert s[i] == Padded(d.month, 2)[i - 5];
      } else if 7 < i < 10 {
        assert s[i] == Padded(d.day, 2)[i - 8];
      }
    }
  }

  lemma ClockTextIsPlain(c: string)
    requires IsClockText(c)
    ensures IsPlainText(c)
  {
    forall i | 9 <= i < |c|
      ensures IsDigit(c[i])
    {
      assert c[i] == c[9..][i - 9];
    }
  }

  /**
   * A rendered date-time is written only with digits, '-', 'T', ':' and '.':
   * it holds no comma, nothing `trim` removes and nothing `isBlank` accepts.
   */
  lemma RenderedDateTimeIsPlain(t: DateTime)
    requires ValidDateTime(t)
    ensures var s := RenderDateTime(t);
      CommaFree(s) && HasCleanEdges(s) && !IsBlank(s) && |s| >= 16
  {
    var s := RenderDateTime(t);
    var r := RenderDate(t.date);
    RenderedDateIsPlain(t.date);
    ClockTextIsPlain(t.clock);
    assert s == r + "T" + t.clock;
    assert IsPlainText(s) by {
      forall i | 0 <= i < |s|
        ensures IsPlainChar(s[i])
      {
        if i < 10 {
          assert s[i] == r[i];
        } else if i > 10 {
          assert s[i] == t.clock[i - 11];
        }
      }
    }
    assert IsPlainChar(s[0]) && IsPlainChar(s[|s| - 1]);
    assert !IsJavaWhitespace(s[0]);
  }
}
