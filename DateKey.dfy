/**
 * The date key of the historical price lookup: DD-MM-YYYY, built from the draw date's day
 * of the month and month (each padded with '0' to two characters, the month counted from 1)
 * and its full year. The number-to-text conversions are those of Number.prototype.toString
 * and String.prototype.padStart for the values that occur here.
 */
module DateKey {
  import opened Calendar
  import opened Wrappers

  predicate IsDigit(ch: char) {
    '0' <= ch <= '9'
  }

  function DigitChar(d: int): (ch: char)
    requires 0 <= d < 10
    ensures IsDigit(ch)
  {
    ('0' as int + d) as char
  }

  function DigitValue(ch: char): (d: int)
    requires IsDigit(ch)
    ensures 0 <= d < 10
  {
    ch as int - '0' as int
  }

  /** Decimal digits of n, most significant first, without leading zeros. */
  function NatToString(n: nat): (s: string)
    ensures |s| >= 1
    ensures forall i :: 0 <= i < |s| ==> IsDigit(s[i])
  {
    if n < 10 then [DigitChar(n)] else NatToString(n / 10) + [DigitChar(n % 10)]
  }

  /** Number.prototype.toString() of an integer: an optional '-' followed by its decimal digits. */
  function IntToString(n: int): (s: string)
    ensures n >= 0 ==> |s| >= 1 && forall i :: 0 <= i < |s| ==> IsDigit(s[i])
    ensures n < 0 ==> |s| >= 2 && s[0] == '-' && forall i :: 1 <= i < |s| ==> IsDigit(s[i])
  {
    if n < 0 then "-" + NatToString(-n) else NatToString(n)
  }

  /** String.prototype.padStart(targetLength, fill) for a one-character fill. */
  function PadStart(s: string, targetLength: nat, fill: char): string {
    if |s| >= targetLength then s else seq(targetLength - |s|, _ => fill) + s
  }

  /** The key built from a calendar date: zero-padded day, "-", zero-padded 1-based month, "-", year. */
  function FormatCivil(c: CivilDate): string {
    PadStart(IntToString(c.date), 2, '0') + "-" + PadStart(IntToString(c.month + 1), 2, '0') + "-" + IntToString(c.year)
  }

  /** formattedDate of a Date holding time value t. */
  function FormattedDate(t: int): (key: string)
    ensures ParseDateKey(key) == Some(CivilOf(t))
  {
    ParseFormatCivil(CivilOf(t));
    FormatCivil(CivilOf(t))
  }

  // ---------------------------------------------------------------------------------------------
  // Reading a key back: DD-MM-YYYY with any number of year digits and an optional sign.
  // ---------------------------------------------------------------------------------------------

  function ParseNat(s: string): (r: Option<nat>)
    ensures r.Some? ==> |s| >= 1
  {
    if |s| == 0 || !IsDigit(s[|s| - 1]) then None
    else if |s| == 1 then Some(DigitValue(s[0]))
    else match ParseNat(s[..|s| - 1])
      case None => None
      case Some(high) => Some(high * 10 + DigitValue(s[|s| - 1]))
  }

  function ParseInt(s: string): Option<int> {
    if |s| > 0 && s[0] == '-' then
      match ParseNat(s[1..])
      case None => None
      case Some(n) => Some(-(n as int))
    else
      match ParseNat(s)
      case None => None
      case Some(n) => Some(n)
  }

  /** The value of the two digits ab. */
  function TwoDigitValue(a: char, b: char): int
    requires IsDigit(a) && IsDigit(b)
  {
    DigitValue(a) * 10 + DigitValue(b)
  }

  /** The calendar date a key names, month from 0 as getMonth counts it, or None when s is not a key. */
  function ParseDateKey(s: string): Option<CivilDate> {
    if |s| < 7 || !IsDigit(s[0]) || !IsDigit(s[1]) || s[2] != '-' || !IsDigit(s[3]) || !IsDigit(s[4]) || s[5] != '-' then
      None
    else
      match ParseInt(s[6..])
      case None => None
      case Some(year) => Some(CivilDate(year, TwoDigitValue(s[3], s[4]) - 1, TwoDigitValue(s[0], s[1])))
  }

  // ---------------------------------------------------------------------------------------------
  // Properties
  // ---------------------------------------------------------------------------------------------

  lemma {:induction false} ParseNatToString(n: nat)
    ensures ParseNat(NatToString(n)) == Some(n)
  {
    if n >= 10 {
      var s := NatToString(n);
      ParseNatToString(n / 10);
      assert s[..|s| - 1] == NatToString(n / 10);
    }
  }

  lemma ParseIntToString(n: int)
    ensures ParseInt(IntToString(n)) == Some(n)
  {
    var s := IntToString(n);
    if n < 0 {
      ParseNatToString(-n);
      assert s[0] == '-' && s[1..] == NatToString(-n);
    } else {
      ParseNatToString(n);
      assert s == NatToString(n) && IsDigit(s[0]);
    }
  }

  /** A number below 100, padded to two characters, is exactly its tens digit and its units digit. */
  lemma TwoDigits(v: int)
    requires 0 <= v < 100
    ensures PadStart(IntToString(v), 2, '0') == [DigitChar(v / 10), DigitChar(v % 10)]
  {
    if v < 10 {
      assert IntToString(v) == [DigitChar(v)];
      assert PadStart(IntToString(v), 2, '0') == ['0'] + [DigitChar(v)];
    } else {
      assert NatToString(v / 10) == [DigitChar(v / 10)];
      assert IntToString(v) == [DigitChar(v / 10), DigitChar(v % 10)];
    }
  }

  /**
   * The key of a calendar date reads: two digits of the day, '-', two digits of the month
   * counted from 1, '-', the year as toString writes it; a four-digit year makes ten characters.
   */
  lemma DateKeyShape(c: CivilDate)
    requires ValidCivil(c)
    ensures var key := FormatCivil(c);
      && |key| >= 7 && key[2] == '-' && key[5] == '-'
      && IsDigit(key[0]) && IsDigit(key[1]) && IsDigit(key[3]) && IsDigit(key[4])
      && TwoDigitValue(key[0], key[1]) == c.date
      && TwoDigitValue(key[3], key[4]) == c.month + 1
      && key[6..] == IntToString(c.year)
      && (1000 <= c.year <= 9999 ==> |key| == 10)
  {
    TwoDigits(c.date);
    TwoDigits(c.month + 1);
    var y := IntToString(c.year);
    var key := FormatCivil(c);
    assert key == [DigitChar(c.date / 10), DigitChar(c.date % 10), '-',
                   DigitChar((c.month + 1) / 10), DigitChar((c.month + 1) % 10), '-'] + y;
    if 1000 <= c.year <= 9999 {
      assert |NatToString(c.year / 10)| == 3 by {
        assert |NatToString(c.year / 100)| == 2 by {
          assert |NatToString(c.year / 1000)| == 1;
        }
      }
    }
  }

  /** Reading the key of a valid calendar date gives that date back. */
  lemma ParseFormatCivil(c: CivilDate)
    requires ValidCivil(c)
    ensures ParseDateKey(FormatCivil(c)) == Some(c)
  {
    DateKeyShape(c);
    ParseIntToString(c.year);
  }

  /** Distinct calendar dates have distinct keys, so a key names exactly one day. */
  lemma FormatCivilInjective(a: CivilDate, b: CivilDate)
    requires ValidCivil(a) && ValidCivil(b) && FormatCivil(a) == FormatCivil(b)
    ensures a == b
  {
    ParseFormatCivil(a);
    ParseFormatCivil(b);
  }

  /** The key of a Date names the calendar day the Date falls on, and nothing else. */
  lemma FormattedDateNamesDay(t: int)
    ensures ParseDateKey(FormattedDate(t)) == Some(CivilOf(t))
    ensures DaysFromCivil(CivilOf(t).year, CivilOf(t).month, CivilOf(t).date) == Day(t)
  {
    ParseFormatCivil(CivilOf(t));
    DaysFromCivilRoundTrip(Day(t));
  }

  /** Two Dates have the same key exactly when they fall on the same day. */
  lemma FormattedDateDeterminesDay(s: int, t: int)
    ensures FormattedDate(s) == FormattedDate(t) <==> Day(s) == Day(t)
  {
    if FormattedDate(s) == FormattedDate(t) {
      FormatCivilInjective(CivilOf(s), CivilOf(t));
      DaysFromCivilRoundTrip(Day(s));
      DaysFromCivilRoundTrip(Day(t));
    }
  }
}
