/** The time-bucket string a poll tick requests:
    `f'{t.year}{t.month:02d}{t.day:02d}-{t.hour:02d}{t.minute:02d}'`. */
module TickFormat {
  import opened Values

  /** A calendar date as Python's datetime holds it. */
  datatype Date = Date(year: nat, month: nat, day: nat)

  /** The range Python's datetime guarantees for its date fields. */
  predicate ValidDate(d: Date)
  {
    1 <= d.year <= 9999 && 1 <= d.month <= 12 && 1 <= d.day <= 31
  }

  /** The five fields the tick string shows. */
  datatype Civil = Civil(year: nat, month: nat, day: nat, hour: nat, minute: nat)

  /** The broken-down local time of instant `t`. The date of a day number is
      given by `calendar` (calendar arithmetic is the datetime library's);
      hour and minute follow from the instant alone. */
  function CivilOf(calendar: int -> Date, t: Instant): (c: Civil)
    ensures c.year == calendar(t / DAY).year && c.month == calendar(t / DAY).month
         && c.day == calendar(t / DAY).day
    ensures c.hour < 24 && c.minute < 60
    ensures t / DAY * DAY + c.hour * HOUR + c.minute * MINUTE <= t
         < t / DAY * DAY + c.hour * HOUR + (c.minute + 1) * MINUTE
  {
    var d := calendar(t / DAY);
    TimeOfDay(t);
    Civil(d.year, d.month, d.day, (t / HOUR) % 24, (t / MINUTE) % 60)
  }

  /** The minute `t` falls in is its day's start plus its hour and minute of
      the day. */
  lemma TimeOfDay(t: Instant)
    ensures var hour, minute := (t / HOUR) % 24, (t / MINUTE) % 60;
      t / DAY * DAY + hour * HOUR + minute * MINUTE <= t
      < t / DAY * DAY + hour * HOUR + (minute + 1) * MINUTE
  {
    var q := t / MINUTE;
    var p := t / HOUR;
    var d := t / DAY;
    assert t == q * MINUTE + t % MINUTE;
    assert t == p * HOUR + t % HOUR;
    assert t == d * DAY + t % DAY;
    assert q / 60 == p by {
      assert q == 60 * (q / 60) + q % 60;
      assert (q / 60) * HOUR <= t < (q / 60 + 1) * HOUR;
    }
    assert p / 24 == d by {
      assert p == 24 * (p / 24) + p % 24;
      assert (p / 24) * DAY <= t < (p / 24 + 1) * DAY;
    }
    assert q == 60 * p + q % 60;
    assert p == 24 * d + p % 24;
  }

  predicate IsDigit(c: char)
  {
    '0' <= c <= '9'
  }

  predicate AllDigits(s: string)
  {
    forall i :: 0 <= i < |s| ==> IsDigit(s[i])
  }

  function DigitChar(d: nat): (c: char)
    requires d < 10
    ensures IsDigit(c)
  {
    ('0' as int + d) as char
  }

  function DigitValue(c: char): nat
    requires IsDigit(c)
  {
    c as int - '0' as int
  }

  /** `str(n)`: the decimal digits of `n`, without leading zeros. */
  function Decimal(n: nat): string
  {
    if n < 10 then [DigitChar(n)] else Decimal(n / 10) + [DigitChar(n % 10)]
  }

  /** `f'{n:02d}'`: at least two digits, padded with a leading zero. */
  function Pad2(n: nat): string
  {
    if n < 10 then "0" + Decimal(n) else Decimal(n)
  }

  function Format(c: Civil): string
  {
    Decimal(c.year) + Pad2(c.month) + Pad2(c.day) + "-" + Pad2(c.hour) + Pad2(c.minute)
  }

  /** The time bucket requested for the tick at instant `t`. */
  function TickString(calendar: int -> Date, t: Instant): string
  {
    Format(CivilOf(calendar, t))
  }

  /** The number a string of decimal digits denotes. */
  function ParseDecimal(s: string): nat
    requires AllDigits(s)
  {
    if s == [] then 0 else ParseDecimal(s[..|s| - 1]) * 10 + DigitValue(s[|s| - 1])
  }

  /** Reads a `YYYYMMDD-HHMM` bucket back into its fields. */
  function ParseTick(s: string): Option<Civil>
  {
    if |s| == 13 && s[8] == '-' && AllDigits(s[..8]) && AllDigits(s[9..]) then
      Some(Civil(ParseDecimal(s[..4]), ParseDecimal(s[4..6]), ParseDecimal(s[6..8]),
                 ParseDecimal(s[9..11]), ParseDecimal(s[11..])))
    else
      None
  }

  // ---------------------------------------------------------------------
  // Properties

  /** The digits of `n` read back as `n`, and their count follows the magnitude. */
  lemma {:induction false} DecimalRoundTrip(n: nat)
    ensures AllDigits(Decimal(n))
    ensures ParseDecimal(Decimal(n)) == n
    ensures n < 10 ==> |Decimal(n)| == 1
    ensures 10 <= n ==> |Decimal(n)| == |Decimal(n / 10)| + 1
  {
    var s := Decimal(n);
    if n >= 10 {
      DecimalRoundTrip(n / 10);
      assert s[..|s| - 1] == Decimal(n / 10);
    }
  }

  /** How many characters `str(n)` takes for the years a datetime can hold. */
  lemma DecimalLength(n: nat)
    ensures n < 10 ==> |Decimal(n)| == 1
    ensures 10 <= n < 100 ==> |Decimal(n)| == 2
    ensures 100 <= n < 1000 ==> |Decimal(n)| == 3
    ensures 1000 <= n < 10000 ==> |Decimal(n)| == 4
  {
    DecimalRoundTrip(n);
    if n >= 10 {
      DecimalRoundTrip(n / 10);
      if n / 10 >= 10 {
        DecimalRoundTrip(n / 100);
        if n / 100 >= 10 {
          DecimalRoundTrip(n / 1000);
        }
      }
    }
  }

  /** A two-digit field is two digits that read back as the field. */
  lemma Pad2RoundTrip(n: nat)
    requires n < 100
    ensures |Pad2(n)| == 2 && AllDigits(Pad2(n)) && ParseDecimal(Pad2(n)) == n
  {
    DecimalRoundTrip(n);
    DecimalLength(n);
    if n < 10 {
      var s := Pad2(n);
      assert s[..1] == "0";
      assert ParseDecimal("0") == 0 by {
        assert "0"[..0] == [];
      }
    }
  }

  /** A tick string for a four-digit year is 13 characters, `YYYYMMDD-HHMM`,
      and reads back as the fields it was made from: distinct fields give
      distinct buckets. */
  lemma FormatRoundTrip(c: Civil)
    requires 1000 <= c.year <= 9999
    requires c.month < 100 && c.day < 100 && c.hour < 100 && c.minute < 100
    ensures |Format(c)| == 13 && Format(c)[8] == '-'
    ensures ParseTick(Format(c)) == Some(c)
  {
    var y, mo, d, h, mi := Decimal(c.year), Pad2(c.month), Pad2(c.day), Pad2(c.hour), Pad2(c.minute);
    DecimalRoundTrip(c.year);
    DecimalLength(c.year);
    Pad2RoundTrip(c.month);
    Pad2RoundTrip(c.day);
    Pad2RoundTrip(c.hour);
    Pad2RoundTrip(c.minute);
    var s := Format(c);
    assert s == y + mo + d + "-" + h + mi;
    assert s[..4] == y;
    assert s[4..6] == mo;
    assert s[6..8] == d;
    assert s[9..11] == h;
    assert s[11..] == mi;
    assert s[..8] == y + mo + d;
    assert s[9..] == h + mi;
  }

  /** Every tick of a year from 1000 on requests a 13-character bucket naming
      its own date, hour and minute. */
  lemma TickStringShape(calendar: int -> Date, t: Instant)
    requires ValidDate(calendar(t / DAY)) && calendar(t / DAY).year >= 1000
    ensures |TickString(calendar, t)| == 13
    ensures ParseTick(TickString(calendar, t)) == Some(CivilOf(calendar, t))
  {
    FormatRoundTrip(CivilOf(calendar, t));
  }

  /** The year is not padded: before year 1000 the bucket is shorter than 13
      characters. */
  lemma ShortYearTick(calendar: int -> Date, t: Instant)
    requires ValidDate(calendar(t / DAY)) && calendar(t / DAY).year < 1000
    ensures |TickString(calendar, t)| < 13
  {
    var c := CivilOf(calendar, t);
    DecimalLength(c.year);
    DecimalLength(c.month);
    DecimalLength(c.day);
    DecimalLength(c.hour);
    DecimalLength(c.minute);
  }
}
