/** The parts of the `time` crate the client uses: calendar dates, parsing
    with the description `[year]-[month]-[day] [hour]:[minute]`, output as
    RFC 3339 (section 5.6 of RFC 3339) and as `[year]-[month]-[day]`, and the
    order of `OffsetDateTime` values, which is the order of the instants they
    denote. */
module Time {
  import opened Rust

  datatype Date = Date(year: int, month: int, day: int)

  predicate IsLeapYear(y: int) { y % 4 == 0 && (y % 100 != 0 || y % 400 == 0) }

  function DaysInMonth(y: int, m: int): (n: int)
    requires 1 <= m <= 12
    ensures 28 <= n <= 31
  {
    if m == 2 then (if IsLeapYear(y) then 29 else 28)
    else if m == 4 || m == 6 || m == 9 || m == 11 then 30
    else 31
  }

  /** Dates the crate represents (years -9999 to 9999, without its `large-dates` feature). */
  predicate ValidDate(d: Date)
  {
    -9999 <= d.year <= 9999 && 1 <= d.month <= 12 && 1 <= d.day <= DaysInMonth(d.year, d.month)
  }

  datatype PrimitiveDateTime = PrimitiveDateTime(date: Date, hour: int, minute: int, second: int, nanosecond: int)

  predicate ValidDateTime(t: PrimitiveDateTime)
  {
    ValidDate(t.date) && 0 <= t.hour < 24 && 0 <= t.minute < 60 && 0 <= t.second < 60
    && 0 <= t.nanosecond < 1_000_000_000
  }

  /** A `UtcOffset` as whole seconds east of UTC; the crate keeps each of its
      hour, minute and second parts below 26, 60 and 60 in magnitude. */
  type UtcOffset = s: int | -93599 <= s <= 93599

  datatype OffsetDateTime = OffsetDateTime(local: PrimitiveDateTime, offset: UtcOffset)

  /** The `OffsetDateTime` values the crate can hold: a valid local date and time. */
  type DateTime = t: OffsetDateTime | ValidDateTime(t.local)
    witness OffsetDateTime(PrimitiveDateTime(Date(1970, 1, 1), 0, 0, 0, 0), 0)

  // ---------------------------------------------------------------------
  // Parsing `[year]-[month]-[day] [hour]:[minute]`

  /** The five unsigned numbers of a text laid out exactly as
      `YYYY-MM-DD HH:MM`: digits where the description has them and the
      literal separators between them. */
  datatype Fields = Fields(year: nat, month: nat, day: nat, hour: nat, minute: nat)

  function ReadFields(t: string): (r: Option<Fields>)
    ensures r.Some? ==> |t| == 16 && r.value.year < 10000
  {
    if |t| != 16 then None
    else if !(IsDigits(t[0..4]) && t[4] == '-' && IsDigits(t[5..7]) && t[7] == '-' && IsDigits(t[8..10])
              && t[10] == ' ' && IsDigits(t[11..13]) && t[13] == ':' && IsDigits(t[14..16]))
    then None
    else
      PadOfValue(t[0..4]);
      Some(Fields(DigitsValue(t[0..4]), DigitsValue(t[5..7]), DigitsValue(t[8..10]),
                  DigitsValue(t[11..13]), DigitsValue(t[14..16])))
  }

  /** `PrimitiveDateTime::parse(s, [year]-[month]-[day] [hour]:[minute])`:
      an optional sign and exactly four year digits, then two digits each for
      month, day, hour and minute with the literal separators, the whole
      text consumed, and the values a real calendar date and time of day.
      Seconds and nanoseconds are zero. */
  function ParseMinutes(s: string): (r: Option<PrimitiveDateTime>)
    ensures r.Some? ==> ValidDateTime(r.value) && r.value.second == 0 && r.value.nanosecond == 0
    ensures r.Some? ==> |s| == 16 || |s| == 17
  {
    var k := if |s| > 0 && (s[0] == '+' || s[0] == '-') then 1 else 0;
    match ReadFields(s[k..])
    case None => None
    case Some(f) =>
      var year: int := if k == 1 && s[0] == '-' then -(f.year as int) else f.year;
      var p := PrimitiveDateTime(Date(year, f.month, f.day), f.hour, f.minute, 0, 0);
      if ValidDateTime(p) then Some(p) else None
  }

  /** A `+` before the year changes nothing: `+YYYY-MM-DD HH:MM` parses
      exactly as `YYYY-MM-DD HH:MM` does. */
  lemma ParseMinutesPlus(s: string)
    requires |s| > 0 && IsDigit(s[0])
    ensures ParseMinutes("+" + s) == ParseMinutes(s)
  {
    assert ("+" + s)[1..] == s;
  }

  /** A `-` before the year negates the year and keeps every other field:
      the same month, day, hour and minute. `-0000` is year 0. */
  lemma ParseMinutesMinus(s: string)
    requires |s| > 0 && IsDigit(s[0]) && ParseMinutes(s).Some?
    ensures var p := ParseMinutes(s).value;
            ParseMinutes("-" + s) == Some(p.(date := p.date.(year := -p.date.year)))
  {
    var p := ParseMinutes(s).value;
    assert s[0..] == s;
    var f := ReadFields(s).value;
    assert p == PrimitiveDateTime(Date(f.year, f.month, f.day), f.hour, f.minute, 0, 0);
    assert ("-" + s)[1..] == s;
    NegatedYearValid(p.date);
  }

  /** An unsigned text that does not parse does not parse after a `-` either. */
  lemma ParseMinutesMinusNone(s: string)
    requires |s| > 0 && IsDigit(s[0]) && ParseMinutes(s).None?
    ensures ParseMinutes("-" + s).None?
  {
    assert s[0..] == s && ("-" + s)[1..] == s;
    match ReadFields(s)
    case None =>
    case Some(f) =>
      NegatedYearValid(Date(f.year, f.month, f.day));
  }

  /** Negating the year keeps a date valid or invalid: the year range is
      symmetric and so is the leap-year rule. */
  lemma NegatedYearValid(d: Date)
    ensures ValidDate(d.(year := -d.year)) == ValidDate(d)
  {
    assert IsLeapYear(-d.year) == IsLeapYear(d.year);
  }

  /** `[year]`: a minus sign for years before 1, then at least four digits. */
  function YearText(y: int): (r: string)
    requires -9999 <= y <= 9999
    ensures |r| == (if y < 0 then 5 else 4)
  {
    if y < 0 then "-" + Pad(-y, 4) else Pad(y, 4)
  }

  /** `[year]-[month]-[day]`. */
  function DateText(d: Date): (r: string)
    requires ValidDate(d)
    ensures |r| == (if d.year < 0 then 11 else 10)
  {
    YearText(d.year) + "-" + Pad(d.month, 2) + "-" + Pad(d.day, 2)
  }

  /** The text `[year]-[month]-[day] [hour]:[minute]` of a date and time. */
  function MinutesText(p: PrimitiveDateTime): (r: string)
    requires ValidDateTime(p)
  {
    DateText(p.date) + " " + Pad(p.hour, 2) + ":" + Pad(p.minute, 2)
  }

  /** Parsing the text of a date and time (whole minutes) gives it back. */
  lemma ParseMinutesText(p: PrimitiveDateTime)
    requires ValidDateTime(p) && p.date.year >= 0 && p.second == 0 && p.nanosecond == 0
    ensures ParseMinutes(MinutesText(p)) == Some(p)
  {
    var s := MinutesText(p);
    var d := p.date;
    assert s == Pad(d.year, 4) + "-" + Pad(d.month, 2) + "-" + Pad(d.day, 2) + " "
                + Pad(p.hour, 2) + ":" + Pad(p.minute, 2);
    assert s[0..] == s;
    assert s[0..4] == Pad(d.year, 4) && DigitsValue(s[0..4]) == d.year by {
      PadValue(d.year, 4);
    }
    assert s[5..7] == Pad(d.month, 2) && DigitsValue(s[5..7]) == d.month by {
      PadValue(d.month, 2);
    }
    assert s[8..10] == Pad(d.day, 2) && DigitsValue(s[8..10]) == d.day by {
      PadValue(d.day, 2);
    }
    assert s[11..13] == Pad(p.hour, 2) && DigitsValue(s[11..13]) == p.hour by {
      PadValue(p.hour, 2);
    }
    assert s[14..16] == Pad(p.minute, 2) && DigitsValue(s[14..16]) == p.minute by {
      PadValue(p.minute, 2);
    }
  }

  /** A text without a sign that parses is the text of what it parses to. */
  lemma MinutesTextOfParse(s: string)
    requires ParseMinutes(s).Some? && IsDigit(s[0])
    ensures MinutesText(ParseMinutes(s).value) == s
  {
    var p := ParseMinutes(s).value;
    assert s[0..] == s;
    PadOfValue(s[0..4]);
    PadOfValue(s[5..7]);
    PadOfValue(s[8..10]);
    PadOfValue(s[11..13]);
    PadOfValue(s[14..16]);
    assert s == s[0..4] + "-" + s[5..7] + "-" + s[8..10] + " " + s[11..13] + ":" + s[14..16];
  }

  // ---------------------------------------------------------------------
  // RFC 3339 output

  /** The `time-offset` of section 5.6 of RFC 3339: `Z` for UTC, otherwise a
      sign, two hour digits, `:` and two minute digits. */
  function OffsetText(o: UtcOffset): (r: string)
    ensures |r| == (if o == 0 then 1 else 6)
  {
    if o == 0 then "Z"
    else (if o < 0 then "-" else "+") + Pad(Abs(o) / 3600, 2) + ":" + Pad(Abs(o) / 60 % 60, 2)
  }

  /** `YYYY-MM-DDTHH:MM:SS`, the `partial-time` of RFC 3339 without a fraction. */
  function SecondsText(p: PrimitiveDateTime): (r: string)
    requires ValidDateTime(p) && p.date.year >= 0
    ensures |r| == 19
  {
    DateText(p.date) + "T" + Pad(p.hour, 2) + ":" + Pad(p.minute, 2) + ":" + Pad(p.second, 2)
  }

  /** The seconds-resolution text of a parsed unsigned date and time is its
      input with `T` for the space and `:00` appended. */
  lemma SecondsTextOfParse(s: string)
    requires ParseMinutes(s).Some? && IsDigit(s[0])
    ensures ParseMinutes(s).value.date.year >= 0
    ensures SecondsText(ParseMinutes(s).value) == s[..10] + "T" + s[11..] + ":00"
  {
    var p := ParseMinutes(s).value;
    var date, hm := DateText(p.date), Pad(p.hour, 2) + ":" + Pad(p.minute, 2);
    assert p.date.year >= 0 && s == date + " " + hm by {
      MinutesTextOfParse(s);
    }
    SplitAtSpace(date, hm);
    assert SecondsText(p) == date + "T" + hm + ":" + Pad(0, 2);
    assert Pad(0, 2) == "00";
  }

  lemma SplitAtSpace(date: string, hm: string)
    requires |date| == 10
    ensures (date + " " + hm)[..10] == date && (date + " " + hm)[11..] == hm
  {
  }

  /** `format(&Rfc3339)` of a value with no fractional second: an error when
      the year is outside 0..9999, when the offset has 24 or more whole hours,
      or when it has a seconds part; otherwise the date, `T`, the time and the offset. */
  function FormatRfc3339(t: OffsetDateTime): (r: Option<string>)
    requires ValidDateTime(t.local) && t.local.nanosecond == 0
    ensures r.Some? <==> 0 <= t.local.date.year && Abs(t.offset) / 3600 < 24 && Abs(t.offset) % 60 == 0
    ensures r.Some? ==> |r.value| == 19 + |OffsetText(t.offset)|
  {
    if t.local.date.year < 0 || Abs(t.offset) / 3600 >= 24 || Abs(t.offset) % 60 != 0 then None
    else Some(SecondsText(t.local) + OffsetText(t.offset))
  }

  /** The inverse of `FormatRfc3339`: reads `YYYY-MM-DDTHH:MM:SS` followed by
      `Z` or `+HH:MM`/`-HH:MM`, rejecting anything that is not a calendar
      date, a time of day and an offset below 24 hours. */
  function ReadRfc3339(r: string): (t: Option<OffsetDateTime>)
    ensures t.Some? ==> ValidDateTime(t.value.local) && t.value.local.nanosecond == 0
  {
    if |r| < 19 then None
    else match (ReadSeconds(r[..19]), ReadOffset(r[19..]))
      case (Some(p), Some(o)) => Some(OffsetDateTime(p, o))
      case _ => None
  }

  function ReadSeconds(a: string): (t: Option<PrimitiveDateTime>)
    requires |a| == 19
    ensures t.Some? ==> ValidDateTime(t.value) && t.value.nanosecond == 0
  {
    if !(IsDigits(a[0..4]) && a[4] == '-' && IsDigits(a[5..7]) && a[7] == '-' && IsDigits(a[8..10])
         && a[10] == 'T' && IsDigits(a[11..13]) && a[13] == ':' && IsDigits(a[14..16])
         && a[16] == ':' && IsDigits(a[17..19]))
    then None
    else
      var p := PrimitiveDateTime(Date(DigitsValue(a[0..4]), DigitsValue(a[5..7]), DigitsValue(a[8..10])),
                                 DigitsValue(a[11..13]), DigitsValue(a[14..16]), DigitsValue(a[17..19]), 0);
      PadOfValue(a[0..4]);
      if ValidDateTime(p) then Some(p) else None
  }

  function ReadOffset(z: string): Option<UtcOffset>
  {
    if z == "Z" then Some(0)
    else if |z| == 6 && (z[0] == '+' || z[0] == '-') && IsDigits(z[1..3]) && z[3] == ':' && IsDigits(z[4..6])
    then
      var h := DigitsValue(z[1..3]);
      var m := DigitsValue(z[4..6]);
      if h < 24 && m < 60 then
        var a := h * 3600 + m * 60;
        if z[0] == '-' then Some(-a) else Some(a)
      else None
    else None
  }

  lemma ReadSecondsText(p: PrimitiveDateTime)
    requires ValidDateTime(p) && p.date.year >= 0 && p.nanosecond == 0
    ensures ReadSeconds(SecondsText(p)) == Some(p)
  {
    var a := SecondsText(p);
    var d := p.date;
    assert a == Pad(d.year, 4) + "-" + Pad(d.month, 2) + "-" + Pad(d.day, 2) + "T"
                + Pad(p.hour, 2) + ":" + Pad(p.minute, 2) + ":" + Pad(p.second, 2);
    assert a[0..4] == Pad(d.year, 4) && DigitsValue(a[0..4]) == d.year by {
      PadValue(d.year, 4);
    }
    assert a[5..7] == Pad(d.month, 2) && DigitsValue(a[5..7]) == d.month by {
      PadValue(d.month, 2);
    }
    assert a[8..10] == Pad(d.day, 2) && DigitsValue(a[8..10]) == d.day by {
      PadValue(d.day, 2);
    }
    assert a[11..13] == Pad(p.hour, 2) && DigitsValue(a[11..13]) == p.hour by {
      PadValue(p.hour, 2);
    }
    assert a[14..16] == Pad(p.minute, 2) && DigitsValue(a[14..16]) == p.minute by {
      PadValue(p.minute, 2);
    }
    assert a[17..19] == Pad(p.second, 2) && DigitsValue(a[17..19]) == p.second by {
      PadValue(p.second, 2);
    }
  }

  lemma ReadOffsetText(o: UtcOffset)
    requires Abs(o) / 3600 < 24 && Abs(o) % 60 == 0
    ensures ReadOffset(OffsetText(o)) == Some(o)
  {
    if o != 0 {
      var z := OffsetText(o);
      var n := Abs(o);
      var h, m := n / 3600, n / 60 % 60;
      assert h * 3600 + m * 60 == n && m < 60 by {
        OffsetFields(n);
      }
      assert z[1..3] == Pad(h, 2) && DigitsValue(z[1..3]) == h by {
        PadValue(h, 2);
      }
      assert z[4..6] == Pad(m, 2) && DigitsValue(z[4..6]) == m by {
        PadValue(m, 2);
      }
    }
  }

  /** A whole number of minutes splits into hours and minutes past the hour. */
  lemma OffsetFields(n: nat)
    requires n % 60 == 0
    ensures n / 3600 * 3600 + n / 60 % 60 * 60 == n && n / 60 % 60 < 60
  {
    var q := n / 60;
    assert n == q * 60;
    assert q == q / 60 * 60 + q % 60;
    assert n / 3600 == q / 60;
  }

  /** Reading back the RFC 3339 text of a value gives the value. */
  lemma ReadFormatRfc3339(t: OffsetDateTime)
    requires ValidDateTime(t.local) && t.local.nanosecond == 0
    requires FormatRfc3339(t).Some?
    ensures ReadRfc3339(FormatRfc3339(t).value) == Some(t)
  {
    var r := FormatRfc3339(t).value;
    assert r[..19] == SecondsText(t.local) && r[19..] == OffsetText(t.offset);
    ReadSecondsText(t.local);
    ReadOffsetText(t.offset);
  }

  // ---------------------------------------------------------------------
  // Order: `OffsetDateTime::cmp` compares the instants denoted

  /** Days from 0001-01-01 to January 1st of year `y` (proleptic Gregorian). */
  function DaysBeforeYear(y: int): int
  {
    var p := y - 1;
    365 * p + p / 4 - p / 100 + p / 400
  }

  function DaysBeforeMonth(y: int, m: int): (n: int)
    requires 1 <= m <= 12
    ensures 0 <= n
    decreases m
  {
    if m == 1 then 0 else DaysBeforeMonth(y, m - 1) + DaysInMonth(y, m - 1)
  }

  /** The instant denoted, in nanoseconds since 0001-01-01T00:00:00Z. */
  function Instant(t: OffsetDateTime): int
    requires ValidDateTime(t.local)
  {
    var p := t.local;
    var days := DaysBeforeYear(p.date.year) + DaysBeforeMonth(p.date.year, p.date.month) + p.date.day - 1;
    ((days * 86400 + p.hour * 3600 + p.minute * 60 + p.second) - t.offset) * 1_000_000_000 + p.nanosecond
  }
}
