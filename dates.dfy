/** `_normalize_date` of scripts/chain_certificates.py: strip the value, parse it with
    `datetime.strptime(s, "%Y-%m-%d")` and render it again with `strftime("%Y-%m-%d")`. */
module Dates {
  import opened Wrappers
  import opened Text

  datatype Date = Date(year: int, month: int, day: int)

  predicate IsLeap(y: int) {
    y % 4 == 0 && (y % 100 != 0 || y % 400 == 0)
  }

  function DaysInMonth(y: int, m: int): int
    requires 1 <= m <= 12
  {
    if m == 2 then (if IsLeap(y) then 29 else 28)
    else if m == 4 || m == 6 || m == 9 || m == 11 then 30
    else 31
  }

  /** A date `datetime.date` accepts: years 1 to 9999 of the proleptic Gregorian calendar. */
  predicate ValidDate(d: Date) {
    1 <= d.year <= 9999 && 1 <= d.month <= 12 && 1 <= d.day <= DaysInMonth(d.year, d.month)
  }

  /** A `(value, length)` pair: what one `strptime` directive consumed. */
  datatype Token = Token(value: int, length: nat)

  /** The `%m` directive at position `i` of `s`, the regular expression
      `1[0-2]|0[1-9]|[1-9]`; its first matching alternative is taken. */
  function MonthAt(s: string, i: nat): (r: Option<Token>)
    requires i <= |s|
    ensures r.Some? ==> 1 <= r.value.value <= 12 && 1 <= r.value.length <= |s| - i
    ensures r.Some? && r.value.length == 1 ==> IsDigit(s[i]) && r.value.value == DigitValue(s[i])
    ensures r.Some? && r.value.length == 2 ==> IsDigit(s[i]) && IsDigit(s[i + 1]) && r.value.value == Value2At(s, i)
  {
    if |s| - i >= 2 && s[i] == '1' && '0' <= s[i + 1] <= '2' then Some(Token(10 + DigitValue(s[i + 1]), 2))
    else if |s| - i >= 2 && s[i] == '0' && '1' <= s[i + 1] <= '9' then Some(Token(DigitValue(s[i + 1]), 2))
    else if |s| - i >= 1 && '1' <= s[i] <= '9' then Some(Token(DigitValue(s[i]), 1))
    else None
  }

  /** The `%d` directive at position `i` of `s`, the regular expression
      `3[01]|[12]\d|0[1-9]|[1-9]| [1-9]` (the last alternative is a space followed by a
      digit); its first matching alternative is taken. */
  function DayAt(s: string, i: nat): (r: Option<Token>)
    requires i <= |s|
    ensures r.Some? ==> 1 <= r.value.value <= 31 && 1 <= r.value.length <= |s| - i
    ensures r.Some? && r.value.length == 1 ==> IsDigit(s[i]) && r.value.value == DigitValue(s[i])
    ensures r.Some? && r.value.length == 2 && s[i] == ' ' ==> IsDigit(s[i + 1]) && r.value.value == DigitValue(s[i + 1])
    ensures r.Some? && r.value.length == 2 && s[i] != ' ' ==>
      IsDigit(s[i]) && IsDigit(s[i + 1]) && r.value.value == Value2At(s, i)
  {
    if |s| - i >= 2 && s[i] == '3' && '0' <= s[i + 1] <= '1' then Some(Token(30 + DigitValue(s[i + 1]), 2))
    else if |s| - i >= 2 && '1' <= s[i] <= '2' && IsDigit(s[i + 1]) then
      Some(Token(DigitValue(s[i]) * 10 + DigitValue(s[i + 1]), 2))
    else if |s| - i >= 2 && s[i] == '0' && '1' <= s[i + 1] <= '9' then Some(Token(DigitValue(s[i + 1]), 2))
    else if |s| - i >= 1 && '1' <= s[i] <= '9' then Some(Token(DigitValue(s[i]), 1))
    else if |s| - i >= 2 && s[i] == ' ' && '1' <= s[i + 1] <= '9' then Some(Token(DigitValue(s[i + 1]), 2))
    else None
  }

  /** The value of the two decimal digits at position `i`. */
  function Value2At(s: string, i: nat): (v: int)
    requires i + 2 <= |s| && IsDigit(s[i]) && IsDigit(s[i + 1])
    ensures 0 <= v <= 99
  {
    DigitValue(s[i]) * 10 + DigitValue(s[i + 1])
  }

  /** Four decimal digits at the start of `s` (`%Y`). */
  predicate YearDigits(s: string) {
    |s| >= 4 && IsDigit(s[0]) && IsDigit(s[1]) && IsDigit(s[2]) && IsDigit(s[3])
  }

  /** The value of the four decimal digits at the start of `s`. */
  function YearValue(s: string): (v: int)
    requires YearDigits(s)
    ensures 0 <= v <= 9999
  {
    Value2At(s, 0) * 100 + Value2At(s, 2)
  }

  /** The pattern `%Y-%m-%d` matched against the whole of `s` (`%Y` is exactly four digits);
      the calendar is not consulted yet. */
  function ParseIso(s: string): (r: Option<Date>)
    ensures r.Some? ==> 0 <= r.value.year <= 9999 && 1 <= r.value.month <= 12 && 1 <= r.value.day <= 31
    ensures r.Some? ==> |s| >= 5 && YearDigits(s) && s[4] == '-' && r.value.year == YearValue(s)
  {
    if |s| < 5 || !YearDigits(s) || s[4] != '-' then None
    else
      match MonthAt(s, 5)
      case None => None
      case Some(m) =>
        var p := 5 + m.length;
        if p == |s| || s[p] != '-' then None
        else
          match DayAt(s, p + 1)
          case None => None
          case Some(d) =>
            if p + 1 + d.length != |s| then None
            else Some(Date(YearValue(s), m.value, d.value))
  }

  /** `n` as two digits, zero-padded (`%m`, `%d` of `strftime`). */
  function Pad2(n: int): (t: string)
    requires 0 <= n <= 99
    ensures |t| == 2 && t[0] == DigitChar(n / 10) && t[1] == DigitChar(n % 10)
    ensures DigitValue(t[0]) * 10 + DigitValue(t[1]) == n
  {
    [DigitChar(n / 10), DigitChar(n % 10)]
  }

  /** `strftime("%Y-%m-%d")`: four-digit year, two-digit month and day, zero-padded. The
      result is canonical and its digits read back as the date. */
  function FormatIso(d: Date): (r: string)
    requires ValidDate(d)
    ensures IsCanonical(r)
    ensures YearValue(r) == d.year && Value2At(r, 5) == d.month && Value2At(r, 8) == d.day
  {
    YearText(d.year) + "-" + Pad2(d.month) + "-" + Pad2(d.day)
  }

  /** `%Y` of `strftime`: the year as four digits, zero-padded. */
  function YearText(y: int): (t: string)
    requires 0 <= y <= 9999
    ensures |t| == 4 && YearDigits(t) && YearValue(t) == y
  {
    Pad2(y / 100) + Pad2(y % 100)
  }

  /** A canonical date: `YYYY-MM-DD` with decimal digits that name a valid calendar date. */
  predicate IsCanonical(r: string) {
    && |r| == 10 && YearDigits(r) && r[4] == '-' && r[7] == '-'
    && IsDigit(r[5]) && IsDigit(r[6]) && IsDigit(r[8]) && IsDigit(r[9])
    && ValidDate(Date(YearValue(r), Value2At(r, 5), Value2At(r, 8)))
  }

  /** The canonical form of an already stripped date string, or the string itself as
      the error when it is not an ISO date of the calendar. */
  function NormalizeStripped(s: string): (r: Result<string, string>)
    ensures r.Err? ==> r.error == s
  {
    match ParseIso(s)
    case Some(d) => if ValidDate(d) then Ok(FormatIso(d)) else Err(s)
    case None => Err(s)
  }

  /** `_normalize_date`: the canonical form of the stripped value, or an error that names
      the stripped value when it is not an ISO date of the calendar. */
  function NormalizeDate(value: string): (r: Result<string, string>)
    ensures r.Err? ==> r.error == Trim(value)
  {
    NormalizeStripped(Trim(value))
  }

  /** A normalised date is canonical. */
  lemma {:induction false} NormalizeDateCanonical(value: string)
    requires NormalizeDate(value).Ok?
    ensures IsCanonical(NormalizeDate(value).value)
  {
  }

  /** Parsing a rendered valid date gives the date back. */
  lemma {:induction false} FormatParse(d: Date)
    requires ValidDate(d)
    ensures ParseIso(FormatIso(d)) == Some(d)
  {
    ParseSpelled(d.year, d.month, d.day, Pad2(d.month), Pad2(d.day));
  }

  /** A canonical date has no whitespace, so stripping leaves it alone. */
  lemma {:induction false} CanonicalTrim(r: string)
    requires IsCanonical(r)
    ensures Trim(r) == r
  {
    TrimUnpadded(r);
  }

  /** Every valid date of years 1 to 9999, written canonically, is accepted unchanged. */
  lemma {:induction false} NormalizeCanonical(d: Date)
    requires ValidDate(d)
    ensures NormalizeDate(FormatIso(d)) == Ok(FormatIso(d))
  {
    CanonicalTrim(FormatIso(d));
    FormatParse(d);
  }

  /** Normalising a normalised date returns it unchanged. */
  lemma {:induction false} NormalizeIdempotent(value: string)
    requires NormalizeDate(value).Ok?
    ensures NormalizeDate(NormalizeDate(value).value) == NormalizeDate(value)
  {
    var d := ParseIso(Trim(value)).value;
    NormalizeCanonical(d);
  }

  lemma {:induction false} ParseShortFields()
    ensures ParseIso("2024-1-5") == Some(Date(2024, 1, 5))
  {
    var s := "2024-1-5";
    assert YearValue(s) == 2024;
    assert MonthAt(s, 5) == Some(Token(1, 1));
    assert DayAt(s, 7) == Some(Token(5, 1));
  }

  /** The spellings of month `m` that `%m` of `strptime` accepts: `str(m)` or two digits,
      zero-padded. */
  predicate MonthText(t: string, m: int) {
    1 <= m <= 12 && (t == Decimal(m) || t == Pad2(m))
  }

  /** The spellings of day `d` that `%d` of `strptime` accepts: `str(d)`, two digits,
      zero-padded, or for a day below 10 a space followed by the digit. */
  predicate DayText(t: string, d: int) {
    1 <= d <= 31 && (t == Decimal(d) || t == Pad2(d) || (d < 10 && t == " " + Decimal(d)))
  }

  /** `str(n)` of a number below 100: one digit below 10, otherwise the two digits. */
  lemma {:induction false} DecimalBelow100(n: nat)
    requires n < 100
    ensures n < 10 ==> Decimal(n) == [DigitChar(n)]
    ensures n >= 10 ==> Decimal(n) == Pad2(n)
  {
    if n >= 10 {
      assert Decimal(n / 10) == [DigitChar(n / 10)];
    }
  }

  /** What `%m` reads at position 5 is one of the month's spellings, followed by `-`. */
  lemma {:induction false} MonthAtSpelled(s: string)
    requires |s| >= 5 && MonthAt(s, 5).Some?
    ensures MonthText(s[5..5 + MonthAt(s, 5).value.length], MonthAt(s, 5).value.value)
  {
    var m := MonthAt(s, 5).value;
    DecimalBelow100(m.value);
    if m.length == 2 {
      assert s[5..7] == [s[5], s[6]];
      if s[5] == '0' {
        assert s[5..7] == Pad2(m.value);
      } else {
        assert s[5..7] == Decimal(m.value);
      }
    } else {
      assert s[5..6] == [s[5]] == Decimal(m.value);
    }
  }

  /** What `%d` reads at position `i` is one of the day's spellings. */
  lemma {:induction false} DayAtSpelled(s: string, i: nat)
    requires i <= |s| && DayAt(s, i).Some?
    ensures DayText(s[i..i + DayAt(s, i).value.length], DayAt(s, i).value.value)
  {
    var d := DayAt(s, i).value;
    DecimalBelow100(d.value);
    if d.length == 2 {
      assert s[i..i + 2] == [s[i], s[i + 1]];
      if s[i] == ' ' {
        assert s[i..i + 2] == " " + Decimal(d.value);
      } else if s[i] == '0' {
        assert s[i..i + 2] == Pad2(d.value);
      } else {
        assert s[i..i + 2] == Decimal(d.value);
      }
    } else {
      assert s[i..i + 1] == [s[i]] == Decimal(d.value);
    }
  }

  /** Every text `%Y-%m-%d` accepts is four year digits, `-`, a spelling of the month, `-`
      and a spelling of the day. */
  lemma {:induction false} ParseIsoSpelled(s: string)
    requires ParseIso(s).Some?
    ensures s[..4] == YearText(ParseIso(s).value.year) && s[4] == '-'
    ensures exists k :: (5 < k < |s| && s[k] == '-' &&
      MonthText(s[5..k], ParseIso(s).value.month) && DayText(s[k + 1..], ParseIso(s).value.day))
  {
    var d := ParseIso(s).value;
    var t := YearText(d.year);
    assert s[..4] == [s[0], s[1], s[2], s[3]];
    assert t == [t[0], t[1], t[2], t[3]];
    assert t[0] == s[0] && t[1] == s[1] && t[2] == s[2] && t[3] == s[3] by {
      YearDigitsValue(s, t);
    }
    var k := 5 + MonthAt(s, 5).value.length;
    MonthAtSpelled(s);
    DayAtSpelled(s, k + 1);
    assert s[k + 1..] == s[k + 1..k + 1 + DayAt(s, k + 1).value.length];
  }

  /** Four digits are determined by their value. */
  lemma {:induction false} YearDigitsValue(s: string, t: string)
    requires YearDigits(s) && YearDigits(t) && YearValue(s) == YearValue(t)
    ensures s[0] == t[0] && s[1] == t[1] && s[2] == t[2] && s[3] == t[3]
  {
    assert DigitChar(DigitValue(s[0])) == s[0] && DigitChar(DigitValue(t[0])) == t[0];
    assert DigitChar(DigitValue(s[1])) == s[1] && DigitChar(DigitValue(t[1])) == t[1];
    assert DigitChar(DigitValue(s[2])) == s[2] && DigitChar(DigitValue(t[2])) == t[2];
    assert DigitChar(DigitValue(s[3])) == s[3] && DigitChar(DigitValue(t[3])) == t[3];
  }

  /** `%m` at position `i` reads a month spelling that is followed by `-`. */
  lemma {:induction false} MonthReads(s: string, i: nat, mt: string, m: int)
    requires i + |mt| < |s| && s[i..i + |mt|] == mt && s[i + |mt|] == '-' && MonthText(mt, m)
    ensures MonthAt(s, i) == Some(Token(m, |mt|))
  {
    DecimalBelow100(m);
    assert s[i] == mt[0];
    if |mt| == 2 {
      assert s[i + 1] == mt[1];
    }
  }

  /** `%d` at position `i` reads a day spelling that runs to the end of the text. */
  lemma {:induction false} DayReads(s: string, i: nat, dt: string, day: int)
    requires i <= |s| && s[i..] == dt && DayText(dt, day)
    ensures DayAt(s, i) == Some(Token(day, |dt|))
  {
    DecimalBelow100(day);
    assert s[i] == dt[0];
    if |dt| == 2 {
      assert s[i + 1] == dt[1];
    }
  }

  /** Conversely, every such spelling is accepted and gives the date it spells. */
  lemma {:induction false} ParseSpelled(year: int, m: int, day: int, mt: string, dt: string)
    requires 0 <= year <= 9999 && MonthText(mt, m) && DayText(dt, day)
    ensures ParseIso(YearText(year) + "-" + mt + "-" + dt) == Some(Date(year, m, day))
  {
    var s := YearText(year) + "-" + mt + "-" + dt;
    DecimalBelow100(m);
    assert s[..4] == YearText(year);
    assert YearValue(s) == year;
    var p := 5 + |mt|;
    assert s[5..p] == mt && s[p] == '-' && s[p + 1..] == dt;
    MonthReads(s, 5, mt, m);
    DayReads(s, p + 1, dt, day);
  }

  /** Every spelling of a valid date is normalised to its canonical form. */
  lemma {:induction false} NormalizeSpelled(d: Date, mt: string, dt: string)
    requires ValidDate(d) && MonthText(mt, d.month) && DayText(dt, d.day)
    ensures NormalizeDate(YearText(d.year) + "-" + mt + "-" + dt) == Ok(FormatIso(d))
  {
    var s := YearText(d.year) + "-" + mt + "-" + dt;
    DecimalBelow100(d.day);
    assert s[|s| - 1] == dt[|dt| - 1];
    TrimUnpadded(s);
    ParseSpelled(d.year, d.month, d.day, mt, dt);
  }

  /** Whitespace around the value does not matter. */
  lemma {:induction false} NormalizeIgnoresPadding(value: string)
    ensures NormalizeDate(value) == NormalizeDate(Trim(value))
  {
    TrimIdempotent(value);
  }

  /** One-digit month and day are accepted and re-padded. */
  lemma {:induction false} ShortFieldsRepadded()
    ensures NormalizeDate("2024-1-5") == Ok("2024-01-05")
  {
    TrimUnpadded("2024-1-5");
    ParseShortFields();
    assert ValidDate(Date(2024, 1, 5));
    FormatShortFields();
  }

  lemma {:induction false} FormatShortFields()
    ensures FormatIso(Date(2024, 1, 5)) == "2024-01-05"
  {
    assert Pad2(20) == "20" && Pad2(24) == "24" && YearText(2024) == "2024";
    assert Pad2(1) == "01" && Pad2(5) == "05";
  }

  lemma {:induction false} ParseImpossible()
    ensures ParseIso("2023-02-29") == Some(Date(2023, 2, 29))
  {
    var s := "2023-02-29";
    assert YearValue(s) == 2023;
    assert MonthAt(s, 5) == Some(Token(2, 2));
    assert DayAt(s, 8) == Some(Token(29, 2));
  }

  /** 2023 is not a leap year, so 29 February 2023 is refused. */
  lemma {:induction false} ImpossibleDateRefused()
    ensures NormalizeDate("2023-02-29") == Err("2023-02-29")
  {
    ParseImpossible();
    TrimUnpadded("2023-02-29");
    assert !ValidDate(Date(2023, 2, 29));
  }
}
