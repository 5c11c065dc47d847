/** The timestamp `datetime.now().strftime("%Y-%m-%d_%H-%M-%S")`: a local date and time with
    one-second resolution, every field zero-padded. The clock read itself is not modelled; a
    `DateTime` is passed in. */
module Timestamp {
  import opened Wrappers

  /** Four-digit years: `%Y` then always has four digits. */
  type Year = y: int | 1000 <= y <= 9999 witness 1000
  type Month = m: int | 1 <= m <= 12 witness 1
  type Day = d: int | 1 <= d <= 31 witness 1
  type Hour = h: int | 0 <= h < 24
  type Minute = m: int | 0 <= m < 60
  type Second = s: int | 0 <= s < 60

  datatype DateTime = DateTime(year: Year, month: Month, day: Day, hour: Hour, minute: Minute, second: Second)

  predicate IsDigit(c: char)
  {
    '0' <= c <= '9'
  }

  predicate AllDigits(s: string)
  {
    forall i :: 0 <= i < |s| ==> IsDigit(s[i])
  }

  function Pow10(w: nat): (p: nat)
    ensures p >= 1
  {
    if w == 0 then 1 else 10 * Pow10(w - 1)
  }

  /** `n` written on exactly `width` decimal digits, padded on the left with `0`. */
  function Digits(n: nat, width: nat): (r: string)
    ensures |r| == width
    ensures AllDigits(r)
  {
    if width == 0 then "" else Digits(n / 10, width - 1) + [('0' as int + n % 10) as char]
  }

  /** The number a string of decimal digits denotes. */
  function DigitsValue(s: string): nat
    requires AllDigits(s)
  {
    if s == [] then 0 else DigitsValue(s[..|s| - 1]) * 10 + (s[|s| - 1] as int - '0' as int)
  }

  lemma {:induction false} ValueOfDigits(n: nat, width: nat)
    requires n < Pow10(width)
    ensures DigitsValue(Digits(n, width)) == n
  {
    if width > 0 {
      var d := Digits(n, width);
      var q, r := n / 10, n % 10;
      assert n == q * 10 + r;
      assert q < Pow10(width - 1);
      assert d == Digits(q, width - 1) + [('0' as int + r) as char];
      assert d[..|d| - 1] == Digits(q, width - 1);
      ValueOfDigits(q, width - 1);
      assert DigitsValue(d) == DigitsValue(Digits(q, width - 1)) * 10 + r;
    }
  }

  lemma {:induction false} DigitsOfValue(s: string)
    requires AllDigits(s)
    ensures DigitsValue(s) < Pow10(|s|)
    ensures Digits(DigitsValue(s), |s|) == s
  {
    if s != [] {
      var init := s[..|s| - 1];
      DigitsOfValue(init);
      var v := DigitsValue(s);
      var d := s[|s| - 1] as int - '0' as int;
      assert v == DigitsValue(init) * 10 + d;
      assert v / 10 == DigitsValue(init) && v % 10 == d;
      assert s == init + [s[|s| - 1]];
    }
  }

  /** `strftime("%Y-%m-%d_%H-%M-%S")`. */
  function Format(t: DateTime): string
  {
    Digits(t.year, 4) + "-" + Digits(t.month, 2) + "-" + Digits(t.day, 2) + "_"
      + Digits(t.hour, 2) + "-" + Digits(t.minute, 2) + "-" + Digits(t.second, 2)
  }

  /** Reads a formatted timestamp back; `None` for any string `Format` cannot produce. */
  function Parse(s: string): Option<DateTime>
  {
    if |s| == 19 && s[4] == '-' && s[7] == '-' && s[10] == '_' && s[13] == '-' && s[16] == '-'
      && AllDigits(s[0..4]) && AllDigits(s[5..7]) && AllDigits(s[8..10])
      && AllDigits(s[11..13]) && AllDigits(s[14..16]) && AllDigits(s[17..19])
    then
      var y, mo, d := DigitsValue(s[0..4]), DigitsValue(s[5..7]), DigitsValue(s[8..10]);
      var h, mi, se := DigitsValue(s[11..13]), DigitsValue(s[14..16]), DigitsValue(s[17..19]);
      if 1000 <= y <= 9999 && 1 <= mo <= 12 && 1 <= d <= 31 && h < 24 && mi < 60 && se < 60 then
        Some(DateTime(y, mo, d, h, mi, se))
      else None
    else None
  }

  /** Six fields of the timestamp's widths, joined by its separators, sit at fixed offsets. */
  lemma JoinLayout(y: string, mo: string, d: string, h: string, mi: string, se: string)
    requires |y| == 4 && |mo| == 2 && |d| == 2 && |h| == 2 && |mi| == 2 && |se| == 2
    ensures var s := y + "-" + mo + "-" + d + "_" + h + "-" + mi + "-" + se;
      && |s| == 19
      && s[0..4] == y && s[4] == '-' && s[5..7] == mo && s[7] == '-' && s[8..10] == d && s[10] == '_'
      && s[11..13] == h && s[13] == '-' && s[14..16] == mi && s[16] == '-' && s[17..19] == se
  {
    var s := y + "-" + mo + "-" + d + "_" + h + "-" + mi + "-" + se;
    var date := y + "-" + mo + "-" + d;
    var time := h + "-" + mi + "-" + se;
    assert s == date + "_" + time;
    assert date[0..4] == y && date[5..7] == mo && date[8..10] == d;
    assert time[0..2] == h && time[3..5] == mi && time[6..8] == se;
    assert s[0..10] == date && s[11..19] == time;
  }

  /** A 19-character string is its six fields and five separators joined. */
  lemma SplitLayout(s: string)
    requires |s| == 19
    ensures s == s[0..4] + [s[4]] + s[5..7] + [s[7]] + s[8..10] + [s[10]] + s[11..13] + [s[13]] + s[14..16] + [s[16]] + s[17..19]
  {
    var date := s[0..4] + [s[4]] + s[5..7] + [s[7]] + s[8..10];
    assert date == s[0..10];
    var time := s[11..13] + [s[13]] + s[14..16] + [s[16]] + s[17..19];
    assert time == s[11..19];
    assert s == s[0..10] + [s[10]] + s[11..19];
  }

  /** The pieces of a formatted timestamp, at their fixed offsets. */
  lemma FormatLayout(t: DateTime)
    ensures var s := Format(t);
      && |s| == 19
      && s[0..4] == Digits(t.year, 4) && s[4] == '-'
      && s[5..7] == Digits(t.month, 2) && s[7] == '-'
      && s[8..10] == Digits(t.day, 2) && s[10] == '_'
      && s[11..13] == Digits(t.hour, 2) && s[13] == '-'
      && s[14..16] == Digits(t.minute, 2) && s[16] == '-'
      && s[17..19] == Digits(t.second, 2)
  {
    JoinLayout(Digits(t.year, 4), Digits(t.month, 2), Digits(t.day, 2),
               Digits(t.hour, 2), Digits(t.minute, 2), Digits(t.second, 2));
  }

  /** Every character of a timestamp is a digit, `-` or `_`: it holds no `/`, `.` or `,`. */
  lemma FormatCharacters(t: DateTime)
    ensures forall i :: 0 <= i < |Format(t)| ==> IsDigit(Format(t)[i]) || Format(t)[i] in "-_"
  {
    FormatLayout(t);
    var s := Format(t);
    forall i | 0 <= i < |s| ensures IsDigit(s[i]) || s[i] in "-_" {
      if i < 4 { assert s[i] == s[0..4][i]; }
      else if 4 < i < 7 { assert s[i] == s[5..7][i - 5]; }
      else if 7 < i < 10 { assert s[i] == s[8..10][i - 8]; }
      else if 10 < i < 13 { assert s[i] == s[11..13][i - 11]; }
      else if 13 < i < 16 { assert s[i] == s[14..16][i - 14]; }
      else if 16 < i { assert s[i] == s[17..19][i - 17]; }
    }
  }

  /** Parsing a formatted timestamp gives the time back. */
  lemma ParseFormat(t: DateTime)
    ensures Parse(Format(t)) == Some(t)
  {
    FormatLayout(t);
    ValueOfDigits(t.year, 4);
    ValueOfDigits(t.month, 2);
    ValueOfDigits(t.day, 2);
    ValueOfDigits(t.hour, 2);
    ValueOfDigits(t.minute, 2);
    ValueOfDigits(t.second, 2);
  }

  /** Only `Format(t)` parses to `t`: formatting and parsing are inverse bijections. */
  lemma FormatParse(s: string, t: DateTime)
    requires Parse(s) == Some(t)
    ensures Format(t) == s
  {
    DigitsOfValue(s[0..4]);
    DigitsOfValue(s[5..7]);
    DigitsOfValue(s[8..10]);
    DigitsOfValue(s[11..13]);
    DigitsOfValue(s[14..16]);
    DigitsOfValue(s[17..19]);
    SplitLayout(s);
    assert [s[4]] == "-" && [s[7]] == "-" && [s[10]] == "_" && [s[13]] == "-" && [s[16]] == "-";
  }

  /** Two times give the same timestamp exactly when they fall in the same second. */
  lemma FormatInjective(t1: DateTime, t2: DateTime)
    ensures Format(t1) == Format(t2) <==> t1 == t2
  {
    ParseFormat(t1);
    ParseFormat(t2);
  }
}
