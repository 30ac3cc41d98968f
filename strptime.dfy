/**
 * `datetime.datetime.strptime(text, '%d.%m.%Y')` as Python 2.7's `_strptime` does it: the format
 * becomes the pattern `(?P<d>3[01]|[12]\d|0[1-9]|[1-9]| [1-9])\.(?P<m>1[0-2]|0[1-9]|[1-9])\.(?P<Y>\d\d\d\d)`,
 * matched from the start with nothing left over, and the fields must then form a real date.
 */
module Strptime {
  import opened Outcomes
  import opened Text
  import opened Calendar

  /** The `%d` alternatives: `01`..`31`, `1`..`9`, or a space and `1`..`9`. */
  function DayToken(t: string): (r: Option<int>)
    ensures r.Some? ==> 1 <= r.value <= 31
  {
    if |t| == 1 && '1' <= t[0] <= '9' then Some(DigitValue(t[0]))
    else if |t| == 2 && t[0] == ' ' && '1' <= t[1] <= '9' then Some(DigitValue(t[1]))
    else if |t| == 2 && IsDigit(t[0]) && IsDigit(t[1]) && 1 <= DigitValue(t[0]) * 10 + DigitValue(t[1]) <= 31
    then Some(DigitValue(t[0]) * 10 + DigitValue(t[1]))
    else None
  }

  /** The `%m` alternatives: `01`..`12` or `1`..`9`. */
  function MonthToken(t: string): (r: Option<int>)
    ensures r.Some? ==> 1 <= r.value <= 12
  {
    if |t| == 1 && '1' <= t[0] <= '9' then Some(DigitValue(t[0]))
    else if |t| == 2 && IsDigit(t[0]) && IsDigit(t[1]) && 1 <= DigitValue(t[0]) * 10 + DigitValue(t[1]) <= 12
    then Some(DigitValue(t[0]) * 10 + DigitValue(t[1]))
    else None
  }

  /**
   * None of the day and month alternatives contains a `.`, so a match splits the text at its two
   * dots, and `\d\d\d\d` followed by the end of the text leaves no room for a third.
   */
  function ParseDate(s: string): (r: Option<Date>)
    ensures r.Some? ==> ValidDate(r.value)
  {
    var parts := Split(s, '.');
    if |parts| != 3 then None
    else
      var day, month := DayToken(parts[0]), MonthToken(parts[1]);
      if day.None? || month.None? || |parts[2]| != 4 || !AllDigits(parts[2]) then None
      else
        var d := Date(DigitsValue(parts[2]), month.value, day.value);
        if ValidDate(d) then Some(d) else None
  }

  /** `d.strftime('%d.%m.%Y')`. */
  function FormatDate(d: Date): string
    requires ValidDate(d)
  {
    Pad2(d.day) + "." + Pad2(d.month) + "." + Pad4(d.year)
  }

  /** Every valid date is read back from its `%d.%m.%Y` text. */
  lemma ParseFormatDate(d: Date)
    requires ValidDate(d)
    ensures ParseDate(FormatDate(d)) == Some(d)
  {
    var dd, mm, yyyy := Pad2(d.day), Pad2(d.month), Pad4(d.year);
    assert '.' !in dd && '.' !in mm && '.' !in yyyy by {
      assert AllDigits(dd) && AllDigits(mm) && AllDigits(yyyy);
    }
    assert FormatDate(d) == dd + ['.'] + (mm + ['.'] + yyyy);
    SplitAfterPrefix(dd, '.', mm + ['.'] + yyyy);
    SplitAfterPrefix(mm, '.', yyyy);
    SplitNoSeparator(yyyy, '.');
    assert Split(FormatDate(d), '.') == [dd, mm, yyyy];
    DayTokenOfPadded(d.day);
    MonthTokenOfPadded(d.month);
  }

  /** A two-digit day is read back by `%d`. */
  lemma DayTokenOfPadded(n: int)
    requires 1 <= n <= 31
    ensures DayToken(Pad2(n)) == Some(n)
  {
    var s := Pad2(n);
    assert s[..1] == [s[0]] && [s[0]][..0] == [];
  }

  /** A two-digit month is read back by `%m`. */
  lemma MonthTokenOfPadded(n: int)
    requires 1 <= n <= 12
    ensures MonthToken(Pad2(n)) == Some(n)
  {
    var s := Pad2(n);
    assert s[..1] == [s[0]] && [s[0]][..0] == [];
  }

  lemma SplitThree(a: string, b: string, c: string)
    requires '.' !in a && '.' !in b && '.' !in c
    ensures Split(a + "." + b + "." + c, '.') == [a, b, c]
  {
    assert a + "." + b + "." + c == a + ['.'] + (b + ['.'] + c);
    SplitAfterPrefix(a, '.', b + ['.'] + c);
    SplitAfterPrefix(b, '.', c);
    SplitNoSeparator(c, '.');
  }
}
