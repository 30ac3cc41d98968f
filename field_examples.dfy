/** The field rules on concrete values, among them the two requests written out at the end of the API module. */
module FieldExamples {
  import opened Outcomes
  import opened Text
  import opened Calendar
  import opened Strptime
  import opened Values
  import opened Fields

  lemma DateAcceptsPadded()
    ensures CheckDate(Str("01.01.2000")) == Ok(Str("01.01.2000"))
  {
    assert FormatDate(Date(2000, 1, 1)) == "01.01.2000";
    ParseFormatDate(Date(2000, 1, 1));
  }

  /** `ParseDate` on a text that splits into three parts which each convert. */
  lemma ParseThreeParts(s: string, a: string, b: string, c: string)
    requires Split(s, '.') == [a, b, c]
    requires DayToken(a).Some? && MonthToken(b).Some? && |c| == 4 && AllDigits(c)
    ensures var d := Date(DigitsValue(c), MonthToken(b).value, DayToken(a).value);
      ParseDate(s) == if ValidDate(d) then Some(d) else None
  {
  }

  lemma ShortTokens()
    ensures DayToken(" 1") == Some(1) && MonthToken("1") == Some(1)
    ensures |"2000"| == 4 && AllDigits("2000") && DigitsValue("2000") == 2000
  {
    assert Pad4(2000) == "2000";
  }

  lemma ParseShortForms()
    ensures ParseDate(" 1.1.2000") == Some(Date(2000, 1, 1))
  {
    SplitThree(" 1", "1", "2000");
    assert " 1.1.2000" == " 1" + "." + "1" + "." + "2000";
    ShortTokens();
    ParseThreeParts(" 1.1.2000", " 1", "1", "2000");
  }

  /** `%d` also takes a space before a single digit, and `%m` a single digit. */
  lemma DateAcceptsShortForms()
    ensures CheckDate(Str(" 1.1.2000")) == Ok(Str(" 1.1.2000"))
  {
    ParseShortForms();
  }

  lemma DateRejectsIsoForm()
    ensures CheckDate(Str("2000-01-01")) == Err(TypeMismatch("DateField"))
  {
    SplitNoSeparator("2000-01-01", '.');
  }

  lemma DateRejectsDay32()
    ensures CheckDate(Str("32.01.2000")) == Err(TypeMismatch("DateField"))
  {
    SplitThree("32", "01", "2000");
    assert "32.01.2000" == "32" + "." + "01" + "." + "2000";
  }

  lemma February29Tokens()
    ensures DayToken("29") == Some(29) && MonthToken("02") == Some(2)
    ensures |"2019"| == 4 && AllDigits("2019") && DigitsValue("2019") == 2019
  {
    assert Pad4(2019) == "2019";
  }

  lemma ParseNonLeapFebruary29()
    ensures ParseDate("29.02.2019") == None
  {
    SplitThree("29", "02", "2019");
    assert "29.02.2019" == "29" + "." + "02" + "." + "2019";
    February29Tokens();
    ParseThreeParts("29.02.2019", "29", "02", "2019");
  }

  lemma DateRejectsNonLeapFebruary29()
    ensures CheckDate(Str("29.02.2019")) == Err(TypeMismatch("DateField"))
  {
    ParseNonLeapFebruary29();
  }

  /** The birthday of the first sample request has a three-digit year and fails the date check. */
  lemma SampleBirthdayRejected()
    ensures CheckBirthDay(Str("28.03.255")) == Err(TypeMismatch("DateField"))
  {
    SplitThree("28", "03", "255");
    assert "28.03.255" == "28" + "." + "03" + "." + "255";
  }

  lemma EmailAcceptsSimple()
    ensures CheckEmail(Str("a@b.co")) == Ok(Str("a@b.co"))
  {
    assert EmailSplitAt("a@b.co", 6, 1, 3);
  }

  lemma EmailAcceptsSample()
    ensures CheckEmail(Str("j.mormont@bearisland.wst")).Ok?
  {
    assert EmailSplitAt("j.mormont@bearisland.wst", 24, 9, 20);
  }

  /** `$` also matches before a final newline. */
  lemma EmailAcceptsTrailingNewline()
    ensures CheckEmail(Str("a@b.co\n")).Ok?
  {
    assert EmailSplitAt("a@b.co\n", 6, 1, 3);
  }

  lemma EmailRejectsMissingAt()
    ensures CheckEmail(Str("a-b.co")) == Err(TypeMismatch("EmailField"))
  {
    var s := "a-b.co";
    assert forall k | 0 <= k < |s| :: s[k] != '@';
    assert !EmailPattern(s);
  }

  lemma EmailRejectsSpace()
    ensures CheckEmail(Str("a b@c.d")) == Err(TypeMismatch("EmailField"))
  {
    assert !EmailMatches("a b@c.d") by {
      assert "a b@c.d"[..BodyEnd("a b@c.d")] == "a b@c.d";
      assert IndexOf("a b@c.d", '@') == Some(3);
      assert IsSpace("a b@c.d"[..3][1]);
    }
    EmailMatchesIff("a b@c.d");
  }

  lemma EmailRejectsNull()
    ensures CheckEmail(Null) == Err(Other("TypeError"))
  {
  }

  lemma PhoneAcceptsDigits()
    ensures CheckPhone(Str("79991234567")) == Ok(Str("79991234567"))
    ensures CheckPhone(Int(79991234567)).Ok?
  {
    PhoneAcceptsIff(Str("79991234567"));
    PhoneAcceptsIff(Int(79991234567));
  }

  lemma PhoneRejectsSignsAndNone()
    ensures CheckPhone(Str("+79991234567")) == Err(TypeMismatch("PhoneField"))
    ensures CheckPhone(Int(-1)).Err? && CheckPhone(Null).Err? && CheckPhone(Str("")).Err?
  {
    assert !IsDigit("+79991234567"[0]);
    PhoneAcceptsIff(Int(-1));
    PhoneAcceptsIff(Null);
    PhoneAcceptsIff(Str(""));
  }

  /** As written, the id list is not checked element by element; the intended rule refuses the string and the `long`. */
  lemma ClientIdsExamples()
    ensures CheckClientIds(List([Int(1), Str("2"), Int(3)])).Ok?
    ensures CheckClientIds(List([])).Ok?
    ensures CheckClientIds(Tuple([Int(1)])).Err?
    ensures CheckClientIdsIntended(List([Int(1), Int(2), Int(3)])).Ok?
    ensures CheckClientIdsIntended(List([Int(1), Str("2"), Int(3)])).Err?
    ensures CheckClientIds(List([Int(0x8000_0000_0000_0000)])).Ok?
    ensures CheckClientIdsIntended(List([Int(0x8000_0000_0000_0000)])).Err?
  {
    assert !List([Int(1), Str("2"), Int(3)]).items[1].Int?;
    assert !IsPyInt(List([Int(0x8000_0000_0000_0000)]).items[0]);
  }

  lemma GenderExamples()
    ensures CheckGender(Int(0)).Ok? && CheckGender(Int(1)).Ok? && CheckGender(Int(2)).Ok?
    ensures CheckGender(Int(3)).Err? && CheckGender(Int(-1)).Err?
    ensures CheckGender(Bool(true)).Err? && CheckGender(Str("1")).Err?
  {
  }

  lemma ParseNewYear(y: int)
    requires 1 <= y <= 9999
    ensures ParseDate(Pad2(1) + "." + Pad2(1) + "." + Pad4(y)) == Some(Date(y, 1, 1))
  {
    ParseFormatDate(Date(y, 1, 1));
  }

  /** With today 2020-01-01: ages 4 and 5 fail, 20 passes, 100 fails. */
  lemma BirthDayIntendedAge4()
    ensures CheckBirthDayIntended(Str("01.01.2016"), Date(2020, 1, 1)).Err?
  {
    ParseNewYear(2016);
    assert Pad2(1) + "." + Pad2(1) + "." + Pad4(2016) == "01.01.2016";
    assert DaysBetween(Date(2016, 1, 1), Date(2020, 1, 1)) == 1461;
  }

  lemma BirthDayIntendedAge5()
    ensures CheckBirthDayIntended(Str("01.01.2015"), Date(2020, 1, 1)).Err?
  {
    ParseNewYear(2015);
    assert Pad2(1) + "." + Pad2(1) + "." + Pad4(2015) == "01.01.2015";
    assert DaysBetween(Date(2015, 1, 1), Date(2020, 1, 1)) == 1826;
  }

  lemma BirthDayIntendedAge20()
    ensures CheckBirthDayIntended(Str("01.01.2000"), Date(2020, 1, 1)).Ok?
  {
    ParseNewYear(2000);
    assert Pad2(1) + "." + Pad2(1) + "." + Pad4(2000) == "01.01.2000";
    assert DaysBetween(Date(2000, 1, 1), Date(2020, 1, 1)) == 7305;
  }

  lemma BirthDayIntendedAge100()
    ensures CheckBirthDayIntended(Str("01.01.1920"), Date(2020, 1, 1)).Err?
  {
    ParseNewYear(1920);
    assert Pad2(1) + "." + Pad2(1) + "." + Pad4(1920) == "01.01.1920";
    assert DaysBetween(Date(1920, 1, 1), Date(2020, 1, 1)) == 36525;
  }
}
