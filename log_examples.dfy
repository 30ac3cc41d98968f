/** Worked lines for `parse_logs_line`. */
module LogExamples {
  import opened Outcomes
  import opened Text
  import opened LogLines

  /** A shortened line of the `ui_short` format: address, request, referer, request time. */
  const SHORT_LINE: string := "h \"GET /a\" \"-\" 0.390"

  lemma SplitFive(a: string, b: string, c: string, d: string, e: string)
    requires '"' !in a && '"' !in b && '"' !in c && '"' !in d && '"' !in e
    ensures Split(a + ['"'] + (b + ['"'] + (c + ['"'] + (d + ['"'] + e))), '"') == [a, b, c, d, e]
  {
    SplitNoSeparator(e, '"');
    SplitAfterPrefix(d, '"', e);
    var t4 := d + ['"'] + e;
    assert Split(t4, '"') == [d, e];
    SplitAfterPrefix(c, '"', t4);
    var t3 := c + ['"'] + t4;
    assert Split(t3, '"') == [c, d, e];
    SplitAfterPrefix(b, '"', t3);
    var t2 := b + ['"'] + t3;
    assert Split(t2, '"') == [b, c, d, e];
    SplitAfterPrefix(a, '"', t2);
  }

  lemma ShortLineFragments()
    ensures Split(SHORT_LINE, '"') == ["h ", "GET /a", " ", "-", " 0.390"]
  {
    SplitFive("h ", "GET /a", " ", "-", " 0.390");
    ShortLineText();
  }

  lemma ShortLineText()
    ensures SHORT_LINE == "h " + ['"'] + ("GET /a" + ['"'] + (" " + ['"'] + ("-" + ['"'] + " 0.390")))
  {
  }

  lemma RequestFragmentMatches()
    ensures FragmentMatches("GET /a") == ["/a"]
  {
    assert StartsWith("GET /a", "GET ");
    assert "GET /a"[4..] == "/a";
    assert UpToNewline("/a") == "/a";
  }

  lemma TimeFragmentMatches()
    ensures FragmentMatches(" 0.390") == ["0.390"]
  {
    var frag := " 0.390";
    assert UpToNewline(frag) == frag by {
      assert NoNewline(frag);
    }
    assert frag[2] == '.' && AllDigits(frag[3..6]);
    assert TimeEndFrom(frag, 6) == Some(6);
    assert frag[1..6] == "0.390";
  }

  lemma OtherFragmentsDoNotMatch()
    ensures FragmentMatches("h ") == []
    ensures FragmentMatches(" ") == []
    ensures FragmentMatches("-") == []
  {
  }

  /** The matches of a five-fragment line, fragment by fragment. */
  lemma FiveFragmentMatches(line: string, f0: string, f1: string, f2: string, f3: string, f4: string)
    requires Split(line, '"') == [f0, f1, f2, f3, f4]
    ensures Matches(Split(line, '"')) ==
      FragmentMatches(f0) + FragmentMatches(f1) + FragmentMatches(f2) + FragmentMatches(f3) + FragmentMatches(f4)
  {
    var frags := Split(line, '"');
    assert frags[..0] == [];
    MatchesStep(frags, 0);
    var m := FragmentMatches(f0);
    assert Matches(frags[..1]) == m;
    MatchesStep(frags, 1);
    m := m + FragmentMatches(f1);
    assert Matches(frags[..2]) == m;
    MatchesStep(frags, 2);
    m := m + FragmentMatches(f2);
    assert Matches(frags[..3]) == m;
    MatchesStep(frags, 3);
    m := m + FragmentMatches(f3);
    assert Matches(frags[..4]) == m;
    MatchesStep(frags, 4);
    m := m + FragmentMatches(f4);
    assert frags[..5] == frags;
  }

  /** A five-fragment line whose fragments together match twice parses to those two matches. */
  lemma FiveFragmentsParse(line: string, f0: string, f1: string, f2: string, f3: string, f4: string, x: string, y: string)
    requires Split(line, '"') == [f0, f1, f2, f3, f4]
    requires FragmentMatches(f0) + FragmentMatches(f1) + FragmentMatches(f2) + FragmentMatches(f3) + FragmentMatches(f4) == [x, y]
    ensures ParseLine(line) == Some((x, y))
  {
    FiveFragmentMatches(line, f0, f1, f2, f3, f4);
  }

  /** The line gives the request path and the request time. */
  lemma ShortLineMatches()
    ensures FragmentMatches("h ") + FragmentMatches("GET /a") + FragmentMatches(" ") + FragmentMatches("-")
      + FragmentMatches(" 0.390") == ["/a", "0.390"]
  {
    RequestFragmentMatches();
    TimeFragmentMatches();
    OtherFragmentsDoNotMatch();
  }

  lemma ShortLineParses()
    ensures ParseLine(SHORT_LINE) == Some(("/a", "0.390"))
  {
    ShortLineFragments();
    ShortLineMatches();
    FiveFragmentsParse(SHORT_LINE, "h ", "GET /a", " ", "-", " 0.390", "/a", "0.390");
  }

  /** Two quoted requests and no time. */
  const TWO_REQUESTS_LINE: string := "h \"GET /a\" \"GET /b\" "

  lemma TwoRequestsFragments()
    ensures Split(TWO_REQUESTS_LINE, '"') == ["h ", "GET /a", " ", "GET /b", " "]
  {
    SplitFive("h ", "GET /a", " ", "GET /b", " ");
    assert TWO_REQUESTS_LINE == "h " + ['"'] + ("GET /a" + ['"'] + (" " + ['"'] + ("GET /b" + ['"'] + " ")));
  }

  lemma SecondRequestMatches()
    ensures FragmentMatches("GET /b") == ["/b"]
  {
    assert StartsWith("GET /b", "GET ");
    assert "GET /b"[4..] == "/b";
    assert UpToNewline("/b") == "/b";
  }

  /** The pair is taken whatever its kinds: a line with two requests and no time parses too. */
  lemma TwoRequestsMatches()
    ensures FragmentMatches("h ") + FragmentMatches("GET /a") + FragmentMatches(" ") + FragmentMatches("GET /b")
      + FragmentMatches(" ") == ["/a", "/b"]
  {
    RequestFragmentMatches();
    SecondRequestMatches();
    OtherFragmentsDoNotMatch();
  }

  lemma TwoRequestsParse()
    ensures ParseLine(TWO_REQUESTS_LINE) == Some(("/a", "/b"))
  {
    TwoRequestsFragments();
    TwoRequestsMatches();
    FiveFragmentsParse(TWO_REQUESTS_LINE, "h ", "GET /a", " ", "GET /b", " ", "/a", "/b");
  }
}
