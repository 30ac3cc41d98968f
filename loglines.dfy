/**
 * `parse_logs_line`: a log line is split on `"` and every fragment is tried against two patterns
 * anchored at its start, one for the request (`GET`/`POST` and the rest of the fragment) and one
 * for the request time (a space, a digit, and text up to the last `.` followed by three digits).
 * The line parses when exactly two matches are collected over all fragments.
 */
module LogLines {
  import opened Outcomes
  import opened Text

  /** `frag` is `verb`, then `url`, then the end of the fragment or a newline. */
  predicate UrlAfter(frag: string, verb: string, url: string)
  {
    StartsWith(frag, verb + url) && (|frag| == |verb| + |url| || frag[|verb| + |url|] == '\n')
  }

  /** `(GET|POST) (?P<url>.*)` matched at the start of `frag`; the result is the `url` group. */
  function MatchUrl(frag: string): (r: Option<string>)
    ensures r.Some? <==> StartsWith(frag, "GET ") || StartsWith(frag, "POST ")
    ensures r.Some? ==> NoNewline(r.value) && (UrlAfter(frag, "GET ", r.value) || UrlAfter(frag, "POST ", r.value))
  {
    if StartsWith(frag, "GET ") then
      var url := UpToNewline(frag[4..]);
      assert frag[..4 + |url|] == "GET " + url by {
        assert frag[4..][..|url|] == url;
      }
      Some(url)
    else if StartsWith(frag, "POST ") then
      var url := UpToNewline(frag[5..]);
      assert frag[..5 + |url|] == "POST " + url by {
        assert frag[5..][..|url|] == url;
      }
      Some(url)
    else None
  }

  /**
   * The time pattern matches `frag[..k]`: a space, a digit, any text without a newline, a `.`
   * and three digits, which end at `k`.
   */
  predicate TimeMatchAt(frag: string, k: int)
  {
    TimeEndAt(frag, k) && frag[0] == ' ' && IsDigit(frag[1]) && NoNewline(frag[..k])
  }

  /** A `.` and three digits end at `k`, after at least a space and a digit. */
  predicate TimeEndAt(frag: string, k: int)
  {
    6 <= k <= |frag| && frag[k - 4] == '.' && AllDigits(frag[k - 3..k])
  }

  /** The largest end not above `k` at which a `.` and three digits finish. */
  function TimeEndFrom(frag: string, k: nat): (r: Option<nat>)
    requires k <= |frag|
    ensures r.Some? ==> r.value <= k && TimeEndAt(frag, r.value)
    ensures forall j | j <= k && TimeEndAt(frag, j) :: r.Some? && j <= r.value
    decreases k
  {
    if k < 6 then None
    else if TimeEndAt(frag, k) then Some(k)
    else TimeEndFrom(frag, k - 1)
  }

  /**
   * ` (?P<time_rqst>[0-9].*\.[0-9]{3})` matched at the start of `frag`; the greedy `.*` makes
   * the match end as late as it can before the first newline.
   */
  function MatchTime(frag: string): (r: Option<string>)
    ensures r.Some? <==> exists k :: TimeMatchAt(frag, k)
    ensures r.Some? ==> exists k :: (TimeMatchAt(frag, k) && r.value == frag[1..k]
                                     && forall j :: TimeMatchAt(frag, j) ==> j <= k)
  {
    var line := UpToNewline(frag);
    assert frag[..|line|] == line;
    assert forall j | 0 <= j <= |frag| && NoNewline(frag[..j]) :: j <= |line|;
    if 2 <= |frag| && frag[0] == ' ' && IsDigit(frag[1]) then
      match TimeEndFrom(frag, |line|)
      case None => None
      case Some(k) =>
        assert frag[..k] == line[..k];
        assert TimeMatchAt(frag, k);
        Some(frag[1..k])
    else None
  }

  /** A fragment cannot match both patterns: one starts with a letter, the other with a space. */
  lemma UrlAndTimeExclusive(frag: string)
    ensures !(MatchUrl(frag).Some? && MatchTime(frag).Some?)
  {
  }

  /** What one fragment adds to `parse_result`: its request, then its time. */
  function FragmentMatches(frag: string): (r: seq<string>)
    ensures |r| <= 1
  {
    UrlAndTimeExclusive(frag);
    (if MatchUrl(frag).Some? then [MatchUrl(frag).value] else [])
      + (if MatchTime(frag).Some? then [MatchTime(frag).value] else [])
  }

  /** `parse_result` after the fragments `frags`, in order. */
  function Matches(frags: seq<string>): seq<string>
  {
    if frags == [] then [] else Matches(frags[..|frags| - 1]) + FragmentMatches(frags[|frags| - 1])
  }

  /** `parse_logs_line(line)`: the two collected matches, in the order found, or nothing. */
  function ParseLine(line: string): Option<(string, string)>
  {
    var found := Matches(Split(line, '"'));
    if |found| == 2 then Some((found[0], found[1])) else None
  }

  method ParseLogsLine(line: string) returns (r: Option<(string, string)>)
    ensures r == ParseLine(line)
  {
    var frags := Split(line, '"');
    var parseResult: seq<string> := [];
    var i := 0;
    while i < |frags|
      invariant 0 <= i <= |frags|
      invariant parseResult == Matches(frags[..i])
    {
      var element := frags[i];
      var urlM := MatchUrl(element);
      var timeM := MatchTime(element);
      MatchesStep(frags, i);
      if urlM.Some? {
        parseResult := parseResult + [urlM.value];
      }
      if timeM.Some? {
        parseResult := parseResult + [timeM.value];
      }
      i := i + 1;
    }
    assert frags[..i] == frags;
    if |parseResult| == 2 {
      return Some((parseResult[0], parseResult[1]));
    }
    return None;
  }

  /** One more fragment looked at. */
  lemma MatchesStep(frags: seq<string>, i: int)
    requires 0 <= i < |frags|
    ensures Matches(frags[..i + 1]) == Matches(frags[..i]) + FragmentMatches(frags[i])
  {
    assert frags[..i + 1][..i] == frags[..i];
    assert frags[..i + 1][i] == frags[i];
  }

  /** Every collected match comes from its own fragment, and matches keep the order of their fragments. */
  lemma {:induction false} MatchesFromFragments(frags: seq<string>, a: int)
    requires 0 <= a < |Matches(frags)|
    ensures exists i | 0 <= i < |frags| :: (FragmentMatches(frags[i]) == [Matches(frags)[a]]
                                            && |Matches(frags[..i])| == a)
  {
    var n := |frags| - 1;
    assert frags[..n + 1] == frags;
    if a < |Matches(frags[..n])| {
      MatchesFromFragments(frags[..n], a);
      var i :| 0 <= i < n && FragmentMatches(frags[..n][i]) == [Matches(frags[..n])[a]]
        && |Matches(frags[..n][..i])| == a;
      assert frags[..n][..i] == frags[..i];
    } else {
      assert frags[n] == frags[|frags| - 1];
    }
  }

  /** A parsed line's two values are the matches of two different fragments, the first one earlier. */
  lemma ParsedFromTwoFragments(line: string)
    requires ParseLine(line).Some?
    ensures exists i, j | 0 <= i < j < |Split(line, '"')| ::
      FragmentMatches(Split(line, '"')[i]) == [ParseLine(line).value.0]
      && FragmentMatches(Split(line, '"')[j]) == [ParseLine(line).value.1]
  {
    var frags := Split(line, '"');
    MatchesFromFragments(frags, 0);
    MatchesFromFragments(frags, 1);
    var i :| 0 <= i < |frags| && FragmentMatches(frags[i]) == [Matches(frags)[0]] && |Matches(frags[..i])| == 0;
    var j :| 0 <= j < |frags| && FragmentMatches(frags[j]) == [Matches(frags)[1]] && |Matches(frags[..j])| == 1;
    if j < i {
      MatchesPrefixGrows(frags, j, i);
      assert false;
    }
  }

  /** The matches of a longer prefix extend those of a shorter one. */
  lemma {:induction false} MatchesPrefixGrows(frags: seq<string>, i: int, j: int)
    requires 0 <= i <= j <= |frags|
    ensures |Matches(frags[..i])| <= |Matches(frags[..j])|
    ensures i < j ==> |Matches(frags[..i]) + FragmentMatches(frags[i])| <= |Matches(frags[..j])|
    decreases j - i
  {
    if i < j {
      MatchesPrefixGrows(frags, i + 1, j);
      assert frags[..i + 1][..i] == frags[..i];
      assert frags[..i + 1][i] == frags[i];
    }
  }
}
