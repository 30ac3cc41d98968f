/**
 * `collect_lines`: every line of the log is parsed; its request time is appended to the list kept
 * under its URL. The loop stops (`exit(0)`) once the number of failed parses reaches the error
 * threshold, and the threshold is compared on every line, parsed or not. A failed parse below the
 * threshold goes on to index the missing result and raises `TypeError`; a time that `float()`
 * refuses raises `ValueError`. Times are kept as the matched text.
 */
module LogCollect {
  import opened Outcomes
  import opened LogLines
  import opened Floats

  /** URL to the times of its requests, in the order of the lines. */
  type LogDict = map<string, seq<string>>

  /** How `collect_lines` ends: its result, `exit(0)` at the threshold, or an exception. */
  datatype Collection =
    | Collected(logDict: LogDict, lineCount: nat)
    | ThresholdExceeded(lineCount: nat)
    | Crashed(exception: string, lineCount: nat)

  /** The loop's variables between two lines, or how it stopped. */
  datatype Progress =
    | Running(logDict: LogDict, parseError: nat, lineCount: nat)
    | Stopped(outcome: Collection)

  /** `log_dict` after appending `time` under `url`: an empty list is first put under a new URL. */
  function Append(logDict: LogDict, url: string, time: string): (r: LogDict)
    ensures r.Keys == logDict.Keys + {url}
    ensures r[url] == (if url in logDict then logDict[url] else []) + [time]
    ensures forall u | u in logDict && u != url :: r[u] == logDict[u]
  {
    var withList := if url in logDict then logDict else logDict[url := []];
    withList[url := withList[url] + [time]]
  }

  /**
   * What the loop body makes of one line: no parse, a parse whose time `float()` refuses, or
   * an entry to append.
   */
  datatype LineResult = Unparsed | NotNumeric | Entry(url: string, time: string)

  function Classify(result: Option<(string, string)>): (c: LineResult)
    ensures c == Unparsed <==> result.None?
    ensures c.Entry? <==> result.Some? && FloatText(result.value.1)
    ensures c.Entry? ==> (c.url, c.time) == result.value
  {
    match result
    case None => Unparsed
    case Some((url, time)) => if FloatText(time) then Entry(url, time) else NotNumeric
  }

  /** What the loop body makes of every line. */
  function ClassifyAll(lines: seq<string>): (r: seq<LineResult>)
    ensures |r| == |lines|
    ensures forall j | 0 <= j < |lines| :: r[j] == Classify(ParseLine(lines[j]))
  {
    seq(|lines|, j requires 0 <= j < |lines| => Classify(ParseLine(lines[j])))
  }

  /** One pass of the loop body over a line. */
  function Step(p: Progress, line: LineResult, threshold: int): Progress
  {
    match p
    case Stopped(_) => p
    case Running(logDict, parseError, lineCount) =>
      var errors := if line == Unparsed then parseError + 1 else parseError;
      if errors >= threshold then Stopped(ThresholdExceeded(lineCount + 1))
      else if line == Unparsed then Stopped(Crashed("TypeError", lineCount + 1))
      else if line == NotNumeric then Stopped(Crashed("ValueError", lineCount + 1))
      else Running(Append(logDict, line.url, line.time), errors, lineCount + 1)
  }

  /** The loop run from the start over `classified`. */
  function Run(classified: seq<LineResult>, threshold: int): Progress
  {
    if classified == [] then Running(map[], 0, 0)
    else Step(Run(classified[..|classified| - 1], threshold), classified[|classified| - 1], threshold)
  }

  /** How the loop ends over `classified`. */
  function Outcome(classified: seq<LineResult>, threshold: int): Collection
  {
    match Run(classified, threshold)
    case Running(logDict, _, lineCount) => Collected(logDict, lineCount)
    case Stopped(outcome) => outcome
  }

  /** `collect_lines` over the lines of the file, with `ERR_THRS` given as `threshold`. */
  function Collect(lines: seq<string>, threshold: int): Collection
  {
    Outcome(ClassifyAll(lines), threshold)
  }

  method CollectLines(lines: seq<string>, threshold: int) returns (r: Collection)
    ensures r == Collect(lines, threshold)
  {
    ghost var classified := ClassifyAll(lines);
    var parseError, lineCount := 0, 0;
    var logDict: LogDict := map[];
    var i := 0;
    while i < |lines|
      invariant 0 <= i <= |lines|
      invariant Run(classified[..i], threshold) == Running(logDict, parseError, lineCount)
    {
      RunStep(classified, i, threshold);
      var p := ReadLine(logDict, parseError, lineCount, lines[i], threshold);
      if p.Stopped? {
        StopHere(classified, i + 1, threshold);
        return p.outcome;
      }
      logDict, parseError, lineCount := p.logDict, p.parseError, p.lineCount;
      i := i + 1;
    }
    assert classified[..i] == classified;
    return Collected(logDict, lineCount);
  }

  /** The loop body of `collect_lines` on one line, given the counters and the dictionary so far. */
  method ReadLine(logDict: LogDict, parseError: nat, lineCount: nat, line: string, threshold: int) returns (p: Progress)
    ensures p == Step(Running(logDict, parseError, lineCount), Classify(ParseLine(line)), threshold)
  {
    var lineCount := lineCount + 1;
    var parseError := parseError;
    var result := ParseLogsLine(line);
    if result.None? {
      parseError := parseError + 1;
    }
    if parseError >= threshold {
      return Stopped(ThresholdExceeded(lineCount));
    }
    if result.None? {
      return Stopped(Crashed("TypeError", lineCount));
    }
    var (url, time) := result.value;
    var logDict := logDict;
    if url !in logDict {
      logDict := logDict[url := []];
    }
    if !FloatText(time) {
      return Stopped(Crashed("ValueError", lineCount));
    }
    logDict := logDict[url := logDict[url] + [time]];
    return Running(logDict, parseError, lineCount);
  }

  /** One more line run. */
  lemma RunStep(classified: seq<LineResult>, i: int, threshold: int)
    requires 0 <= i < |classified|
    ensures Run(classified[..i + 1], threshold) == Step(Run(classified[..i], threshold), classified[i], threshold)
  {
    assert classified[..i + 1][..i] == classified[..i];
  }

  /** A run stopped after `k` lines ends the way it stopped. */
  lemma StopHere(classified: seq<LineResult>, k: int, threshold: int)
    requires 0 <= k <= |classified| && Run(classified[..k], threshold).Stopped?
    ensures Outcome(classified, threshold) == Run(classified[..k], threshold).outcome
  {
    StoppedStays(classified, k, threshold);
  }

  /** Once stopped, the later lines are never read. */
  lemma {:induction false} StoppedStays(classified: seq<LineResult>, k: int, threshold: int)
    requires 0 <= k <= |classified| && Run(classified[..k], threshold).Stopped?
    ensures Run(classified, threshold) == Run(classified[..k], threshold)
    decreases |classified| - k
  {
    if k < |classified| {
      RunStep(classified, k, threshold);
      StoppedStays(classified, k + 1, threshold);
    } else {
      assert classified[..k] == classified;
    }
  }

  /** The position of the first line the loop body does not get through, or the length. */
  function FirstFailure(classified: seq<LineResult>): (k: nat)
    ensures k <= |classified|
    ensures forall j | 0 <= j < k :: classified[j].Entry?
    ensures k < |classified| ==> !classified[k].Entry?
  {
    if classified == [] || !classified[0].Entry? then 0 else 1 + FirstFailure(classified[1..])
  }

  /** The (URL, time) pairs of lines that all got through, in order. */
  function Pairs(classified: seq<LineResult>): (r: seq<(string, string)>)
    requires forall j | 0 <= j < |classified| :: classified[j].Entry?
    ensures |r| == |classified|
    ensures forall j | 0 <= j < |classified| :: r[j] == (classified[j].url, classified[j].time)
  {
    if classified == [] then []
    else Pairs(classified[..|classified| - 1]) + [(classified[|classified| - 1].url, classified[|classified| - 1].time)]
  }

  /** The dictionary built from `pairs` by appending each time under its URL. */
  function Group(pairs: seq<(string, string)>): LogDict
  {
    if pairs == [] then map[]
    else Append(Group(pairs[..|pairs| - 1]), pairs[|pairs| - 1].0, pairs[|pairs| - 1].1)
  }

  /** The times paired with `url`, in order. */
  function TimesFor(pairs: seq<(string, string)>, url: string): (r: seq<string>)
    ensures |r| <= |pairs|
  {
    if pairs == [] then []
    else (if pairs[0].0 == url then [pairs[0].1] else []) + TimesFor(pairs[1..], url)
  }

  lemma {:induction false} TimesForAppend(pairs: seq<(string, string)>, p: (string, string), url: string)
    ensures TimesFor(pairs + [p], url) == TimesFor(pairs, url) + (if p.0 == url then [p.1] else [])
  {
    if pairs != [] {
      assert (pairs + [p])[1..] == pairs[1..] + [p];
      TimesForAppend(pairs[1..], p, url);
    }
  }

  /** The grouped dictionary has a key for exactly the URLs of the pairs. */
  lemma {:induction false} GroupKeys(pairs: seq<(string, string)>)
    ensures forall url :: url in Group(pairs) <==> exists j | 0 <= j < |pairs| :: pairs[j].0 == url
  {
    if pairs != [] {
      var n := |pairs| - 1;
      var front := pairs[..n];
      GroupKeys(front);
      forall url
        ensures url in Group(pairs) <==> exists j | 0 <= j < |pairs| :: pairs[j].0 == url
      {
        if url in Group(front) {
          var j :| 0 <= j < |front| && front[j].0 == url;
          assert pairs[j].0 == url;
        }
        if exists j | 0 <= j < |pairs| :: pairs[j].0 == url {
          var j :| 0 <= j < |pairs| && pairs[j].0 == url;
          if j < n {
            assert front[j].0 == url;
          }
        }
      }
    }
  }

  /** Each URL's list holds the times paired with it, in order. */
  lemma {:induction false} GroupValues(pairs: seq<(string, string)>)
    ensures forall url | url in Group(pairs) :: Group(pairs)[url] == TimesFor(pairs, url)
  {
    if pairs != [] {
      var n := |pairs| - 1;
      var front := pairs[..n];
      GroupValues(front);
      GroupKeys(front);
      assert pairs == front + [pairs[n]];
      forall url | url in Group(pairs)
        ensures Group(pairs)[url] == TimesFor(pairs, url)
      {
        TimesForAppend(front, pairs[n], url);
        if url !in Group(front) {
          assert TimesFor(front, url) == [] by {
            TimesForAbsent(front, url);
          }
        }
      }
    }
  }

  /** A URL that occurs in no pair collects no time. */
  lemma {:induction false} TimesForAbsent(pairs: seq<(string, string)>, url: string)
    requires forall j | 0 <= j < |pairs| :: pairs[j].0 != url
    ensures TimesFor(pairs, url) == []
  {
    if pairs != [] {
      TimesForAbsent(pairs[1..], url);
    }
  }

  /** The number of times held in the dictionary, over all its lists. */
  ghost function TotalLength(logDict: LogDict): nat
    decreases |logDict|
  {
    if logDict == map[] then 0
    else
      var url :| url in logDict;
      |logDict[url]| + TotalLength(logDict - {url})
  }

  /** The total does not depend on which key is taken first. */
  lemma {:induction false} TotalLengthRemove(logDict: LogDict, url: string)
    requires url in logDict
    ensures TotalLength(logDict) == |logDict[url]| + TotalLength(logDict - {url})
    decreases |logDict|
  {
    var first :| first in logDict && TotalLength(logDict) == |logDict[first]| + TotalLength(logDict - {first});
    if first != url {
      var rest := logDict - {first};
      TotalLengthRemove(rest, url);
      TotalLengthRemove(logDict - {url}, first);
      assert rest - {url} == (logDict - {url}) - {first};
    }
  }

  /** Each pair adds one time to the dictionary. */
  lemma {:induction false} GroupTotalLength(pairs: seq<(string, string)>)
    ensures TotalLength(Group(pairs)) == |pairs|
  {
    if pairs != [] {
      var n := |pairs| - 1;
      var before := Group(pairs[..n]);
      var (url, time) := pairs[n];
      var after := Group(pairs);
      GroupTotalLength(pairs[..n]);
      TotalLengthRemove(after, url);
      assert after - {url} == before - {url};
      if url in before {
        TotalLengthRemove(before, url);
      } else {
        assert before - {url} == before;
      }
    }
  }

  /** While every line gets through, the loop holds the grouped pairs and no parse error. */
  lemma {:induction false} RunAllOk(classified: seq<LineResult>, threshold: int)
    requires threshold >= 1 && forall j | 0 <= j < |classified| :: classified[j].Entry?
    ensures Run(classified, threshold) == Running(Group(Pairs(classified)), 0, |classified|)
  {
    if classified != [] {
      var n := |classified| - 1;
      RunAllOk(classified[..n], threshold);
      assert Pairs(classified)[..n] == Pairs(classified[..n]);
    }
  }

  /** Every line gets through: the result is the grouped dictionary and the number of lines. */
  lemma OutcomeAllOk(classified: seq<LineResult>, threshold: int)
    requires threshold >= 1 && forall j | 0 <= j < |classified| :: classified[j].Entry?
    ensures Outcome(classified, threshold) == Collected(Group(Pairs(classified)), |classified|)
  {
    RunAllOk(classified, threshold);
  }

  /**
   * The first line that does not get through ends the run there: at the threshold when the parse
   * failed and one error is enough, with `TypeError` when the parse failed below it, and with
   * `ValueError` when the time is not a number.
   */
  lemma OutcomeFirstFailure(classified: seq<LineResult>, threshold: int)
    requires threshold >= 1 && FirstFailure(classified) < |classified|
    ensures var k := FirstFailure(classified);
      Outcome(classified, threshold) ==
        if classified[k] == Unparsed then
          if threshold <= 1 then ThresholdExceeded(k + 1) else Crashed("TypeError", k + 1)
        else Crashed("ValueError", k + 1)
  {
    var k := FirstFailure(classified);
    RunAllOk(classified[..k], threshold);
    RunStep(classified, k, threshold);
    StoppedStays(classified, k + 1, threshold);
  }

  /** A threshold of zero or less is reached on the first line, whatever it holds. */
  lemma OutcomeNoThreshold(classified: seq<LineResult>, threshold: int)
    requires threshold <= 0 && classified != []
    ensures Outcome(classified, threshold) == ThresholdExceeded(1)
  {
    assert classified[..0] == [];
    RunStep(classified, 0, threshold);
    StoppedStays(classified, 1, threshold);
  }

  /**
   * `collect_lines` returns exactly when every line parses with a numeric time and, if there
   * is a line, the threshold is positive.
   */
  lemma CollectedIff(lines: seq<string>, threshold: int)
    ensures Collect(lines, threshold).Collected? <==>
      (lines == [] || threshold >= 1)
      && forall j | 0 <= j < |lines| :: ParseLine(lines[j]).Some? && FloatText(ParseLine(lines[j]).value.1)
  {
    var classified := ClassifyAll(lines);
    if lines != [] && threshold <= 0 {
      OutcomeNoThreshold(classified, threshold);
    } else if FirstFailure(classified) < |classified| {
      OutcomeFirstFailure(classified, threshold);
    } else if lines != [] {
      OutcomeAllOk(classified, threshold);
    }
  }

  /**
   * Where `collect_lines` stops with a positive threshold: at the first line that does not get
   * through, whose number is the line count reported.
   */
  lemma CollectStops(lines: seq<string>, threshold: int, k: int)
    requires threshold >= 1 && 0 <= k < |lines|
    requires !Classify(ParseLine(lines[k])).Entry?
    requires forall j | 0 <= j < k :: Classify(ParseLine(lines[j])).Entry?
    ensures Collect(lines, threshold) ==
      if ParseLine(lines[k]).None? then
        if threshold <= 1 then ThresholdExceeded(k + 1) else Crashed("TypeError", k + 1)
      else Crashed("ValueError", k + 1)
  {
    var classified := ClassifyAll(lines);
    FirstFailureIs(classified, k);
    OutcomeFirstFailure(classified, threshold);
  }

  /** The first failure is the failing line with only successes before it. */
  lemma {:induction false} FirstFailureIs(classified: seq<LineResult>, k: int)
    requires 0 <= k < |classified| && !classified[k].Entry?
    requires forall j | 0 <= j < k :: classified[j].Entry?
    ensures FirstFailure(classified) == k
  {
    if k > 0 {
      FirstFailureIs(classified[1..], k - 1);
    }
  }

  /**
   * A returned dictionary has a key for exactly the URLs of the lines, holds under each the
   * times of its lines in order, and holds as many times as there were lines.
   */
  lemma CollectedDictionary(lines: seq<string>, threshold: int)
    requires Collect(lines, threshold).Collected?
    ensures forall j | 0 <= j < |lines| :: ClassifyAll(lines)[j].Entry?
    ensures var pairs := Pairs(ClassifyAll(lines));
      var r := Collect(lines, threshold);
      && r.lineCount == |lines|
      && (forall j | 0 <= j < |lines| :: pairs[j] == ParseLine(lines[j]).value)
      && (forall url :: url in r.logDict <==> exists j | 0 <= j < |lines| :: pairs[j].0 == url)
      && (forall url | url in r.logDict :: r.logDict[url] == TimesFor(pairs, url))
      && TotalLength(r.logDict) == |lines|
  {
    var classified := ClassifyAll(lines);
    CollectedIff(lines, threshold);
    if lines == [] {
      assert Collect(lines, threshold) == Collected(map[], 0);
    } else {
      OutcomeAllOk(classified, threshold);
    }
    GroupKeys(Pairs(classified));
    GroupValues(Pairs(classified));
    GroupTotalLength(Pairs(classified));
  }
}
