/**
 * `select_log_file` and `check_report_existance`: directory listings are scanned with a file-name
 * pattern anchored at the start; each matching name is keyed by its matched prefix and dated by
 * `date(int(year), int(month), int(day))`. The latest log is chosen unless a report for that date
 * already exists. Listings and the existence of the report directory are parameters.
 */
module LogSelect {
  import opened Outcomes
  import opened Text
  import opened Calendar

  const LOG_PREFIX: string := "nginx-access-ui.log-"
  const REPORT_PREFIX: string := "report-"

  /** `(?P<month>0[1-9]|1[1,2])`: the class `[1,2]` holds `1`, `,` and `2`. */
  predicate MonthField(m: string)
  {
    |m| == 2 && ((m[0] == '0' && '1' <= m[1] <= '9') || (m[0] == '1' && (m[1] == '1' || m[1] == ',' || m[1] == '2')))
  }

  /** `(?P<day>[0-2][1-9]|3[0-1])`. */
  predicate DayField(d: string)
  {
    |d| == 2 && (('0' <= d[0] <= '2' && '1' <= d[1] <= '9') || (d[0] == '3' && (d[1] == '0' || d[1] == '1')))
  }

  /** Of the twelve months written with two digits, the month group refuses October only. */
  lemma MonthFieldOfNumber(n: int)
    requires 1 <= n <= 12
    ensures MonthField(Pad2(n)) <==> n != 10
  {
    assert Pad2(n) == [DigitChar(n / 10), DigitChar(n % 10)];
  }

  /** Besides digits, the month group lets exactly `1,` through. */
  lemma MonthFieldText(m: string)
    requires MonthField(m)
    ensures AllDigits(m) <==> m != "1,"
  {
    if m == "1," {
      assert !IsDigit(m[1]);
    }
  }

  /** Of the days written with two digits, the day group refuses the 10th and the 20th. */
  lemma DayFieldOfNumber(n: int)
    requires 1 <= n <= 31
    ensures DayField(Pad2(n)) <==> n != 10 && n != 20
  {
    assert Pad2(n) == [DigitChar(n / 10), DigitChar(n % 10)];
  }

  /** The month group as evidently meant: the two-digit months `01` to `12`. */
  predicate MonthFieldIntended(m: string)
  {
    |m| == 2 && AllDigits(m) && 1 <= DigitsValue(m) <= 12
  }

  /** The day group as evidently meant: the two-digit days `01` to `31`. */
  predicate DayFieldIntended(d: string)
  {
    |d| == 2 && AllDigits(d) && 1 <= DigitsValue(d) <= 31
  }

  lemma MonthFieldIntendedOfNumber(n: int)
    requires 0 <= n < 100
    ensures MonthFieldIntended(Pad2(n)) <==> 1 <= n <= 12
  {
  }

  /** Every two-digit month, October included, and nothing else, passes the intended group. */
  lemma {:induction false} MonthFieldIntendedIff(m: string)
    ensures MonthFieldIntended(m) <==> exists n | 1 <= n <= 12 :: m == Pad2(n)
  {
    if MonthFieldIntended(m) {
      var n := DigitsValue(m);
      assert m[..1][..0] == [];
      assert DigitsValue(m[..1]) == DigitValue(m[0]);
      assert n == DigitValue(m[0]) * 10 + DigitValue(m[1]);
      assert m == Pad2(n);
    }
  }

  /** Every two-digit day, the 10th and the 20th included, and nothing else, passes the intended group. */
  lemma {:induction false} DayFieldIntendedIff(d: string)
    ensures DayFieldIntended(d) <==> exists n | 1 <= n <= 31 :: d == Pad2(n)
  {
    if DayFieldIntended(d) {
      var n := DigitsValue(d);
      assert d[..1][..0] == [];
      assert DigitsValue(d[..1]) == DigitValue(d[0]);
      assert n == DigitValue(d[0]) * 10 + DigitValue(d[1]);
      assert d == Pad2(n);
    }
  }

  /** What a matching name gives: the key (the `file` or `filename` group) and the date groups. */
  datatype NameMatch = NameMatch(key: string, year: string, month: string, day: string)

  /**
   * The log pattern matched at the start of `f`: the prefix, four digits, the month and day
   * groups, then `.gz` if it follows. The key is the matched text.
   */
  function MatchLogName(f: string): (r: Option<NameMatch>)
    ensures r.Some? ==>
      var n := r.value;
      && |n.year| == 4 && AllDigits(n.year) && MonthField(n.month) && DayField(n.day)
      && StartsWith(f, n.key)
      && (n.key == LOG_PREFIX + n.year + n.month + n.day || n.key == LOG_PREFIX + n.year + n.month + n.day + ".gz")
  {
    if |f| >= 28 && f[..20] == LOG_PREFIX && AllDigits(f[20..24]) && MonthField(f[24..26]) && DayField(f[26..28]) then
      var key := if |f| >= 31 && f[28..31] == ".gz" then f[..31] else f[..28];
      assert f[..28] == f[..20] + f[20..24] + f[24..26] + f[26..28];
      assert |f| >= 31 ==> f[..31] == f[..28] + f[28..31];
      Some(NameMatch(key, f[20..24], f[24..26], f[26..28]))
    else None
  }

  /** Any name of that shape matches, and its key keeps `.gz` exactly when the rest starts with it. */
  lemma LogNameMatches(y: string, m: string, d: string, rest: string)
    requires |y| == 4 && AllDigits(y) && MonthField(m) && DayField(d)
    ensures MatchLogName(LOG_PREFIX + y + m + d + rest)
      == Some(NameMatch(LOG_PREFIX + y + m + d + (if StartsWith(rest, ".gz") then ".gz" else ""), y, m, d))
  {
    var f := LOG_PREFIX + y + m + d + rest;
    assert f[..20] == LOG_PREFIX && f[20..24] == y && f[24..26] == m && f[26..28] == d;
    assert f[..28] == LOG_PREFIX + y + m + d;
    assert f[28..] == rest;
    if |f| >= 31 {
      assert f[28..31] == rest[..3];
      assert f[..31] == LOG_PREFIX + y + m + d + rest[..3];
      if StartsWith(rest, ".gz") {
        assert rest[..3] == ".gz";
      } else {
        assert f[28..31] != ".gz";
        assert LOG_PREFIX + y + m + d + "" == f[..28];
      }
    } else {
      assert !StartsWith(rest, ".gz");
      assert LOG_PREFIX + y + m + d + "" == f[..28];
    }
  }

  /**
   * The report pattern matched at the start of `f`: the prefix, four digits, any character but a
   * newline, the month group, any character but a newline, the day group and `.html`.
   */
  function MatchReportName(f: string): (r: Option<NameMatch>)
    ensures r.Some? ==>
      var n := r.value;
      && |n.year| == 4 && AllDigits(n.year) && MonthField(n.month) && DayField(n.day)
      && StartsWith(f, n.key) && |n.key| == 22
      && n.key == REPORT_PREFIX + n.year + [n.key[11]] + n.month + [n.key[14]] + n.day + ".html"
      && n.key[11] != '\n' && n.key[14] != '\n'
  {
    if |f| >= 22 && f[..7] == REPORT_PREFIX && AllDigits(f[7..11]) && f[11] != '\n' && MonthField(f[12..14])
      && f[14] != '\n' && DayField(f[15..17]) && f[17..22] == ".html"
    then
      assert f[..22] == f[..7] + f[7..11] + [f[11]] + f[12..14] + [f[14]] + f[15..17] + f[17..22];
      Some(NameMatch(f[..22], f[7..11], f[12..14], f[15..17]))
    else None
  }

  /** Any name of that shape matches, keyed by its first 22 characters. */
  lemma ReportNameMatches(y: string, s1: char, m: string, s2: char, d: string, rest: string)
    requires |y| == 4 && AllDigits(y) && MonthField(m) && DayField(d) && s1 != '\n' && s2 != '\n'
    ensures MatchReportName(REPORT_PREFIX + y + [s1] + m + [s2] + d + ".html" + rest)
      == Some(NameMatch(REPORT_PREFIX + y + [s1] + m + [s2] + d + ".html", y, m, d))
  {
    var f := REPORT_PREFIX + y + [s1] + m + [s2] + d + ".html" + rest;
    assert f[..7] == REPORT_PREFIX && f[7..11] == y && f[12..14] == m && f[15..17] == d;
    assert f[17..22] == ".html";
    assert f[..22] == REPORT_PREFIX + y + [s1] + m + [s2] + d + ".html";
  }

  /** `date(int(year), int(month), int(day))`: `ValueError` for `1,` and for impossible dates. */
  function ToDate(n: NameMatch): (r: Result<Date, string>)
    ensures r.Ok? ==> ValidDate(r.value)
    ensures n.month == "1," ==> r == Err("ValueError")
    ensures r.Ok? ==> (AllDigits(n.year) && AllDigits(n.month) && AllDigits(n.day)
                       && r.value == Date(DigitsValue(n.year), DigitsValue(n.month), DigitsValue(n.day)))
  {
    if !AllDigits(n.year) || !AllDigits(n.month) || !AllDigits(n.day) then
      assert n.month == "1," ==> !IsDigit(n.month[1]);
      Err("ValueError")
    else
      var dt := Date(DigitsValue(n.year), DigitsValue(n.month), DigitsValue(n.day));
      if ValidDate(dt) then Ok(dt) else Err("ValueError")
  }

  /** The log file name for a date, without `.gz`. */
  function LogName(dt: Date): string
    requires ValidDate(dt)
  {
    LOG_PREFIX + Pad4(dt.year) + Pad2(dt.month) + Pad2(dt.day)
  }

  /** The name `write_report` gives the report for a date. */
  function ReportName(dt: Date): string
    requires ValidDate(dt)
  {
    REPORT_PREFIX + Pad4(dt.year) + "." + Pad2(dt.month) + "." + Pad2(dt.day) + ".html"
  }

  /** A log named for a date outside October, the 10th and the 20th is found with that date. */
  lemma LogNameOfDate(dt: Date, rest: string)
    requires ValidDate(dt) && dt.month != 10 && dt.day != 10 && dt.day != 20
    ensures MatchLogName(LogName(dt) + rest).Some?
    ensures ToDate(MatchLogName(LogName(dt) + rest).value) == Ok(dt)
  {
    MonthFieldOfNumber(dt.month);
    DayFieldOfNumber(dt.day);
    LogNameMatches(Pad4(dt.year), Pad2(dt.month), Pad2(dt.day), rest);
  }

  /** A report written for a date outside October, the 10th and the 20th is found with that date. */
  lemma ReportNameOfDate(dt: Date)
    requires ValidDate(dt) && dt.month != 10 && dt.day != 10 && dt.day != 20
    ensures MatchReportName(ReportName(dt)).Some?
    ensures ToDate(MatchReportName(ReportName(dt)).value) == Ok(dt)
  {
    MonthFieldOfNumber(dt.month);
    DayFieldOfNumber(dt.day);
    ReportNameMatches(Pad4(dt.year), '.', Pad2(dt.month), '.', Pad2(dt.day), "");
    assert ReportName(dt) == REPORT_PREFIX + Pad4(dt.year) + ['.'] + Pad2(dt.month) + ['.'] + Pad2(dt.day) + ".html" + "";
  }

  /** A report written for an October date, or for a 10th or a 20th, is never recognised. */
  lemma ReportNameMissed(dt: Date)
    requires ValidDate(dt) && (dt.month == 10 || dt.day == 10 || dt.day == 20)
    ensures MatchReportName(ReportName(dt)).None?
  {
    var f := ReportName(dt);
    MonthFieldOfNumber(dt.month);
    DayFieldOfNumber(dt.day);
    assert f[12..14] == Pad2(dt.month) && f[15..17] == Pad2(dt.day);
  }

  /** The listing scanned in order: the dictionary of key to date, or the first conversion error. */
  function Scan(names: seq<string>, matcher: string -> Option<NameMatch>): Result<map<string, Date>, string>
  {
    if names == [] then Ok(map[])
    else ScanNext(Scan(names[..|names| - 1], matcher), matcher(names[|names| - 1]))
  }

  /** The scan after one more name, which matched as `found`. */
  function ScanNext(sofar: Result<map<string, Date>, string>, found: Option<NameMatch>): Result<map<string, Date>, string>
  {
    match sofar
    case Err(e) => Err(e)
    case Ok(dict) =>
      match found
      case None => Ok(dict)
      case Some(n) =>
        match ToDate(n)
        case Err(e) => Err(e)
        case Ok(dt) => Ok(dict[n.key := dt])
  }

  lemma ScanStep(names: seq<string>, matcher: string -> Option<NameMatch>, i: int)
    requires 0 <= i < |names|
    ensures Scan(names[..i + 1], matcher) == ScanNext(Scan(names[..i], matcher), matcher(names[i]))
  {
    assert names[..i + 1][..i] == names[..i];
  }

  /** A conversion error ends the scan. */
  lemma {:induction false} ScanErrStays(names: seq<string>, matcher: string -> Option<NameMatch>, k: int)
    requires 0 <= k <= |names| && Scan(names[..k], matcher).Err?
    ensures Scan(names, matcher) == Scan(names[..k], matcher)
    decreases |names| - k
  {
    if k < |names| {
      ScanStep(names, matcher, k);
      ScanErrStays(names, matcher, k + 1);
    } else {
      assert names[..k] == names;
    }
  }

  /** The name at `i` matched and its date converts. */
  predicate Converts(names: seq<string>, matcher: string -> Option<NameMatch>, i: int)
    requires 0 <= i < |names|
  {
    matcher(names[i]).Some? && ToDate(matcher(names[i]).value).Ok?
  }

  /** The scan succeeds exactly when every matching name converts. */
  lemma {:induction false} ScanOkIff(names: seq<string>, matcher: string -> Option<NameMatch>)
    ensures Scan(names, matcher).Ok? <==>
      forall i | 0 <= i < |names| && matcher(names[i]).Some? :: Converts(names, matcher, i)
  {
    if names != [] {
      var n := |names| - 1;
      var front := names[..n];
      ScanOkIff(front, matcher);
      assert forall i | 0 <= i < n :: front[i] == names[i];
      if Scan(front, matcher).Err? {
        var i :| 0 <= i < n && matcher(front[i]).Some? && !Converts(front, matcher, i);
        assert !Converts(names, matcher, i);
      } else if Scan(names, matcher).Err? {
        assert !Converts(names, matcher, n);
      }
    }
  }

  /** A successful scan has a key for exactly the matching names. */
  lemma {:induction false} ScanKeys(names: seq<string>, matcher: string -> Option<NameMatch>)
    requires Scan(names, matcher).Ok?
    ensures forall k :: k in Scan(names, matcher).value <==>
      exists i | 0 <= i < |names| && matcher(names[i]).Some? :: matcher(names[i]).value.key == k
    ensures forall i | 0 <= i < |names| && matcher(names[i]).Some? ::
      matcher(names[i]).value.key in Scan(names, matcher).value
  {
    if names != [] {
      var n := |names| - 1;
      var front := names[..n];
      ScanKeys(front, matcher);
      assert forall i | 0 <= i < n :: front[i] == names[i];
      var dict := Scan(front, matcher).value;
      var full := Scan(names, matcher).value;
      forall k
        ensures k in full <==> exists i | 0 <= i < |names| && matcher(names[i]).Some? :: matcher(names[i]).value.key == k
      {
        if k in dict {
          var i :| 0 <= i < n && matcher(front[i]).Some? && matcher(front[i]).value.key == k;
          assert matcher(names[i]).value.key == k;
        }
        if exists i | 0 <= i < |names| && matcher(names[i]).Some? :: matcher(names[i]).value.key == k {
          var i :| 0 <= i < |names| && matcher(names[i]).Some? && matcher(names[i]).value.key == k;
          if i < n {
            assert matcher(front[i]).Some? && matcher(front[i]).value.key == k;
          }
        }
      }
    }
  }

  /** In a successful scan each key carries the date of a matching name with that key. */
  lemma {:induction false} ScanDates(names: seq<string>, matcher: string -> Option<NameMatch>)
    requires Scan(names, matcher).Ok?
    ensures forall k | k in Scan(names, matcher).value ::
      exists i | 0 <= i < |names| && Converts(names, matcher, i) ::
        matcher(names[i]).value.key == k && ToDate(matcher(names[i]).value).value == Scan(names, matcher).value[k]
  {
    if names != [] {
      var n := |names| - 1;
      var front := names[..n];
      ScanDates(front, matcher);
      assert forall i | 0 <= i < n :: front[i] == names[i];
      var dict := Scan(front, matcher).value;
      var full := Scan(names, matcher).value;
      forall k | k in full
        ensures exists i | 0 <= i < |names| && Converts(names, matcher, i) ::
          matcher(names[i]).value.key == k && ToDate(matcher(names[i]).value).value == full[k]
      {
        if matcher(names[n]).Some? && matcher(names[n]).value.key == k {
          assert Converts(names, matcher, n);
        } else {
          var i :| 0 <= i < n && Converts(front, matcher, i)
            && matcher(front[i]).value.key == k && ToDate(matcher(front[i]).value).value == dict[k];
          assert Converts(names, matcher, i);
        }
      }
    }
  }

  /** The three facts together, for the callers below. */
  lemma ScanSpec(names: seq<string>, matcher: string -> Option<NameMatch>)
    ensures Scan(names, matcher).Ok? <==>
      forall i | 0 <= i < |names| && matcher(names[i]).Some? :: Converts(names, matcher, i)
    ensures Scan(names, matcher).Ok? ==> forall k :: k in Scan(names, matcher).value <==>
      exists i | 0 <= i < |names| && matcher(names[i]).Some? :: matcher(names[i]).value.key == k
    ensures Scan(names, matcher).Ok? ==> forall i | 0 <= i < |names| && matcher(names[i]).Some? ::
      matcher(names[i]).value.key in Scan(names, matcher).value
    ensures Scan(names, matcher).Ok? ==> forall k | k in Scan(names, matcher).value ::
      exists i | 0 <= i < |names| && Converts(names, matcher, i) ::
        matcher(names[i]).value.key == k && ToDate(matcher(names[i]).value).value == Scan(names, matcher).value[k]
  {
    ScanOkIff(names, matcher);
    if Scan(names, matcher).Ok? {
      ScanKeys(names, matcher);
      ScanDates(names, matcher);
    }
  }

  /** In a log key the date groups can be read back, so names with one key share one date. */
  lemma LogKeyDetermines(f1: string, f2: string)
    requires MatchLogName(f1).Some? && MatchLogName(f2).Some?
    requires MatchLogName(f1).value.key == MatchLogName(f2).value.key
    ensures MatchLogName(f1) == MatchLogName(f2)
  {
    var n1, n2 := MatchLogName(f1).value, MatchLogName(f2).value;
    assert n1.key[20..24] == n1.year && n1.key[24..26] == n1.month && n1.key[26..28] == n1.day;
    assert n2.key[20..24] == n2.year && n2.key[24..26] == n2.month && n2.key[26..28] == n2.day;
  }

  /** The date stored under a matching log's key is that log's date. */
  lemma MatchedLogDated(names: seq<string>, i: int)
    requires 0 <= i < |names| && MatchLogName(names[i]).Some? && Scan(names, MatchLogName).Ok?
    ensures Converts(names, MatchLogName, i)
    ensures MatchLogName(names[i]).value.key in Scan(names, MatchLogName).value
    ensures Scan(names, MatchLogName).value[MatchLogName(names[i]).value.key] == ToDate(MatchLogName(names[i]).value).value
  {
    ScanKeys(names, MatchLogName);
    ScanDates(names, MatchLogName);
    var k := MatchLogName(names[i]).value.key;
    var j :| 0 <= j < |names| && Converts(names, MatchLogName, j) && MatchLogName(names[j]).value.key == k
      && ToDate(MatchLogName(names[j]).value).value == Scan(names, MatchLogName).value[k];
    LogKeyDetermines(names[i], names[j]);
  }

  /** `d` is the largest date held in `dict`. */
  ghost predicate IsLatest(dict: map<string, Date>, d: Date)
  {
    (exists k | k in dict :: dict[k] == d) && forall k | k in dict :: DateLe(dict[k], d)
  }

  /** There is one largest date. */
  lemma LatestUnique(dict: map<string, Date>, d1: Date, d2: Date)
    requires IsLatest(dict, d1) && IsLatest(dict, d2)
    ensures d1 == d2
  {
    var k1 :| k1 in dict && dict[k1] == d1;
    var k2 :| k2 in dict && dict[k2] == d2;
    DateLeTotal(d1, d2);
  }

  lemma {:induction false} LatestExists(dict: map<string, Date>)
    requires dict != map[]
    ensures exists d :: IsLatest(dict, d)
    decreases |dict|
  {
    var k :| k in dict;
    var rest := dict - {k};
    if dict.Keys == {k} {
      assert IsLatest(dict, dict[k]);
    } else {
      var other :| other in dict.Keys && other != k;
      assert other in rest;
      LatestExists(rest);
      var d :| IsLatest(rest, d);
      var j :| j in rest && rest[j] == d;
      DateLeTotal(d, dict[k]);
      if DateLe(d, dict[k]) {
        forall i | i in dict
          ensures DateLe(dict[i], dict[k])
        {
          if i != k {
            assert i in rest && rest[i] == dict[i];
            DateLeTransitive(dict[i], d, dict[k]);
          }
        }
        assert IsLatest(dict, dict[k]);
      } else {
        forall i | i in dict
          ensures DateLe(dict[i], d)
        {
          if i != k {
            assert i in rest && rest[i] == dict[i];
          }
        }
        assert dict[j] == d;
        assert IsLatest(dict, d);
      }
    }
  }

  /** `max` of the dictionary's dates. */
  ghost function LatestOf(dict: map<string, Date>): (d: Date)
    requires dict != map[]
    ensures IsLatest(dict, d)
  {
    LatestExists(dict);
    var d :| IsLatest(dict, d);
    d
  }

  /** `max([v for k, v in dict.items()])`, over the keys in whatever order the dictionary gives them. */
  method LatestDate(dict: map<string, Date>) returns (d: Date)
    requires dict != map[]
    ensures d == LatestOf(dict)
  {
    var first :| first in dict;
    d := dict[first];
    var keys := dict.Keys - {first};
    while keys != {}
      invariant keys <= dict.Keys
      invariant exists k | k in dict :: dict[k] == d
      invariant forall k | k in dict && k !in keys :: DateLe(dict[k], d)
      decreases |keys|
    {
      var k :| k in keys;
      DateLeTotal(dict[k], d);
      if !DateLe(dict[k], d) {
        forall j | j in dict && j !in keys
          ensures DateLe(dict[j], dict[k])
        {
          DateLeTransitive(dict[j], d, dict[k]);
        }
        d := dict[k];
      }
      keys := keys - {k};
    }
    LatestUnique(dict, d, LatestOf(dict));
  }

  /**
   * `check_report_existance`: the latest report date, or `None` when the directory is missing,
   * no report name matches, or a conversion raises (the handler swallows every exception).
   */
  ghost function LastReport(dirExists: bool, names: seq<string>): Option<Date>
  {
    if !dirExists then None
    else match Scan(names, MatchReportName)
      case Err(_) => None
      case Ok(dict) => if dict == map[] then None else Some(LatestOf(dict))
  }

  method CheckReportExistance(dirExists: bool, names: seq<string>) returns (r: Option<Date>)
    ensures r == LastReport(dirExists, names)
  {
    if !dirExists {
      // `os.path.makedirs` does not exist: the AttributeError is caught and nothing is returned.
      return None;
    }
    var reports: map<string, Date> := map[];
    var i := 0;
    while i < |names|
      invariant 0 <= i <= |names|
      invariant Scan(names[..i], MatchReportName) == Ok(reports)
    {
      ScanStep(names, MatchReportName, i);
      var m := MatchReportName(names[i]);
      if m.Some? {
        var dt := ToDate(m.value);
        if dt.Err? {
          ScanErrStays(names, MatchReportName, i + 1);
          return None;
        }
        reports := reports[m.value.key := dt.value];
      }
      i := i + 1;
    }
    assert names[..i] == names;
    if reports == map[] {
      return None;
    }
    var last := LatestDate(reports);
    return Some(last);
  }

  /** A found report date is the date of a matching report, and no matching report is later. */
  lemma LastReportIsLatest(dirExists: bool, names: seq<string>)
    requires LastReport(dirExists, names).Some?
    ensures dirExists
    ensures exists i | 0 <= i < |names| && Converts(names, MatchReportName, i) ::
      ToDate(MatchReportName(names[i]).value).value == LastReport(dirExists, names).value
    ensures forall i | 0 <= i < |names| && MatchReportName(names[i]).Some? ::
      Converts(names, MatchReportName, i)
      && DateLe(ToDate(MatchReportName(names[i]).value).value, LastReport(dirExists, names).value)
  {
    ScanOkIff(names, MatchReportName);
    ScanKeys(names, MatchReportName);
    ScanDates(names, MatchReportName);
    var dict := Scan(names, MatchReportName).value;
    var d := LastReport(dirExists, names).value;
    var k :| k in dict && dict[k] == d;
    forall i | 0 <= i < |names| && MatchReportName(names[i]).Some?
      ensures DateLe(ToDate(MatchReportName(names[i]).value).value, d)
    {
      var key := MatchReportName(names[i]).value.key;
      var j :| 0 <= j < |names| && Converts(names, MatchReportName, j) && MatchReportName(names[j]).value.key == key
        && ToDate(MatchReportName(names[j]).value).value == dict[key];
      ReportKeyDetermines(names[i], names[j]);
    }
  }

  /** In a report key the date groups can be read back, so names with one key share one date. */
  lemma ReportKeyDetermines(f1: string, f2: string)
    requires MatchReportName(f1).Some? && MatchReportName(f2).Some?
    requires MatchReportName(f1).value.key == MatchReportName(f2).value.key
    ensures MatchReportName(f1) == MatchReportName(f2)
  {
    var n1, n2 := MatchReportName(f1).value, MatchReportName(f2).value;
    assert n1.key[7..11] == n1.year && n1.key[12..14] == n1.month && n1.key[15..17] == n1.day;
    assert n2.key[7..11] == n2.year && n2.key[12..14] == n2.month && n2.key[15..17] == n2.day;
  }

  /** No report is found exactly when the directory is missing, nothing matches, or a match does not convert. */
  lemma LastReportNoneIff(dirExists: bool, names: seq<string>)
    ensures LastReport(dirExists, names).None? <==>
      !dirExists
      || (forall i | 0 <= i < |names| :: MatchReportName(names[i]).None?)
      || (exists i | 0 <= i < |names| && MatchReportName(names[i]).Some? :: !Converts(names, MatchReportName, i))
  {
    ScanSpec(names, MatchReportName);
    if dirExists && Scan(names, MatchReportName).Ok? && Scan(names, MatchReportName).value != map[] {
      var k :| k in Scan(names, MatchReportName).value;
    }
  }

  /** `os.path.join` (POSIX) of a directory and a name. */
  function JoinPath(dir: string, name: string): (r: string)
    ensures (name == [] || name[0] != '/') ==> StartsWith(r, dir) && |name| <= |r| && r[|r| - |name|..] == name
    ensures name != [] && name[0] == '/' ==> r == name
  {
    if name != [] && name[0] == '/' then name
    else if dir == [] || dir[|dir| - 1] == '/' then dir + name
    else dir + "/" + name
  }

  /** How `select_log_file` ends: the chosen path and date, one of its two exits, or an exception. */
  datatype Selection = Selected(path: string, date: Date) | NoLogs | AlreadyPrepared | Crashed(exception: string)

  /**
   * The outcomes `select_log_file` may have. When several keys carry the latest date, the one
   * taken first in the dictionary's order is chosen; that order is not modelled, so any of them may be.
   */
  ghost predicate SelectionAllowed(logDir: string, logNames: seq<string>, lastReport: Option<Date>, r: Selection)
  {
    match Scan(logNames, MatchLogName)
    case Err(e) => r == Crashed(e)
    case Ok(files) =>
      if files == map[] then r == NoLogs
      else if lastReport == Some(LatestOf(files)) then r == AlreadyPrepared
      else (r.Selected? && r.date == LatestOf(files)
            && exists k | k in files && files[k] == r.date :: r.path == JoinPath(logDir, k))
  }

  method SelectLogFile(logDir: string, logNames: seq<string>, reportDirExists: bool, reportNames: seq<string>)
    returns (r: Selection)
    ensures SelectionAllowed(logDir, logNames, LastReport(reportDirExists, reportNames), r)
  {
    var lastReport := CheckReportExistance(reportDirExists, reportNames);
    var files: map<string, Date> := map[];
    var i := 0;
    while i < |logNames|
      invariant 0 <= i <= |logNames|
      invariant Scan(logNames[..i], MatchLogName) == Ok(files)
    {
      ScanStep(logNames, MatchLogName, i);
      var m := MatchLogName(logNames[i]);
      if m.Some? {
        var dt := ToDate(m.value);
        if dt.Err? {
          ScanErrStays(logNames, MatchLogName, i + 1);
          return Crashed(dt.error);
        }
        files := files[m.value.key := dt.value];
      }
      i := i + 1;
    }
    assert logNames[..i] == logNames;
    if files == map[] {
      return NoLogs;
    }
    var lastDate := LatestDate(files);
    if lastReport == Some(lastDate) {
      return AlreadyPrepared;
    }
    var inputFile :| inputFile in files && files[inputFile] == lastDate;
    return Selected(JoinPath(logDir, inputFile), lastDate);
  }

  /**
   * A selected file is a matching log of the directory dated with the latest date, no matching
   * log is later, and no report exists for that date.
   */
  lemma SelectedIsLatest(logDir: string, logNames: seq<string>, lastReport: Option<Date>, r: Selection)
    requires SelectionAllowed(logDir, logNames, lastReport, r) && r.Selected?
    ensures exists i | 0 <= i < |logNames| && Converts(logNames, MatchLogName, i) ::
      r.path == JoinPath(logDir, MatchLogName(logNames[i]).value.key)
      && ToDate(MatchLogName(logNames[i]).value).value == r.date
    ensures forall i | 0 <= i < |logNames| && MatchLogName(logNames[i]).Some? ::
      Converts(logNames, MatchLogName, i) && DateLe(ToDate(MatchLogName(logNames[i]).value).value, r.date)
    ensures lastReport != Some(r.date)
  {
    ScanOkIff(logNames, MatchLogName);
    ScanDates(logNames, MatchLogName);
    var files := Scan(logNames, MatchLogName).value;
    var k :| k in files && files[k] == r.date && r.path == JoinPath(logDir, k);
    var j :| 0 <= j < |logNames| && Converts(logNames, MatchLogName, j) && MatchLogName(logNames[j]).value.key == k
      && ToDate(MatchLogName(logNames[j]).value).value == files[k];
    forall i | 0 <= i < |logNames| && MatchLogName(logNames[i]).Some?
      ensures DateLe(ToDate(MatchLogName(logNames[i]).value).value, r.date)
    {
      MatchedLogDated(logNames, i);
    }
  }

  /** The run stops for want of logs exactly when the scan succeeds and no name matches. */
  lemma NoLogsIff(logDir: string, logNames: seq<string>, lastReport: Option<Date>, r: Selection)
    requires SelectionAllowed(logDir, logNames, lastReport, r)
    ensures r == NoLogs <==> forall i | 0 <= i < |logNames| :: MatchLogName(logNames[i]).None?
  {
    ScanSpec(logNames, MatchLogName);
    if Scan(logNames, MatchLogName).Ok? && Scan(logNames, MatchLogName).value != map[] {
      var k :| k in Scan(logNames, MatchLogName).value;
    }
  }

  /** `select_log_file` raises exactly when some matching log name does not convert to a date. */
  lemma CrashedIff(logDir: string, logNames: seq<string>, lastReport: Option<Date>, r: Selection)
    requires SelectionAllowed(logDir, logNames, lastReport, r)
    ensures r.Crashed? <==>
      exists i | 0 <= i < |logNames| && MatchLogName(logNames[i]).Some? :: !Converts(logNames, MatchLogName, i)
  {
    ScanSpec(logNames, MatchLogName);
  }
}
