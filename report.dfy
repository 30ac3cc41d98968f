/**
 * `make_log_table`: the latest unreported log is selected, its lines collected, and the table
 * built. Reading the file is a parameter: `readLog(path)` is the sequence of lines the opened
 * file yields. `exit(0)` in the steps is modelled as the outcome `Exited`.
 */
module LogReport {
  import opened Outcomes
  import opened Calendar
  import S = LogSelect
  import C = LogCollect
  import T = LogTable

  /** How `make_log_table` ends: the table and the log's date, a clean exit, or an exception. */
  datatype Report = Report(table: seq<T.Row>, date: Date) | Exited | Raised(exception: string)

  /** The outcome that follows from what `select_log_file` returned. */
  ghost predicate FromSelection(sel: S.Selection, readLog: string -> seq<string>, errThreshold: int,
                                reportSize: int, timeSum: seq<string> -> real, r: Report)
  {
    match sel
    case NoLogs => r == Exited
    case AlreadyPrepared => r == Exited
    case Crashed(e) => r == Raised(e)
    case Selected(path, date) =>
      match C.Collect(readLog(path), errThreshold)
      case ThresholdExceeded(_) => r == Exited
      case Crashed(e, _) => r == Raised(e)
      case Collected(logDict, _) => r.Report? && r.date == date && T.TableOf(logDict, timeSum, reportSize, r.table)
  }

  /** The outcomes `make_log_table` may have, for a selection `select_log_file` may make. */
  ghost predicate ReportAllowed(logDir: string, logNames: seq<string>, reportDirExists: bool, reportNames: seq<string>,
                                readLog: string -> seq<string>, errThreshold: int, reportSize: int,
                                timeSum: seq<string> -> real, r: Report)
  {
    exists sel | S.SelectionAllowed(logDir, logNames, S.LastReport(reportDirExists, reportNames), sel) ::
      FromSelection(sel, readLog, errThreshold, reportSize, timeSum, r)
  }

  method MakeLogTable(logDir: string, logNames: seq<string>, reportDirExists: bool, reportNames: seq<string>,
                      readLog: string -> seq<string>, errThreshold: int, reportSize: int,
                      timeSum: seq<string> -> real) returns (r: Report)
    ensures ReportAllowed(logDir, logNames, reportDirExists, reportNames, readLog, errThreshold, reportSize, timeSum, r)
  {
    var sel := S.SelectLogFile(logDir, logNames, reportDirExists, reportNames);
    if !sel.Selected? {
      r := if sel.Crashed? then Raised(sel.exception) else Exited;
      assert FromSelection(sel, readLog, errThreshold, reportSize, timeSum, r);
      return;
    }
    var collected := C.CollectLines(readLog(sel.path), errThreshold);
    match collected
    case ThresholdExceeded(_) =>
      r := Exited;
    case Crashed(e, _) =>
      r := Raised(e);
    case Collected(logDict, _) =>
      var table := T.MakeTable(logDict, timeSum, reportSize);
      r := Report(table, sel.date);
    assert FromSelection(sel, readLog, errThreshold, reportSize, timeSum, r);
  }

  /**
   * A finished table belongs to a matching log with the latest date, for which no report exists;
   * every line of that log parsed with a numeric time, and the table is ordered by `time_sum` and
   * no longer than `reportSize`.
   */
  lemma ReportProperties(logDir: string, logNames: seq<string>, reportDirExists: bool, reportNames: seq<string>,
                         readLog: string -> seq<string>, errThreshold: int, reportSize: int,
                         timeSum: seq<string> -> real, r: Report)
    requires ReportAllowed(logDir, logNames, reportDirExists, reportNames, readLog, errThreshold, reportSize, timeSum, r)
    requires r.Report?
    ensures S.LastReport(reportDirExists, reportNames) != Some(r.date)
    ensures forall i | 0 <= i < |logNames| && S.MatchLogName(logNames[i]).Some? ::
      S.Converts(logNames, S.MatchLogName, i) && DateLe(S.ToDate(S.MatchLogName(logNames[i]).value).value, r.date)
    ensures exists i | 0 <= i < |logNames| && S.Converts(logNames, S.MatchLogName, i) ::
      S.ToDate(S.MatchLogName(logNames[i]).value).value == r.date
      && C.Collect(readLog(S.JoinPath(logDir, S.MatchLogName(logNames[i]).value.key)), errThreshold).Collected?
    ensures T.NonIncreasing(r.table)
    ensures reportSize >= 0 ==> |r.table| <= reportSize
  {
    var sel :| S.SelectionAllowed(logDir, logNames, S.LastReport(reportDirExists, reportNames), sel)
      && FromSelection(sel, readLog, errThreshold, reportSize, timeSum, r);
    assert sel.Selected? && sel.date == r.date;
    S.SelectedIsLatest(logDir, logNames, S.LastReport(reportDirExists, reportNames), sel);
    var logDict := C.Collect(readLog(sel.path), errThreshold).logDict;
    T.TableProperties(logDict, timeSum, reportSize, r.table);
  }
}
