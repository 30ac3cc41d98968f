/**
 * The report table of `make_log_table`: one row per URL of the collected dictionary, sorted by
 * `time_sum` from largest to smallest with Python's stable sort, then cut to `REPORT_SIZE` rows
 * by slicing. The float statistics are not modelled; `time_sum` of a URL's times is a parameter.
 */
module LogTable {
  import opened LogCollect

  /** The part of a table row that the ordering and the cut depend on. */
  datatype Row = Row(url: string, count: nat, timeSum: real)

  /** The row built for `url`: its number of requests and the summed time of its list. */
  function RowOf(logDict: LogDict, url: string, timeSum: seq<string> -> real): (r: Row)
    requires url in logDict
    ensures r.url == url && r.count == |logDict[url]|
  {
    Row(url, |logDict[url]|, timeSum(logDict[url]))
  }

  /** `rows` holds, in some order, exactly one row for every URL of `logDict`. */
  ghost predicate RowsOf(logDict: LogDict, timeSum: seq<string> -> real, rows: seq<Row>)
  {
    (forall i | 0 <= i < |rows| :: rows[i].url in logDict && rows[i] == RowOf(logDict, rows[i].url, timeSum))
    && (forall i, j | 0 <= i < j < |rows| :: rows[i].url != rows[j].url)
    && (forall url | url in logDict :: exists i | 0 <= i < |rows| :: rows[i].url == url)
  }

  /**
   * The loop over `log_dict.items()` that appends a row per URL. The dictionary's order is not
   * modelled: the rows come in some order.
   */
  method MakeRows(logDict: LogDict, timeSum: seq<string> -> real) returns (rows: seq<Row>)
    ensures RowsOf(logDict, timeSum, rows)
    ensures |rows| == |logDict.Keys|
  {
    var todo := logDict.Keys;
    rows := [];
    while todo != {}
      invariant todo <= logDict.Keys
      invariant |rows| + |todo| == |logDict.Keys|
      invariant forall i | 0 <= i < |rows| :: rows[i].url in logDict && rows[i].url !in todo
                                              && rows[i] == RowOf(logDict, rows[i].url, timeSum)
      invariant forall i, j | 0 <= i < j < |rows| :: rows[i].url != rows[j].url
      invariant forall url | url in logDict && url !in todo :: exists i | 0 <= i < |rows| :: rows[i].url == url
      decreases |todo|
    {
      var url :| url in todo;
      var before := rows;
      rows := rows + [RowOf(logDict, url, timeSum)];
      todo := todo - {url};
      forall u | u in logDict && u !in todo
        ensures exists i | 0 <= i < |rows| :: rows[i].url == u
      {
        if u == url {
          assert rows[|before|].url == u;
        } else {
          var i :| 0 <= i < |before| && before[i].url == u;
          assert rows[i].url == u;
        }
      }
    }
  }

  /** Rows ordered by `time_sum`, largest first. */
  predicate NonIncreasing(rows: seq<Row>)
  {
    forall i, j | 0 <= i < j < |rows| :: rows[i].timeSum >= rows[j].timeSum
  }

  /** `row` placed before the first row whose `time_sum` is not larger than its own. */
  function Insert(row: Row, sorted: seq<Row>): (r: seq<Row>)
    ensures |r| == |sorted| + 1
    ensures multiset(r) == multiset(sorted) + multiset{row}
  {
    if sorted == [] || row.timeSum >= sorted[0].timeSum then [row] + sorted
    else
      assert sorted == [sorted[0]] + sorted[1..];
      [sorted[0]] + Insert(row, sorted[1..])
  }

  /** `sorted(rows, key=time_sum, reverse=True)`. */
  function SortDescending(rows: seq<Row>): (r: seq<Row>)
    ensures |r| == |rows|
  {
    if rows == [] then [] else Insert(rows[0], SortDescending(rows[1..]))
  }

  /** Inserting into an ordered sequence keeps it ordered. */
  lemma {:induction false} InsertNonIncreasing(row: Row, sorted: seq<Row>)
    requires NonIncreasing(sorted)
    ensures NonIncreasing(Insert(row, sorted))
    ensures Insert(row, sorted) != [] && (Insert(row, sorted)[0] == row || (sorted != [] && Insert(row, sorted)[0] == sorted[0]))
  {
    if sorted != [] && row.timeSum < sorted[0].timeSum {
      InsertNonIncreasing(row, sorted[1..]);
    }
  }

  /** The sorted table is ordered by `time_sum`, largest first. */
  lemma {:induction false} SortNonIncreasing(rows: seq<Row>)
    ensures NonIncreasing(SortDescending(rows))
  {
    if rows != [] {
      SortNonIncreasing(rows[1..]);
      InsertNonIncreasing(rows[0], SortDescending(rows[1..]));
    }
  }

  /** Sorting only reorders the rows. */
  lemma {:induction false} SortPermutes(rows: seq<Row>)
    ensures multiset(SortDescending(rows)) == multiset(rows)
  {
    if rows != [] {
      SortPermutes(rows[1..]);
      assert rows == [rows[0]] + rows[1..];
    }
  }

  /** The rows whose `time_sum` is `v`, in their order. */
  function WithSum(rows: seq<Row>, v: real): (r: seq<Row>)
    ensures |r| <= |rows|
  {
    if rows == [] then []
    else (if rows[0].timeSum == v then [rows[0]] else []) + WithSum(rows[1..], v)
  }

  /** Inserting a row puts it ahead of the rows with its own `time_sum`. */
  lemma {:induction false} InsertWithSum(row: Row, sorted: seq<Row>, v: real)
    ensures WithSum(Insert(row, sorted), v) == (if row.timeSum == v then [row] else []) + WithSum(sorted, v)
  {
    if sorted == [] || row.timeSum >= sorted[0].timeSum {
      assert ([row] + sorted)[1..] == sorted;
    } else {
      InsertWithSum(row, sorted[1..], v);
      assert ([sorted[0]] + Insert(row, sorted[1..]))[1..] == Insert(row, sorted[1..]);
    }
  }

  /** The sort is stable: rows with the same `time_sum` keep their relative order. */
  lemma {:induction false} SortStable(rows: seq<Row>, v: real)
    ensures WithSum(SortDescending(rows), v) == WithSum(rows, v)
  {
    if rows != [] {
      SortStable(rows[1..], v);
      InsertWithSum(rows[0], SortDescending(rows[1..]), v);
    }
  }

  /** The Python slice `rows[:n]`: a negative `n` counts from the end. */
  function Slice(rows: seq<Row>, n: int): (r: seq<Row>)
    ensures n >= 0 ==> |r| == if n <= |rows| then n else |rows|
    ensures n < 0 ==> |r| == if |rows| + n >= 0 then |rows| + n else 0
    ensures r == rows[..|r|]
  {
    var end := if n >= 0 then (if n <= |rows| then n else |rows|) else (if |rows| + n >= 0 then |rows| + n else 0);
    rows[..end]
  }

  /** A prefix of an ordered sequence holds rows no smaller than any row left out. */
  lemma SliceKeepsLargest(rows: seq<Row>, n: int)
    requires NonIncreasing(rows)
    ensures NonIncreasing(Slice(rows, n))
    ensures forall i, j | 0 <= i < |Slice(rows, n)| <= j < |rows| :: Slice(rows, n)[i].timeSum >= rows[j].timeSum
  {
  }

  /** What a table for `logDict` is, whatever order the dictionary gave its rows in. */
  ghost predicate TableOf(logDict: LogDict, timeSum: seq<string> -> real, reportSize: int, table: seq<Row>)
  {
    exists rows | RowsOf(logDict, timeSum, rows) && |rows| == |logDict.Keys| ::
      table == Slice(SortDescending(rows), reportSize)
  }

  /** The rows of `make_log_table`, sorted and cut to `reportSize`. */
  method MakeTable(logDict: LogDict, timeSum: seq<string> -> real, reportSize: int) returns (table: seq<Row>)
    ensures TableOf(logDict, timeSum, reportSize, table)
  {
    var rows := MakeRows(logDict, timeSum);
    table := Slice(SortDescending(rows), reportSize);
  }

  /** A sequence without repeated elements holds each value at most once. */
  lemma {:induction false} DistinctOnce(s: seq<Row>, x: Row)
    requires forall i, j | 0 <= i < j < |s| :: s[i] != s[j]
    ensures multiset(s)[x] <= 1
  {
    if s != [] {
      DistinctOnce(s[1..], x);
      assert s == [s[0]] + s[1..];
      assert s[0] !in s[1..];
    }
  }

  /** A value at two positions is held at least twice. */
  lemma Twice(s: seq<Row>, i: int, j: int)
    requires 0 <= i < j < |s| && s[i] == s[j]
    ensures multiset(s)[s[i]] >= 2
  {
    assert s == s[..i] + [s[i]] + s[i + 1..j] + [s[j]] + s[j + 1..];
  }

  /** Every row of a reordering is a row of the original. */
  lemma ReorderedRowsValid(logDict: LogDict, timeSum: seq<string> -> real, rows: seq<Row>, other: seq<Row>)
    requires forall i | 0 <= i < |rows| :: rows[i].url in logDict && rows[i] == RowOf(logDict, rows[i].url, timeSum)
    requires multiset(other) == multiset(rows)
    ensures forall k | 0 <= k < |other| :: other[k].url in logDict && other[k] == RowOf(logDict, other[k].url, timeSum)
  {
    forall k | 0 <= k < |other|
      ensures other[k].url in logDict && other[k] == RowOf(logDict, other[k].url, timeSum)
    {
      assert other[k] in multiset(rows);
    }
  }

  /** A reordering of rows with distinct URLs of one dictionary has distinct URLs. */
  lemma ReorderedUrlsDistinct(logDict: LogDict, timeSum: seq<string> -> real, rows: seq<Row>, other: seq<Row>)
    requires forall i | 0 <= i < |other| :: other[i].url in logDict && other[i] == RowOf(logDict, other[i].url, timeSum)
    requires forall i, j | 0 <= i < j < |rows| :: rows[i].url != rows[j].url
    requires multiset(other) == multiset(rows)
    ensures forall i, j | 0 <= i < j < |other| :: other[i].url != other[j].url
  {
    forall i, j | 0 <= i < j < |other|
      ensures other[i].url != other[j].url
    {
      if other[i].url == other[j].url {
        Twice(other, i, j);
        DistinctOnce(rows, other[i]);
      }
    }
  }

  /** A reordering covers the URLs its original covers. */
  lemma ReorderedUrlsCover(logDict: LogDict, rows: seq<Row>, other: seq<Row>)
    requires forall url | url in logDict :: exists i | 0 <= i < |rows| :: rows[i].url == url
    requires multiset(other) == multiset(rows)
    ensures forall url | url in logDict :: exists k | 0 <= k < |other| :: other[k].url == url
  {
    forall url | url in logDict
      ensures exists k | 0 <= k < |other| :: other[k].url == url
    {
      var i :| 0 <= i < |rows| && rows[i].url == url;
      assert rows[i] in multiset(other);
    }
  }

  /** Sorting the rows of a dictionary gives rows of that dictionary again. */
  lemma SortedRowsOf(logDict: LogDict, timeSum: seq<string> -> real, rows: seq<Row>)
    requires RowsOf(logDict, timeSum, rows)
    ensures RowsOf(logDict, timeSum, SortDescending(rows))
  {
    var sorted := SortDescending(rows);
    SortPermutes(rows);
    ReorderedRowsValid(logDict, timeSum, rows, sorted);
    ReorderedUrlsDistinct(logDict, timeSum, rows, sorted);
    ReorderedUrlsCover(logDict, rows, sorted);
  }

  /** A URL missing from a prefix of ordered rows is no larger than any row in the prefix. */
  lemma MissingNoLarger(logDict: LogDict, timeSum: seq<string> -> real, sorted: seq<Row>, table: seq<Row>)
    requires NonIncreasing(sorted) && |table| <= |sorted| && table == sorted[..|table|]
    requires forall k | 0 <= k < |sorted| :: sorted[k].url in logDict && sorted[k] == RowOf(logDict, sorted[k].url, timeSum)
    requires forall url | url in logDict :: exists k | 0 <= k < |sorted| :: sorted[k].url == url
    ensures forall url, i | url in logDict && 0 <= i < |table| && (forall j | 0 <= j < |table| :: table[j].url != url) ::
      RowOf(logDict, url, timeSum).timeSum <= table[i].timeSum
  {
    forall url, i | url in logDict && 0 <= i < |table| && (forall j | 0 <= j < |table| :: table[j].url != url)
      ensures RowOf(logDict, url, timeSum).timeSum <= table[i].timeSum
    {
      var k :| 0 <= k < |sorted| && sorted[k].url == url;
      assert forall j | 0 <= j < |table| :: sorted[j].url != url;
      assert table[i] == sorted[i];
    }
  }

  /** A prefix of a dictionary's rows keeps their validity and their distinct URLs. */
  lemma PrefixRows(logDict: LogDict, timeSum: seq<string> -> real, sorted: seq<Row>, table: seq<Row>)
    requires RowsOf(logDict, timeSum, sorted) && |table| <= |sorted| && table == sorted[..|table|]
    ensures forall i | 0 <= i < |table| :: table[i].url in logDict && table[i] == RowOf(logDict, table[i].url, timeSum)
    ensures forall i, j | 0 <= i < j < |table| :: table[i].url != table[j].url
  {
    assert forall i | 0 <= i < |table| :: table[i] == sorted[i];
  }

  /** What a prefix of a dictionary's ordered rows holds. */
  lemma PrefixTable(logDict: LogDict, timeSum: seq<string> -> real, sorted: seq<Row>, table: seq<Row>)
    requires NonIncreasing(sorted) && RowsOf(logDict, timeSum, sorted) && |sorted| == |logDict.Keys|
    requires |table| <= |sorted| && table == sorted[..|table|]
    ensures NonIncreasing(table)
    ensures forall i | 0 <= i < |table| :: table[i].url in logDict && table[i] == RowOf(logDict, table[i].url, timeSum)
    ensures forall i, j | 0 <= i < j < |table| :: table[i].url != table[j].url
    ensures forall url, i | url in logDict && 0 <= i < |table| && (forall j | 0 <= j < |table| :: table[j].url != url) ::
      RowOf(logDict, url, timeSum).timeSum <= table[i].timeSum
    ensures |table| == |logDict.Keys| ==> forall url | url in logDict :: exists i | 0 <= i < |table| :: table[i].url == url
  {
    PrefixRows(logDict, timeSum, sorted, table);
    MissingNoLarger(logDict, timeSum, sorted, table);
    if |table| == |logDict.Keys| {
      assert table == sorted;
    }
  }

  /**
   * The table is ordered by `time_sum`, largest first, and holds `reportSize` rows (or every row
   * when there are fewer). Each row belongs to its own URL and counts that URL's list, and a URL
   * left out of the table has no larger `time_sum` than any URL in it.
   */
  lemma TableProperties(logDict: LogDict, timeSum: seq<string> -> real, reportSize: int, table: seq<Row>)
    requires TableOf(logDict, timeSum, reportSize, table)
    ensures NonIncreasing(table)
    ensures reportSize >= 0 ==> |table| == if reportSize <= |logDict.Keys| then reportSize else |logDict.Keys|
    ensures forall i | 0 <= i < |table| :: table[i].url in logDict && table[i] == RowOf(logDict, table[i].url, timeSum)
    ensures forall i, j | 0 <= i < j < |table| :: table[i].url != table[j].url
    ensures forall url, i | url in logDict && 0 <= i < |table| && (forall j | 0 <= j < |table| :: table[j].url != url) ::
      RowOf(logDict, url, timeSum).timeSum <= table[i].timeSum
    ensures |table| == |logDict.Keys| ==> forall url | url in logDict :: exists i | 0 <= i < |table| :: table[i].url == url
  {
    var rows: seq<Row> :| RowsOf(logDict, timeSum, rows) && |rows| == |logDict.Keys| && table == Slice(SortDescending(rows), reportSize);
    var sorted := SortDescending(rows);
    SortNonIncreasing(rows);
    SortedRowsOf(logDict, timeSum, rows);
    PrefixTable(logDict, timeSum, sorted, table);
  }
}
