/** `extractTradingConditions` and `compareData`: the trading-conditions
    table of a stock's page is read into a header-to-value map, and every
    value of the stock's row (`Config.entries`) is reported where it equals a
    trading condition. */
module TradingConditions {
  import opened Outcomes
  import opened JavaStrings
  import opened LinkedMaps
  import opened Dom
  import opened Pagination

  /** The header of a row: the `strong` text of `td[1]`, else the text of
      `td[1]`, else "" when the row has no `td[1]`. It is not trimmed. */
  function Header(row: TradingRow): string {
    match row.first
    case None => ""
    case Some(td) => if td.strong.Some? then td.strong.value else td.text
  }

  /** The value of a row: the same choice on `td[2]`, trimmed. */
  function Value(row: TradingRow): string {
    match row.second
    case None => ""
    case Some(td) => Trim(if td.strong.Some? then td.strong.value else td.text)
  }

  /** A row is stored when both its header and its value are non-empty. */
  predicate Stored(row: TradingRow) {
    Header(row) != "" && Value(row) != ""
  }

  /** The HashMap after the rows in order: each stored row puts its header,
      replacing what an earlier row with the same header put. */
  function TradingData(rows: seq<TradingRow>): map<string, string>
    decreases |rows|
  {
    if rows == [] then map[]
    else
      var data := TradingData(rows[..|rows| - 1]);
      var row := rows[|rows| - 1];
      if Stored(row) then data[Header(row) := Value(row)] else data
  }

  /** extractTradingConditions (lines 438-473). */
  method ExtractTradingConditions(rows: seq<TradingRow>) returns (data: map<string, string>)
    ensures data == TradingData(rows)
  {
    data := map[];
    var i := 0;
    while i < |rows|
      invariant i <= |rows|
      invariant data == TradingData(rows[..i])
    {
      var row := rows[i];
      var header := "";
      var value := "";
      if row.first.Some? {
        if row.first.value.strong.Some? {
          header := row.first.value.strong.value;
        } else {
          header := row.first.value.text;
        }
      }
      if row.second.Some? {
        if row.second.value.strong.Some? {
          value := Trim(row.second.value.strong.value);
        } else {
          value := Trim(row.second.value.text);
        }
      }
      if header != "" && value != "" {
        data := data[header := value];
      }
      assert rows[..i + 1][..i] == rows[..i];
      i := i + 1;
    }
    assert rows[..i] == rows;
  }

  /** A header is a key exactly when some stored row has it. */
  lemma {:induction false} TradingDataKeys(rows: seq<TradingRow>, k: string)
    ensures k in TradingData(rows) <==>
      exists i :: 0 <= i < |rows| && Stored(rows[i]) && Header(rows[i]) == k
    decreases |rows|
  {
    if rows != [] {
      var front := rows[..|rows| - 1];
      TradingDataKeys(front, k);
      assert forall i :: 0 <= i < |front| ==> front[i] == rows[i];
    }
  }

  /** The last stored row with a header decides its value. */
  lemma {:induction false} TradingDataLastWins(rows: seq<TradingRow>, k: string) returns (i: nat)
    requires k in TradingData(rows)
    ensures i < |rows| && Stored(rows[i]) && Header(rows[i]) == k
    ensures TradingData(rows)[k] == Value(rows[i])
    ensures forall j :: i < j < |rows| ==> !(Stored(rows[j]) && Header(rows[j]) == k)
    decreases |rows|
  {
    var front := rows[..|rows| - 1];
    var last := rows[|rows| - 1];
    if Stored(last) && Header(last) == k {
      i := |rows| - 1;
    } else {
      i := TradingDataLastWins(front, k);
      assert forall j :: 0 <= j < |front| ==> front[j] == rows[j];
    }
  }

  /** Keys and values are never empty, and every value is already trimmed. */
  lemma TradingDataValues(rows: seq<TradingRow>, k: string)
    requires k in TradingData(rows)
    ensures k != "" && TradingData(rows)[k] != "" && Trim(TradingData(rows)[k]) == TradingData(rows)[k]
  {
    var i := TradingDataLastWins(rows, k);
    var td := rows[i].second.value;
    TrimIdempotent(if td.strong.Some? then td.strong.value else td.text);
  }

  // ---------------------------------------------------------------------
  // compareData
  // ---------------------------------------------------------------------

  /** One printed line: a column of the stock's row, the trading condition
      whose value it equals, and that common value. */
  datatype Report = Report(column: string, condition: string, value: string)

  /** `order` lists the keys of the HashMap in its (implementation-defined)
      iteration order: each key once, and nothing else. */
  ghost predicate Traversal(order: seq<string>, trading: map<string, string>) {
    (forall j, l :: 0 <= j < l < |order| ==> order[j] != order[l]) &&
    (forall t :: t in order <==> t in trading)
  }

  /** The report is one compareData prints: its column and condition hold the
      same value, which the report repeats. */
  predicate IsMatch(entries: LinkedMap, trading: map<string, string>, x: Report) {
    x.column in entries.values && x.condition in trading &&
    entries.values[x.column] == x.value && trading[x.condition] == x.value
  }

  predicate NoDuplicates(reports: seq<Report>) {
    forall j, l :: 0 <= j < l < |reports| ==> reports[j] != reports[l]
  }

  /** The inner loop over the first n trading conditions, for one column. */
  function ColumnReports(column: string, value: string, order: seq<string>, trading: map<string, string>, n: nat): seq<Report>
    requires n <= |order| && forall t :: t in order ==> t in trading
    decreases n
  {
    if n == 0 then []
    else
      var t := order[n - 1];
      ColumnReports(column, value, order, trading, n - 1) +
        (if trading[t] == value then [Report(column, t, value)] else [])
  }

  /** The outer loop over the first n columns, in the LinkedHashMap's order. */
  function EntryReports(entries: LinkedMap, order: seq<string>, trading: map<string, string>, n: nat): seq<Report>
    requires Valid(entries) && n <= |entries.keys| && forall t :: t in order ==> t in trading
    decreases n
  {
    if n == 0 then []
    else
      var k := entries.keys[n - 1];
      EntryReports(entries, order, trading, n - 1) +
        ColumnReports(k, entries.values[k], order, trading, |order|)
  }

  /** The inner loop of compareData (lines 483-488), for one column. */
  method ColumnMatches(column: string, value: string, order: seq<string>, trading: map<string, string>)
    returns (found: seq<Report>)
    requires forall t :: t in order ==> t in trading
    ensures found == ColumnReports(column, value, order, trading, |order|)
  {
    found := [];
    var j := 0;
    while j < |order|
      invariant j <= |order|
      invariant found == ColumnReports(column, value, order, trading, j)
    {
      var condition := order[j];
      if value == trading[condition] {
        found := found + [Report(column, condition, value)];
      }
      j := j + 1;
    }
  }

  /** compareData (lines 480-490) over `Config.entries`: null entries throw;
      otherwise the reports in the order of the two nested loops. */
  method CompareData(config: Config, trading: map<string, string>, order: seq<string>)
    returns (r: Result<seq<Report>>)
    requires config.entries.Some? ==> Valid(config.entries.value)
    requires Traversal(order, trading)
    ensures config.entries.None? ==> r == Failure(NullEntries)
    ensures config.entries.Some? ==>
      r == Success(EntryReports(config.entries.value, order, trading, |config.entries.value.keys|))
  {
    var entries := config.entries;
    if entries.None? {
      return Failure(NullEntries);
    }
    var m := entries.value;
    var reports := [];
    var i := 0;
    while i < |m.keys|
      invariant i <= |m.keys|
      invariant reports == EntryReports(m, order, trading, i)
    {
      var column := m.keys[i];
      var found := ColumnMatches(column, m.values[column], order, trading);
      reports := reports + found;
      i := i + 1;
    }
    return Success(reports);
  }

  /** The reports of one column are its matches among the conditions seen. */
  lemma {:induction false} ColumnReportsMembers(column: string, value: string, order: seq<string>,
                                                trading: map<string, string>, n: nat, x: Report)
    requires n <= |order| && forall t :: t in order ==> t in trading
    ensures x in ColumnReports(column, value, order, trading, n) <==>
      x.column == column && x.value == value && x.condition in order[..n] && trading[x.condition] == value
    decreases n
  {
    if n > 0 {
      ColumnReportsMembers(column, value, order, trading, n - 1, x);
      assert order[..n] == order[..n - 1] + [order[n - 1]];
    }
  }

  /** A column's reports name distinct conditions when the traversal does. */
  lemma {:induction false} ColumnReportsDistinct(column: string, value: string, order: seq<string>,
                                                 trading: map<string, string>, n: nat)
    requires n <= |order| && Traversal(order, trading)
    ensures NoDuplicates(ColumnReports(column, value, order, trading, n))
    decreases n
  {
    if n > 0 {
      var front := ColumnReports(column, value, order, trading, n - 1);
      ColumnReportsDistinct(column, value, order, trading, n - 1);
      forall j | 0 <= j < |front|
        ensures front[j].condition != order[n - 1]
      {
        ColumnReportsMembers(column, value, order, trading, n - 1, front[j]);
      }
    }
  }

  /** The reports of the first n columns are the matches of those columns. */
  lemma {:induction false} EntryReportsMembers(entries: LinkedMap, order: seq<string>,
                                               trading: map<string, string>, n: nat, x: Report)
    requires Valid(entries) && n <= |entries.keys| && Traversal(order, trading)
    ensures x in EntryReports(entries, order, trading, n) <==>
      x.column in entries.keys[..n] && IsMatch(entries, trading, x)
    decreases n
  {
    if n > 0 {
      var k := entries.keys[n - 1];
      EntryReportsMembers(entries, order, trading, n - 1, x);
      ColumnReportsMembers(k, entries.values[k], order, trading, |order|, x);
      assert order[..|order|] == order;
      assert entries.keys[..n] == entries.keys[..n - 1] + [k];
    }
  }

  /** No line is printed twice. */
  lemma {:induction false} EntryReportsDistinct(entries: LinkedMap, order: seq<string>,
                                                trading: map<string, string>, n: nat)
    requires Valid(entries) && n <= |entries.keys| && Traversal(order, trading)
    ensures NoDuplicates(EntryReports(entries, order, trading, n))
    decreases n
  {
    if n > 0 {
      var k := entries.keys[n - 1];
      var front := EntryReports(entries, order, trading, n - 1);
      var block := ColumnReports(k, entries.values[k], order, trading, |order|);
      EntryReportsDistinct(entries, order, trading, n - 1);
      ColumnReportsDistinct(k, entries.values[k], order, trading, |order|);
      forall j, l | 0 <= j < |front| && 0 <= l < |block|
        ensures front[j] != block[l]
      {
        EntryReportsMembers(entries, order, trading, n - 1, front[j]);
        ColumnReportsMembers(k, entries.values[k], order, trading, |order|, block[l]);
      }
    }
  }

  /** compareData prints each matching (column, condition) pair exactly once:
      a report is listed exactly when it is a match, and none twice. */
  lemma CompareDataReports(entries: LinkedMap, order: seq<string>, trading: map<string, string>)
    requires Valid(entries) && Traversal(order, trading)
    ensures var reports := EntryReports(entries, order, trading, |entries.keys|);
      NoDuplicates(reports) && forall x :: x in reports <==> IsMatch(entries, trading, x)
  {
    EntryReportsDistinct(entries, order, trading, |entries.keys|);
    forall x
      ensures x in EntryReports(entries, order, trading, |entries.keys|) <==> IsMatch(entries, trading, x)
    {
      EntryReportsMembers(entries, order, trading, |entries.keys|, x);
      assert entries.keys[..|entries.keys|] == entries.keys;
    }
  }

  /** The pairs compareData reports: every column and condition with equal values. */
  ghost function MatchSet(entries: LinkedMap, trading: map<string, string>): set<Report> {
    set k, t | k in entries.values && t in trading && entries.values[k] == trading[t] :: Report(k, t, trading[t])
  }

  /** A sequence without duplicates has as many elements as its set. */
  lemma {:induction false} DistinctCard(s: seq<Report>)
    requires NoDuplicates(s)
    ensures |set x | x in s| == |s|
    decreases |s|
  {
    if s != [] {
      var front := s[..|s| - 1];
      assert NoDuplicates(front);
      DistinctCard(front);
      assert (set x | x in s) == (set x | x in front) + {s[|s| - 1]};
      assert s[|s| - 1] !in (set x | x in front);
    }
  }

  /** compareData reports as many lines as there are matching pairs. */
  lemma CompareDataCount(entries: LinkedMap, order: seq<string>, trading: map<string, string>)
    requires Valid(entries) && Traversal(order, trading)
    ensures |EntryReports(entries, order, trading, |entries.keys|)| == |MatchSet(entries, trading)|
  {
    var reports := EntryReports(entries, order, trading, |entries.keys|);
    CompareDataReports(entries, order, trading);
    DistinctCard(reports);
    assert (set x | x in reports) == MatchSet(entries, trading);
  }
}
