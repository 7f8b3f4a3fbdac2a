/** `extractTableData`: every data row of one page, in page order, becomes
    the map `extractRowData` builds for it; the first data row with more
    cells than there are headers aborts the whole page. */
module TableExtraction {
  import opened Outcomes
  import opened JavaStrings
  import opened LinkedMaps
  import opened Dom
  import opened RowExtraction
  import opened RowProperties

  // ---------------------------------------------------------------------
  // Collecting the kept results of a loop, in order
  // ---------------------------------------------------------------------

  /** The positions below n whose `keep` flag is set, in order. */
  function KeptIndices(keep: seq<bool>, n: nat): seq<nat>
    requires n <= |keep|
  {
    if n == 0 then [] else KeptIndices(keep, n - 1) + (if keep[n - 1] then [n - 1] else [])
  }

  /** The kept results below n, in order; the first kept failure wins. */
  function Gather(results: seq<Result<LinkedMap>>, keep: seq<bool>, n: nat): Result<seq<LinkedMap>>
    requires n <= |results| == |keep|
  {
    if n == 0 then Success([])
    else
      var before := Gather(results, keep, n - 1);
      if before.Failure? || !keep[n - 1] then before
      else if results[n - 1].Failure? then Failure(results[n - 1].error)
      else Success(before.value + [results[n - 1].value])
  }

  /** The kept positions are increasing, in range and are exactly the kept ones. */
  lemma {:induction false} KeptIndicesSpec(keep: seq<bool>, n: nat)
    requires n <= |keep|
    ensures var idx := KeptIndices(keep, n);
      && |idx| <= n
      && (forall k :: 0 <= k < |idx| ==> idx[k] < n && keep[idx[k]])
      && (forall k, l :: 0 <= k < l < |idx| ==> idx[k] < idx[l])
      && (forall j :: 0 <= j < n && keep[j] ==> j in idx)
  {
    if n > 0 {
      KeptIndicesSpec(keep, n - 1);
    }
  }

  /** Gathering succeeds exactly when no kept result fails. */
  lemma {:induction false} GatherSucceeds(results: seq<Result<LinkedMap>>, keep: seq<bool>, n: nat)
    requires n <= |results| == |keep|
    ensures Gather(results, keep, n).Success? <==>
      forall j :: 0 <= j < n && keep[j] ==> results[j].Success?
  {
    if n > 0 {
      GatherSucceeds(results, keep, n - 1);
    }
  }

  /** A failed gathering carries the error of a kept result. */
  lemma {:induction false} GatherError(results: seq<Result<LinkedMap>>, keep: seq<bool>, n: nat) returns (j: nat)
    requires n <= |results| == |keep| && Gather(results, keep, n).Failure?
    ensures j < n && keep[j] && results[j] == Failure(Gather(results, keep, n).error)
  {
    if Gather(results, keep, n - 1).Failure? {
      j := GatherError(results, keep, n - 1);
    } else {
      j := n - 1;
    }
  }

  /** A successful gathering holds the kept results, in order. */
  lemma {:induction false} GatherValues(results: seq<Result<LinkedMap>>, keep: seq<bool>, n: nat)
    requires n <= |results| == |keep| && Gather(results, keep, n).Success?
    ensures var t := Gather(results, keep, n).value;
      var idx := KeptIndices(keep, n);
      && |t| == |idx|
      && forall k :: 0 <= k < |t| ==> idx[k] < n && results[idx[k]] == Success(t[k])
  {
    if n > 0 {
      GatherValues(results, keep, n - 1);
      KeptIndicesSpec(keep, n - 1);
    }
  }

  /** Once a prefix fails, every longer prefix fails the same way. */
  lemma {:induction false} GatherFailed(results: seq<Result<LinkedMap>>, keep: seq<bool>, m: nat, n: nat)
    requires m <= n <= |results| == |keep| && Gather(results, keep, m).Failure?
    ensures Gather(results, keep, n) == Gather(results, keep, m)
    decreases n
  {
    if n > m {
      GatherFailed(results, keep, m, n - 1);
    }
  }

  // ---------------------------------------------------------------------
  // extractTableData
  // ---------------------------------------------------------------------

  /** The class test of each of the first n rows of a page. */
  function DataRowMask(rows: seq<Row>, n: nat): (keep: seq<bool>)
    requires n <= |rows|
    ensures |keep| == n
  {
    if n == 0 then [] else DataRowMask(rows, n - 1) + [IsDataRow(rows[n - 1])]
  }

  /** What extractRowData gives for each of the first n rows of a page. */
  function RowResults(rows: seq<Row>, headers: seq<string>, n: nat): (results: seq<Result<LinkedMap>>)
    requires n <= |rows|
    ensures |results| == n
  {
    if n == 0 then [] else RowResults(rows, headers, n - 1) + [RowAt(rows, n - 1, headers)]
  }

  lemma {:induction false} DataRowMaskAt(rows: seq<Row>, n: nat, j: nat)
    requires j < n <= |rows|
    ensures DataRowMask(rows, n)[j] == IsDataRow(rows[j])
  {
    if j < n - 1 {
      DataRowMaskAt(rows, n - 1, j);
    }
  }

  lemma {:induction false} RowResultsAt(rows: seq<Row>, headers: seq<string>, n: nat, j: nat)
    requires j < n <= |rows|
    ensures RowResults(rows, headers, n)[j] == RowAt(rows, j, headers)
  {
    if j < n - 1 {
      RowResultsAt(rows, headers, n - 1, j);
    }
  }

  /** The list extractTableData returns for a page's rows. */
  function TableData(rows: seq<Row>, headers: seq<string>): Result<seq<LinkedMap>> {
    Gather(RowResults(rows, headers, |rows|), DataRowMask(rows, |rows|), |rows|)
  }

  /** The positions of the rows extractTableData keeps. */
  function DataRowIndices(rows: seq<Row>): seq<nat> {
    KeptIndices(DataRowMask(rows, |rows|), |rows|)
  }

  /** Every data row fits the headers. */
  predicate RowsFit(rows: seq<Row>, headers: seq<string>) {
    forall j :: 0 <= j < |rows| && IsDataRow(rows[j]) ==> |rows[j].cells| <= |headers|
  }

  /** extractRowData's outcome on each row of a page. */
  lemma RowResultsOutcome(rows: seq<Row>, headers: seq<string>)
    ensures forall j :: 0 <= j < |rows| ==>
      && (RowResults(rows, headers, |rows|)[j].Success? <==> |rows[j].cells| <= |headers|)
      && (RowResults(rows, headers, |rows|)[j].Failure? ==>
            RowResults(rows, headers, |rows|)[j].error == HeaderIndexOutOfBounds(|headers|, |headers|))
  {
    var results := RowResults(rows, headers, |rows|);
    forall j | 0 <= j < |rows|
      ensures results[j].Success? <==> |rows[j].cells| <= |headers|
      ensures results[j].Failure? ==> results[j].error == HeaderIndexOutOfBounds(|headers|, |headers|)
    {
      RowResultsAt(rows, headers, |rows|, j);
      RowOutcome(rows[j], FollowingChildRows(rows, j), headers);
    }
  }

  /** extractTableData succeeds exactly when every data row fits the headers;
      its failure is the out-of-bounds header lookup. */
  lemma TableDataOutcome(rows: seq<Row>, headers: seq<string>)
    ensures TableData(rows, headers).Success? <==> RowsFit(rows, headers)
    ensures TableData(rows, headers).Failure? ==>
      TableData(rows, headers).error == HeaderIndexOutOfBounds(|headers|, |headers|)
  {
    var results, keep := RowResults(rows, headers, |rows|), DataRowMask(rows, |rows|);
    GatherSucceeds(results, keep, |rows|);
    RowResultsOutcome(rows, headers);
    forall j | 0 <= j < |rows| ensures keep[j] == IsDataRow(rows[j]) {
      DataRowMaskAt(rows, |rows|, j);
    }
    if TableData(rows, headers).Failure? {
      var j := GatherError(results, keep, |rows|);
    }
  }

  /** A successful extractTableData holds, in page order, the row map of each
      data row and of nothing else. */
  lemma TableDataRows(rows: seq<Row>, headers: seq<string>)
    requires TableData(rows, headers).Success?
    ensures var t := TableData(rows, headers).value;
      var idx := DataRowIndices(rows);
      && |t| == |idx| <= |rows|
      && (forall k :: 0 <= k < |t| ==>
            idx[k] < |rows| && IsDataRow(rows[idx[k]]) && RowAt(rows, idx[k], headers) == Success(t[k]))
      && (forall k, l :: 0 <= k < l < |idx| ==> idx[k] < idx[l])
      && (forall j :: 0 <= j < |rows| && IsDataRow(rows[j]) ==> j in idx)
  {
    var results, keep := RowResults(rows, headers, |rows|), DataRowMask(rows, |rows|);
    GatherValues(results, keep, |rows|);
    KeptIndicesSpec(keep, |rows|);
    forall j | 0 <= j < |rows|
      ensures keep[j] == IsDataRow(rows[j]) && results[j] == RowAt(rows, j, headers)
    {
      DataRowMaskAt(rows, |rows|, j);
      RowResultsAt(rows, headers, |rows|, j);
    }
  }

  /** The loop of extractTableData (lines 295-303) over the rows of one page. */
  method ExtractTableData(rows: seq<Row>, headers: seq<string>) returns (r: Result<seq<LinkedMap>>)
    ensures r == TableData(rows, headers)
  {
    ghost var results, keep := RowResults(rows, headers, |rows|), DataRowMask(rows, |rows|);
    var tableData := [];
    var j := 0;
    while j < |rows|
      invariant j <= |rows|
      invariant Gather(results, keep, j) == Success(tableData)
    {
      var row := rows[j];
      DataRowMaskAt(rows, |rows|, j);
      if Contains(row.cls, "parent") || Contains(row.cls, "odd") || Contains(row.cls, "even") {
        var hidden := FollowingChildRows(rows, j);
        var rowData := ExtractRowData(row, hidden, headers);
        RowResultsAt(rows, headers, |rows|, j);
        assert results[j] == rowData;
        if rowData.Failure? {
          GatherFailed(results, keep, j + 1, |rows|);
          return Failure(rowData.error);
        }
        tableData := tableData + [rowData.value];
      }
      j := j + 1;
    }
    return Success(tableData);
  }

  // ---------------------------------------------------------------------
  // The child-row locator of line 331
  // ---------------------------------------------------------------------

  /** The located rows all carry the class "child". */
  lemma {:induction false} ChildRowsInAreChildren(rs: seq<Row>)
    ensures |ChildRowsIn(rs)| <= |rs|
    ensures forall k :: 0 <= k < |ChildRowsIn(rs)| ==> ChildRowsIn(rs)[k].cls == ChildClass
    decreases |rs|
  {
    if rs != [] {
      ChildRowsInAreChildren(rs[..|rs| - 1]);
    }
  }

  lemma {:induction false} ChildRowsInNone(rs: seq<Row>)
    requires forall l :: 0 <= l < |rs| ==> rs[l].cls != ChildClass
    ensures ChildRowsIn(rs) == []
    decreases |rs|
  {
    if rs != [] {
      ChildRowsInNone(rs[..|rs| - 1]);
    }
  }

  lemma {:induction false} ChildRowsInFirst(r: Row, rs: seq<Row>)
    ensures ChildRowsIn([r] + rs) == (if r.cls == ChildClass then [r] else []) + ChildRowsIn(rs)
    decreases |rs|
  {
    if rs == [] {
      assert [r] + rs == [r];
      assert [r][..0] == [];
    } else {
      var front := rs[..|rs| - 1];
      assert ([r] + rs)[..|[r] + rs| - 1] == [r] + front;
      ChildRowsInFirst(r, front);
    }
  }

  /** When no child row follows row j's own one, the two locators agree. */
  lemma LocatorsAgree(rows: seq<Row>, j: nat)
    requires j < |rows|
    requires forall l :: j + 1 < l < |rows| ==> rows[l].cls != ChildClass
    ensures FollowingChildRows(rows, j) == OwnChildRows(rows, j)
  {
    if j + 1 < |rows| {
      var later := rows[j + 2..];
      assert rows[j + 1..] == [rows[j + 1]] + later;
      ChildRowsInFirst(rows[j + 1], later);
      ChildRowsInNone(later);
    } else {
      assert rows[j + 1..] == [];
    }
  }

  /** RowResults with each row merging only its own child row. */
  function RowResultsOwn(rows: seq<Row>, headers: seq<string>, n: nat): (results: seq<Result<LinkedMap>>)
    requires n <= |rows|
    ensures |results| == n
  {
    if n == 0 then [] else RowResultsOwn(rows, headers, n - 1) + [RowAtOwn(rows, n - 1, headers)]
  }

  lemma {:induction false} RowResultsOwnAt(rows: seq<Row>, headers: seq<string>, n: nat, j: nat)
    requires j < n <= |rows|
    ensures RowResultsOwn(rows, headers, n)[j] == RowAtOwn(rows, j, headers)
  {
    if j < n - 1 {
      RowResultsOwnAt(rows, headers, n - 1, j);
    }
  }

  /** The table extractTableData evidently means to build: each data row
      merges its own child row only. */
  function TableDataOwn(rows: seq<Row>, headers: seq<string>): Result<seq<LinkedMap>> {
    Gather(RowResultsOwn(rows, headers, |rows|), DataRowMask(rows, |rows|), |rows|)
  }

  /** Gathering reads the results at kept positions only. */
  lemma {:induction false} GatherAgree(results: seq<Result<LinkedMap>>, others: seq<Result<LinkedMap>>, keep: seq<bool>, n: nat)
    requires n <= |results| == |others| == |keep|
    requires forall j :: 0 <= j < n && keep[j] ==> results[j] == others[j]
    ensures Gather(results, keep, n) == Gather(others, keep, n)
  {
    if n > 0 {
      GatherAgree(results, others, keep, n - 1);
    }
  }

  /** On a page where no child row sits after the row following a data row
      (in particular a page with no expanded row), the table as written and
      the corrected one are the same. */
  lemma TableDataAgree(rows: seq<Row>, headers: seq<string>)
    requires forall j, l :: 0 <= j && j + 1 < l < |rows| && IsDataRow(rows[j]) ==> rows[l].cls != ChildClass
    ensures TableData(rows, headers) == TableDataOwn(rows, headers)
  {
    var results, others := RowResults(rows, headers, |rows|), RowResultsOwn(rows, headers, |rows|);
    var keep := DataRowMask(rows, |rows|);
    forall j | 0 <= j < |rows| && keep[j]
      ensures results[j] == others[j]
    {
      DataRowMaskAt(rows, |rows|, j);
      RowResultsAt(rows, headers, |rows|, j);
      RowResultsOwnAt(rows, headers, |rows|, j);
      LocatorsAgree(rows, j);
    }
    GatherAgree(results, others, keep, |rows|);
  }

  /** The rows of the example below: two expanded parent rows, each followed
      by its own child row holding a "Price" item. */
  function TwoExpandedRows(): seq<Row> {
    [ Row("parent", [Cell("ORK.OL", [])], []),
      Row(ChildClass, [], [HiddenItem("Price", "10", [])]),
      Row("parent", [Cell("EQNR.OL", [])], []),
      Row(ChildClass, [], [HiddenItem("Price", "20", [])]) ]
  }

  /** As written, the first parent row also merges the second row's child
      row, so it reports the second row's price. */
  lemma FollowingChildRowsTakeOtherRows()
    ensures var rows := TwoExpandedRows();
      && FollowingChildRows(rows, 0) == [rows[1], rows[3]]
      && Lookup(RowValues(rows[0], FollowingChildRows(rows, 0), ["Symbol"]), "Price") == Some("20")
  {
    var rows := TwoExpandedRows();
    assert rows[1..] == [rows[1]] + [rows[2], rows[3]];
    ChildRowsInFirst(rows[1], [rows[2], rows[3]]);
    ChildRowsInFirst(rows[2], [rows[3]]);
    ChildRowsInFirst(rows[3], []);
    var hidden := [rows[1], rows[3]];
    assert HiddenItems([rows[1]]) == rows[1].items by {
      assert [rows[1]][..0] == [];
    }
    assert HiddenItems(hidden) == rows[1].items + rows[3].items by {
      assert hidden[..1] == [rows[1]];
    }
    assert Trim("20") == "20";
    PriceFromLastItem(rows[0], hidden, "20");
  }

  /** With its own child row only, the first parent row reports its own price. */
  lemma OwnChildRowsKeepOwnPrice()
    ensures var rows := TwoExpandedRows();
      && OwnChildRows(rows, 0) == [rows[1]]
      && Lookup(RowValues(rows[0], OwnChildRows(rows, 0), ["Symbol"]), "Price") == Some("10")
  {
    var rows := TwoExpandedRows();
    assert HiddenItems([rows[1]]) == rows[1].items by {
      assert [rows[1]][..0] == [];
    }
    assert Trim("10") == "10";
    PriceFromLastItem(rows[0], [rows[1]], "10");
  }

  /** A one-cell parent row whose last merged item is a "Price" item reports that price. */
  lemma PriceFromLastItem(row: Row, hidden: seq<Row>, price: string)
    requires row == TwoExpandedRows()[0] && Trim(price) == price
    requires var items := HiddenItems(hidden); |items| > 0 && items[|items| - 1] == HiddenItem("Price", price, [])
    ensures Lookup(RowValues(row, hidden, ["Symbol"]), "Price") == Some(price)
  {
    assert OccursAt(row.cls, "parent", 0);
    assert Trim("Price") == "Price";
    RowHiddenValue(row, hidden, ["Symbol"], |HiddenItems(hidden)| - 1);
  }
}
