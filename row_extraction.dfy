/** `extractRowData` and `extractTableData`: one table row becomes an ordered
    map from trimmed header to trimmed cell text, with the synthetic key
    "ReadmoreHref" for links and, for responsive "parent" rows, the title/value
    pairs of the hidden "child" row merged in.

    `RowData` follows the loops of the source, one pass at a time;
    RowProperties says what the resulting map holds. */
module RowExtraction {
  import opened Outcomes
  import opened JavaStrings
  import opened LinkedMaps
  import opened Dom

  /** The synthetic key under which links are stored. */
  const ReadmoreKey := "ReadmoreHref"

  /** The exact class of a responsive child row (the `[@class='child']` test). */
  const ChildClass := "child"

  predicate IsParent(row: Row) {
    Contains(row.cls, "parent")
  }

  /** The class test of `extractTableData`: parent rows and the odd/even data rows. */
  predicate IsDataRow(row: Row) {
    Contains(row.cls, "parent") || Contains(row.cls, "odd") || Contains(row.cls, "even")
  }

  // ---------------------------------------------------------------------
  // The puts one row performs, pass by pass
  // ---------------------------------------------------------------------

  /** A hidden item's value: the trimmed href of its first link, else its trimmed data. */
  function HiddenValue(item: HiddenItem): string {
    if |item.hrefs| > 0 then Trim(item.hrefs[0]) else Trim(item.data)
  }

  /** A hidden item's key: its trimmed title, or ReadmoreKey when that is empty. */
  function HiddenKey(item: HiddenItem): string {
    if |Trim(item.title)| > 0 then Trim(item.title) else ReadmoreKey
  }

  /** The `li` items of the located child rows, row after row. */
  function HiddenItems(hidden: seq<Row>): seq<HiddenItem>
    decreases |hidden|
  {
    if hidden == [] then []
    else HiddenItems(hidden[..|hidden| - 1]) + hidden[|hidden| - 1].items
  }

  /** One pass of the cell loop (lines 318-327). */
  function WithCell(m: LinkedMap, header: string, cell: Cell): LinkedMap {
    var m' := Put(m, Trim(header), Trim(cell.text));
    if |cell.hrefs| > 0 then Put(m', ReadmoreKey, Trim(cell.hrefs[0])) else m'
  }

  /** The map after the first n passes of the cell loop. */
  function CellsData(cells: seq<Cell>, headers: seq<string>, n: nat): LinkedMap
    requires n <= |cells| && n <= |headers|
  {
    if n == 0 then Empty else WithCell(CellsData(cells, headers, n - 1), headers[n - 1], cells[n - 1])
  }

  /** One pass of the hidden-item loop (lines 335-350). */
  function WithHiddenItem(m: LinkedMap, item: HiddenItem): LinkedMap {
    var m' := if |item.hrefs| > 0 then Put(m, ReadmoreKey, HiddenValue(item)) else m;
    Put(m', HiddenKey(item), HiddenValue(item))
  }

  function WithHiddenItems(m: LinkedMap, items: seq<HiddenItem>): LinkedMap
    decreases |items|
  {
    if items == [] then m
    else WithHiddenItem(WithHiddenItems(m, items[..|items| - 1]), items[|items| - 1])
  }

  /** The map `extractRowData` returns for `row`, whose hidden child rows are
      `hidden`; a row with more cells than there are headers fails on
      `headers.get(headers.size())`. */
  function RowData(row: Row, hidden: seq<Row>, headers: seq<string>): Result<LinkedMap> {
    if |row.cells| > |headers| then Failure(HeaderIndexOutOfBounds(|headers|, |headers|))
    else
      var cellsData := CellsData(row.cells, headers, |row.cells|);
      Success(if IsParent(row) then WithHiddenItems(cellsData, HiddenItems(hidden)) else cellsData)
  }

  // ---------------------------------------------------------------------
  // Locating a parent row's hidden rows
  // ---------------------------------------------------------------------

  /** The rows of `rs` whose class is exactly "child", in order. */
  function ChildRowsIn(rs: seq<Row>): seq<Row>
    decreases |rs|
  {
    if rs == [] then []
    else ChildRowsIn(rs[..|rs| - 1]) + (if rs[|rs| - 1].cls == ChildClass then [rs[|rs| - 1]] else [])
  }

  /** `following-sibling::tr[@class='child']` as the source writes it: every
      later child row of the table, including those of other parent rows. */
  function FollowingChildRows(rows: seq<Row>, j: nat): seq<Row>
    requires j < |rows|
  {
    ChildRowsIn(rows[j + 1..])
  }

  /** The row's own child row: the sibling right after it, when that is a
      child row (`following-sibling::tr[1][@class='child']`). */
  function OwnChildRows(rows: seq<Row>, j: nat): seq<Row>
    requires j < |rows|
  {
    if j + 1 < |rows| && rows[j + 1].cls == ChildClass then [rows[j + 1]] else []
  }

  /** The map extracted for row j of a page, merging the child rows the
      source's locator finds. */
  function RowAt(rows: seq<Row>, j: nat, headers: seq<string>): Result<LinkedMap>
    requires j < |rows|
  {
    RowData(rows[j], FollowingChildRows(rows, j), headers)
  }

  /** The map row j would get if only its own child row were merged. */
  function RowAtOwn(rows: seq<Row>, j: nat, headers: seq<string>): Result<LinkedMap>
    requires j < |rows|
  {
    RowData(rows[j], OwnChildRows(rows, j), headers)
  }

  // ---------------------------------------------------------------------
  // extractRowData
  // ---------------------------------------------------------------------

  lemma HiddenItemsPrefix(hidden: seq<Row>, s: nat)
    requires s < |hidden|
    ensures HiddenItems(hidden[..s + 1]) == HiddenItems(hidden[..s]) + hidden[s].items
  {
    assert hidden[..s + 1][..s] == hidden[..s];
  }

  lemma WithHiddenItemsPrefix(m: LinkedMap, items: seq<HiddenItem>, t: nat)
    requires t < |items|
    ensures WithHiddenItems(m, items[..t + 1]) == WithHiddenItem(WithHiddenItems(m, items[..t]), items[t])
  {
    assert items[..t + 1][..t] == items[..t];
  }

  /** Merging `a + b` is merging `a`, then `b`. */
  lemma {:induction false} WithHiddenItemsAppend(m: LinkedMap, a: seq<HiddenItem>, b: seq<HiddenItem>)
    ensures WithHiddenItems(m, a + b) == WithHiddenItems(WithHiddenItems(m, a), b)
    decreases |b|
  {
    if b == [] {
      assert a + b == a;
    } else {
      assert (a + b)[..|a + b| - 1] == a + b[..|b| - 1];
      WithHiddenItemsAppend(m, a, b[..|b| - 1]);
    }
  }

  /** The loop over one child row's `li` items (lines 335-350). */
  method MergeHiddenItems(m: LinkedMap, hiddenLis: seq<HiddenItem>) returns (rowData: LinkedMap)
    ensures rowData == WithHiddenItems(m, hiddenLis)
  {
    rowData := m;
    var t := 0;
    while t < |hiddenLis|
      invariant t <= |hiddenLis|
      invariant rowData == WithHiddenItems(m, hiddenLis[..t])
    {
      var hiddenLi := hiddenLis[t];
      var hiddenHeader := Trim(hiddenLi.title);
      var hiddenValue := Trim(hiddenLi.data);
      var links := hiddenLi.hrefs;
      if |links| > 0 {
        var href := Trim(links[0]);
        hiddenValue := href;
        rowData := Put(rowData, ReadmoreKey, href);
      }
      if |hiddenHeader| > 0 {
        rowData := Put(rowData, hiddenHeader, hiddenValue);
      } else {
        rowData := Put(rowData, ReadmoreKey, hiddenValue);
      }
      WithHiddenItemsPrefix(m, hiddenLis, t);
      t := t + 1;
    }
    assert hiddenLis[..t] == hiddenLis;
  }

  /** The loop over the located child rows (lines 331-351). */
  method MergeHiddenRows(cellsData: LinkedMap, hidden: seq<Row>) returns (rowData: LinkedMap)
    ensures rowData == WithHiddenItems(cellsData, HiddenItems(hidden))
  {
    rowData := cellsData;
    var s := 0;
    while s < |hidden|
      invariant s <= |hidden|
      invariant rowData == WithHiddenItems(cellsData, HiddenItems(hidden[..s]))
    {
      var hiddenLis := hidden[s].items;
      ghost var before := HiddenItems(hidden[..s]);
      rowData := MergeHiddenItems(rowData, hiddenLis);
      HiddenItemsPrefix(hidden, s);
      WithHiddenItemsAppend(cellsData, before, hiddenLis);
      s := s + 1;
    }
    assert hidden[..s] == hidden;
  }

  /** The cell loop of extractRowData (lines 318-327): it fails on the first
      cell that has no header. */
  method ExtractCells(row: Row, headers: seq<string>) returns (r: Result<LinkedMap>)
    ensures |row.cells| > |headers| ==> r == Failure(HeaderIndexOutOfBounds(|headers|, |headers|))
    ensures |row.cells| <= |headers| ==> r == Success(CellsData(row.cells, headers, |row.cells|))
  {
    var rowData := Empty;
    var i := 0;
    while i < |row.cells|
      invariant i <= |row.cells| && i <= |headers|
      invariant rowData == CellsData(row.cells, headers, i)
    {
      if i >= |headers| {
        return Failure(HeaderIndexOutOfBounds(i, |headers|));
      }
      var cellText := Trim(row.cells[i].text);
      var header := Trim(headers[i]);
      rowData := Put(rowData, header, cellText);
      var links := row.cells[i].hrefs;
      if |links| > 0 {
        var href := Trim(links[0]);
        rowData := Put(rowData, ReadmoreKey, href);
      }
      i := i + 1;
    }
    return Success(rowData);
  }

  /** extractRowData (lines 313-356) on one row and the child rows located for it. */
  method ExtractRowData(row: Row, hidden: seq<Row>, headers: seq<string>) returns (r: Result<LinkedMap>)
    ensures r == RowData(row, hidden, headers)
  {
    r := ExtractCells(row, headers);
    if r.Success? && Contains(row.cls, "parent") {
      var rowData := MergeHiddenRows(r.value, hidden);
      r := Success(rowData);
    }
  }
}
